/**
 * The value codecs of libconf: for every row of the type table, the getter
 * that prints an entry's value into a caller's buffer and the setter that
 * parses text into the entry's storage, allocating the storage on first use.
 *
 * A setter is a function from the entry's pointer and the text (a C string,
 * so without NUL) to the new pointer and the setter's return value. A getter
 * is a function from the pointer to what it writes and returns.
 */
module EncDec {
  import opened Wrappers
  import opened ConfPrivate
  import opened CNum
  import opened Inet
  import opened ConfTypes

  /** Why the model does not say what a getter writes. */
  datatype Unspecified =
    | PointerText       // "%p" of an address the model does not track
    | FloatText         // "%f" of a double the model does not track
    | Uninitialised     // the storage was allocated and never written
    | NullDereference   // bool_get reads through a NULL pointer
    | Reinterpreted     // the storage holds something other than the getter's type

  /** What a getter does. */
  datatype Got =
    | Printed(text: string)            // returns 1 with text in the buffer
    | Failed(wrote: Option<string>)    // returns 0; the buffer holds wrote, or is left alone
    | Indeterminate(why: Unspecified)  // what is written is outside the model

  /** What a setter does. */
  datatype SetResult =
    | Stored(p: Ref, ok: bool)   // the entry's new pointer and whether the setter returned 1
    | Clobbered                  // the setter writes through a pointer that is not a variable of its type

  /** The "if (var->p == NULL) var->p = malloc(...)" every setter but void_set begins with. */
  function Allocate(p: Ref): (r: Ref)
    ensures !r.Null?
    ensures !p.Null? ==> r == p
    ensures p.Null? ==> r == Storage(Junk)
  {
    if p.Null? then Storage(Junk) else p
  }

  /**
   * A setter storing a value: into fresh or existing storage, returning 1.
   * Through a section's entry array or an address read by void_set the
   * write is undefined.
   */
  function Write(p: Ref, c: Cell): (r: SetResult)
    ensures (p.Null? || p.Storage?) <==> r == Stored(Storage(c), true)
    ensures (p.Children? || p.Wild?) <==> r.Clobbered?
  {
    if p.Null? || p.Storage? then Stored(Storage(c), true) else Clobbered
  }

  /** A setter that stores nothing: the storage is allocated and keeps what it held. */
  function Keep(p: Ref, ok: bool): (r: SetResult)
    ensures r.Stored? && r.p == Allocate(p) && r.ok == ok
  {
    Stored(Allocate(p), ok)
  }

  // ---------------------------------------------------------------------
  // Setters
  // ---------------------------------------------------------------------

  /**
   * void_set (also the section row's setter): sscanf "%p" straight into the
   * entry's pointer. A scanned 0 is NULL; a failed scan leaves the pointer
   * as it was. Always returns 1.
   */
  function VoidSet(p: Ref, s: string): (r: SetResult)
    ensures r.Stored? && r.ok
    ensures ScanHex(s, W64) == Some(0) ==> r.p.Null?
    ensures ScanHex(s, W64).None? ==> r.p == p
  {
    match ScanHex(s, W64)
    case None => Stored(p, true)
    case Some(a) => Stored(if a == 0 then Null else Wild(a), true)
  }

  /** int_set, int8_set, int16_set, int64_set: strtol (strtoll), converted to the width. */
  function SignedSet(w: Width, p: Ref, s: string): (r: SetResult)
    ensures r.Stored? ==> r.ok && r.p.Storage? && r.p.cell.Num? && InSigned(r.p.cell.n, w)
  {
    Write(p, Num(ToSigned(Strtol(s), w)))
  }

  /** uint_set, uint8_set, uint16_set, uint64_set: strtoul (strtoull), converted to the width. */
  function UnsignedSet(w: Width, p: Ref, s: string): (r: SetResult)
    ensures r.Stored? ==> r.ok && r.p.Storage? && r.p.cell.Num? && InUnsigned(r.p.cell.n, w)
  {
    Write(p, Num(ToUnsigned(Strtoul(s), w)))
  }

  /**
   * hex8_set and hex16_set scan "%X" into a local unsigned int and store it
   * narrowed, even when the scan failed and the local was never written;
   * hex32_set and hex64_set scan "%X" / "%llX" straight into the storage,
   * which a failed scan leaves as it was.
   */
  function HexSet(w: Width, p: Ref, s: string): (r: SetResult)
    ensures r.Stored? ==> r.ok
    ensures p.Null? ==> r.Stored? && r.p.Storage?
  {
    match w
    case W8 | W16 =>
      (match ScanHex(s, W32)
       case Some(v) => Write(p, Num(ToUnsigned(v, w)))
       case None => Write(p, Junk))
    case W32 | W64 =>
      (match ScanHex(s, w)
       case Some(v) => Write(p, Num(v))
       case None => Keep(p, true))
  }

  /**
   * What string_set takes from its text: after leading white space, either
   * the characters up to the next matching quote when the text starts with
   * a single or double quote (none at all when the quote is not closed), or
   * the whole remainder.
   */
  function StringText(s: string): (r: string)
  {
    var t := Ltrim(s);
    if |t| > 0 && (t[0] == '"' || t[0] == '\'') then
      var rest := t[1..];
      var e := Find(rest, t[0]);
      if e < |rest| then rest[..e] else []
    else t
  }

  /** The characters string_set keeps of its text t: all of them, or at most len when len is positive. */
  function StringKept(len: nat, t: string): (r: string)
    ensures r <= t
    ensures len == 0 ==> r == t
    ensures len > 0 ==> |r| == Min(|t|, len)
  {
    if len > 0 then t[..Min(|t|, len)] else t
  }

  /**
   * string_set: a NULL entry gets a block of one byte more than the whole
   * text (malloc(len + 1) before the cut to the entry's length); the kept
   * characters and their NUL then go into the block. When they do not fit
   * a block that held an earlier string, or the array of a length-bounded
   * entry, the write runs past it. Storage that holds no string is of a
   * size the model does not know.
   */
  function StringSet(len: nat, p: Ref, s: string): (r: SetResult)
    ensures r.Stored? ==> r.ok && r.p.Storage? && r.p.cell.Str? && r.p.cell.s == StringKept(len, StringText(s))
    ensures r.Stored? ==> |r.p.cell.s| < r.p.cell.size
    ensures p.Null? ==> r.Stored? && r.p.cell.size == |StringText(s)| + 1
    ensures p.Storage? && p.cell.Str? ==>
      (r.Stored? <==> |StringKept(len, StringText(s))| < p.cell.size) && (r.Stored? ==> r.p.cell.size == p.cell.size)
    ensures !p.Null? && !(p.Storage? && p.cell.Str?) ==> r.Clobbered?
  {
    var t := StringText(s);
    var kept := StringKept(len, t);
    match p
    case Null => Stored(Storage(Str(kept, |t| + 1)), true)
    case Storage(Str(_, size)) => if |kept| < size then Stored(Storage(Str(kept, size)), true) else Clobbered
    case _ => Clobbered
  }

  /**
   * The words bool_set accepts, tested as case-insensitive prefixes of the
   * trimmed text in this order: TRUE YES ON 1 give true, then FALSE NO OFF 0
   * give false.
   */
  function BoolWord(t: string): (r: Option<bool>)
  {
    if HasPrefixIgnoringCase(t, "TRUE") || HasPrefixIgnoringCase(t, "YES")
      || HasPrefixIgnoringCase(t, "ON") || HasPrefixIgnoringCase(t, "1")
    then Some(true)
    else if HasPrefixIgnoringCase(t, "FALSE") || HasPrefixIgnoringCase(t, "NO")
      || HasPrefixIgnoringCase(t, "OFF") || HasPrefixIgnoringCase(t, "0")
    then Some(false)
    else None
  }

  /** bool_set: a recognised word is stored and 1 returned; otherwise 0 and nothing stored. */
  function BoolSet(p: Ref, s: string): (r: SetResult)
    ensures BoolWord(Ltrim(s)).None? ==> r == Stored(Allocate(p), false)
    ensures r.Stored? && r.ok ==> BoolWord(Ltrim(s)).Some? && r.p == Storage(Flag(BoolWord(Ltrim(s)).value))
  {
    match BoolWord(Ltrim(s))
    case Some(b) => Write(p, Flag(b))
    case None => Keep(p, false)
  }

  /** char_set: the first character after white space; none when only white space remains. */
  function CharSet(p: Ref, s: string): (r: SetResult)
    ensures Ltrim(s) == [] ==> r == Stored(Allocate(p), true)
    ensures Ltrim(s) != [] && r.Stored? ==> r.p == Storage(Chr(Ltrim(s)[0])) && !IsSpace(Ltrim(s)[0])
  {
    var t := Ltrim(s);
    if t == [] then Keep(p, true) else Write(p, Chr(t[0]))
  }

  /** ipv4addr_set: inet_aton into the storage; a rejected text leaves it as it was. Returns 1 either way. */
  function Ipv4Set(p: Ref, s: string): (r: SetResult)
    ensures InetAton(s).None? ==> r == Stored(Allocate(p), true)
    ensures InetAton(s).Some? && r.Stored? ==> r.p == Storage(Quad(InetAton(s).value))
  {
    match InetAton(s)
    case Some(q) => Write(p, Quad(q))
    case None => Keep(p, true)
  }

  /**
   * The setter the entry's row points at, given the entry's length and the
   * text.
   */
  function Set(k: Kind, len: nat, p: Ref, s: string): (r: SetResult)
    ensures k != VoidKind && k != SectionKind && r.Stored? ==> !r.p.Null?
    ensures k.Stub? ==> r == Stored(Allocate(p), false)
  {
    match k
    case VoidKind => VoidSet(p, s)
    case SectionKind => VoidSet(p, s)
    case Signed(w) => SignedSet(w, p, s)
    case Unsigned(w) => UnsignedSet(w, p, s)
    case Hex(w) => HexSet(w, p, s)
    case FloatKind => Write(p, Untracked)
    case StringKind => StringSet(len, p, s)
    case BoolKind => BoolSet(p, s)
    case CharKind => CharSet(p, s)
    case Ipv4Kind => Ipv4Set(p, s)
    case Stub(_) => Keep(p, false)
  }

  // ---------------------------------------------------------------------
  // Getters
  // ---------------------------------------------------------------------

  /** A getter reading storage that does not hold a value of its type. */
  function Unreadable(p: Ref): (g: Got)
    ensures g.Indeterminate?
  {
    if p == Storage(Junk) then Indeterminate(Uninitialised) else Indeterminate(Reinterpreted)
  }

  /** The NULL branch most getters start with: "NULL" in the buffer, 0 returned. */
  const Absent: Got := Failed(Some(NullString))

  function SignedGet(w: Width, p: Ref): (g: Got)
  {
    match p
    case Null => Absent
    case Storage(Num(n)) => Printed(Decimal(ToSigned(n, w)))
    case _ => Unreadable(p)
  }

  function UnsignedGet(w: Width, p: Ref): (g: Got)
  {
    match p
    case Null => Absent
    case Storage(Num(n)) => Printed(Decimal(ToUnsigned(n, w)))
    case _ => Unreadable(p)
  }

  /** hex8_get .. hex64_get: "0x" and as many upper-case digits as the width has nibbles. */
  function HexGet(w: Width, p: Ref): (g: Got)
  {
    match p
    case Null => Absent
    case Storage(Num(n)) => Printed(HexText(ToUnsigned(n, w), HexWidth(w)))
    case _ => Unreadable(p)
  }

  /** string_get: the string between double quotes. */
  function StringGet(p: Ref): (g: Got)
  {
    match p
    case Null => Absent
    case Storage(Str(s, _)) => Printed("\"" + s + "\"")
    case _ => Unreadable(p)
  }

  /** bool_get has no NULL test: it reads through the pointer whatever it is. */
  function BoolGet(p: Ref): (g: Got)
  {
    match p
    case Null => Indeterminate(NullDereference)
    case Storage(Flag(b)) => Printed(if b then "True" else "False")
    case _ => Unreadable(p)
  }

  /** char_get: "%c" of the character; a NUL ends the text at once. */
  function CharGet(p: Ref): (g: Got)
  {
    match p
    case Null => Absent
    case Storage(Chr(c)) => Printed(if c == '\0' then [] else [c])
    case _ => Unreadable(p)
  }

  /** ipv4addr_get: inet_ntoa of the address. */
  function Ipv4Get(p: Ref): (g: Got)
  {
    match p
    case Null => Absent
    case Storage(Quad(q)) => if IsQuad(q) then Printed(Ntoa(q)) else Indeterminate(Reinterpreted)
    case _ => Unreadable(p)
  }

  /**
   * The getters of the unimplemented types: "NULL" without storage, except
   * that oct32_get and bin64_get skip even that test; with storage they
   * assign "" to their own parameter, which leaves the caller's buffer alone.
   */
  function StubGet(st: StubKind, p: Ref): (g: Got)
  {
    if p.Null? && st != Oct32 && st != Bin64 then Absent else Failed(None)
  }

  /** The getter the entry's row points at. */
  function Get(k: Kind, p: Ref): (g: Got)
    ensures g.Printed? ==> !p.Null? && !k.Stub?
  {
    match k
    case VoidKind => if p.Null? then Absent else Indeterminate(PointerText)
    case SectionKind => if p.Null? then Absent else Indeterminate(PointerText)
    case Signed(w) => SignedGet(w, p)
    case Unsigned(w) => UnsignedGet(w, p)
    case Hex(w) => HexGet(w, p)
    case FloatKind => if p.Null? then Absent else Indeterminate(FloatText)
    case StringKind => StringGet(p)
    case BoolKind => BoolGet(p)
    case CharKind => CharGet(p)
    case Ipv4Kind => Ipv4Get(p)
    case Stub(st) => StubGet(st, p)
  }

  // ---------------------------------------------------------------------
  // Properties of the codecs
  // ---------------------------------------------------------------------

  /** An entry that may hold storage of its own. */
  predicate Plain(p: Ref) {
    p.Null? || p.Storage?
  }

  /**
   * A string that string_set can store: into a fresh block, or into a block
   * that holds a string and has room for the kept characters and their NUL.
   */
  predicate StringFits(len: nat, p: Ref, s: string) {
    p.Null? || (p.Storage? && p.cell.Str? && |StringKept(len, StringText(s))| < p.cell.size)
  }

  /**
   * Every setter except void_set leaves the entry with storage; string_set
   * stores exactly when its text fits; every setter except bool_set and the
   * stubs returns 1; bool_set returns 0 exactly when the text starts with
   * none of its words.
   */
  lemma SetOutcome(k: Kind, len: nat, p: Ref, s: string)
    requires Plain(p)
    ensures k != StringKind ==> Set(k, len, p, s).Stored?
    ensures k == StringKind ==> (Set(k, len, p, s).Stored? <==> StringFits(len, p, s))
    ensures Set(k, len, p, s).Stored? && k != VoidKind && k != SectionKind ==> Set(k, len, p, s).p.Storage?
    ensures Set(k, len, p, s).Stored? ==>
      (Set(k, len, p, s).ok <==> !k.Stub? && (k == BoolKind ==> BoolWord(Ltrim(s)).Some?))
  {
    match k
    case VoidKind =>
    case SectionKind =>
    case Signed(w) => assert Set(k, len, p, s) == SignedSet(w, p, s);
    case Unsigned(w) => assert Set(k, len, p, s) == UnsignedSet(w, p, s);
    case Hex(w) =>
      assert Set(k, len, p, s) == HexSet(w, p, s);
      HexSetStores(w, p, s);
    case FloatKind =>
    case StringKind => assert Set(k, len, p, s) == StringSet(len, p, s);
    case BoolKind => assert Set(k, len, p, s) == BoolSet(p, s);
    case CharKind => assert Set(k, len, p, s) == CharSet(p, s);
    case Ipv4Kind => assert Set(k, len, p, s) == Ipv4Set(p, s);
    case Stub(_) =>
  }

  /** hex*_set stores into storage of its own whenever the entry has some or none yet. */
  lemma HexSetStores(w: Width, p: Ref, s: string)
    requires Plain(p)
    ensures HexSet(w, p, s).Stored? && HexSet(w, p, s).ok && HexSet(w, p, s).p.Storage?
  {
    if w == W8 || w == W16 {
      if ScanHex(s, W32).Some? {
        assert HexSet(w, p, s) == Write(p, Num(ToUnsigned(ScanHex(s, W32).value, w)));
      } else {
        assert HexSet(w, p, s) == Write(p, Junk);
      }
    } else if ScanHex(s, w).Some? {
      assert HexSet(w, p, s) == Write(p, Num(ScanHex(s, w).value));
    } else {
      assert HexSet(w, p, s) == Keep(p, true);
    }
  }

  /**
   * The getters without storage: "NULL" and 0, except bool_get, which
   * dereferences NULL, and oct32_get and bin64_get, which write nothing.
   */
  lemma AbsentStorage(k: Kind)
    ensures k == BoolKind ==> Get(k, Null) == Indeterminate(NullDereference)
    ensures k == Stub(Oct32) || k == Stub(Bin64) ==> Get(k, Null) == Failed(None)
    ensures k != BoolKind && k != Stub(Oct32) && k != Stub(Bin64) ==> Get(k, Null) == Failed(Some("NULL"))
  {
  }

  /** The unimplemented types never store a value and never print one. */
  lemma StubsHoldNothing(st: StubKind, len: nat, p: Ref, s: string)
    ensures Set(Stub(st), len, p, s) == Stored(Allocate(p), false)
    ensures !p.Null? ==> Get(Stub(st), p) == Failed(None)
  {
  }

  /**
   * A hex text without a digit: hex8_set and hex16_set store the unwritten
   * local, while hex32_set and hex64_set keep the previous value.
   */
  lemma HexWithoutDigits(w: Width, n: int, s: string)
    requires ScanHex(s, W32).None? && ScanHex(s, W64).None?
    ensures w == W8 || w == W16 ==> HexSet(w, Storage(Num(n)), s) == Stored(Storage(Junk), true)
    ensures w == W32 || w == W64 ==> HexSet(w, Storage(Num(n)), s) == Stored(Storage(Num(n)), true)
  {
  }

  /** int_set .. int64_set read back the text of their getter. */
  lemma SignedRoundTrip(w: Width, n: int, p: Ref)
    requires InSigned(n, w) && Plain(p)
    ensures SignedGet(w, Storage(Num(n))) == Printed(Decimal(n))
    ensures SignedSet(w, p, Decimal(n)) == Stored(Storage(Num(n)), true)
  {
    assert InSigned(n, W64);
    var back := ToSigned(n, w);
    assert back == n;
    assert SignedGet(w, Storage(Num(n))) == Printed(Decimal(back));
    StrtolOfDecimal(n);
    assert SignedSet(w, p, Decimal(n)) == Write(p, Num(back));
  }

  /** uint_set .. uint64_set read back the text of their getter. */
  lemma UnsignedRoundTrip(w: Width, n: int, p: Ref)
    requires InUnsigned(n, w) && Plain(p)
    ensures UnsignedGet(w, Storage(Num(n))) == Printed(Decimal(n))
    ensures UnsignedSet(w, p, Decimal(n)) == Stored(Storage(Num(n)), true)
  {
    assert InUnsigned(n, W64);
    var back := ToUnsigned(n, w);
    assert back == n;
    assert UnsignedGet(w, Storage(Num(n))) == Printed(Decimal(back));
    StrtoulOfDecimal(n);
    assert UnsignedSet(w, p, Decimal(n)) == Write(p, Num(back));
  }

  /** The hex setters read back the text of their getter. */
  lemma HexSetOfHexText(w: Width, n: int, p: Ref)
    requires InUnsigned(n, w) && Plain(p)
    ensures HexSet(w, p, HexText(n, HexWidth(w))) == Stored(Storage(Num(n)), true)
  {
    var s := HexText(n, HexWidth(w));
    if w == W8 || w == W16 {
      assert InUnsigned(n, W32);
      ScanHexOfHexText(n, HexWidth(w), W32);
    } else {
      ScanHexOfHexText(n, HexWidth(w), w);
    }
    HexSetOfScan(w, n, p, s);
  }

  /** A hex setter stores what %X scans from its text. */
  lemma HexSetOfScan(w: Width, n: int, p: Ref, s: string)
    requires InUnsigned(n, w) && Plain(p)
    requires ScanHex(s, if w == W8 || w == W16 then W32 else w) == Some(n)
    ensures HexSet(w, p, s) == Stored(Storage(Num(n)), true)
  {
  }

  /**
   * hex8_set .. hex64_set read back the text of their getter, which is "0x"
   * followed by exactly two digits per byte of the width.
   */
  lemma HexRoundTrip(w: Width, n: int, p: Ref)
    requires InUnsigned(n, w) && Plain(p)
    ensures HexGet(w, Storage(Num(n))) == Printed(HexText(n, HexWidth(w)))
    ensures |HexText(n, HexWidth(w))| == HexWidth(w) + 2
    ensures HexSet(w, p, HexText(n, HexWidth(w))) == Stored(Storage(Num(n)), true)
  {
    HexTextShape(n, w);
    HexSetOfHexText(w, n, p);
  }

  /** bool_set stores the value of a recognised word that starts with no white space. */
  lemma BoolSetOfWord(p: Ref, t: string, b: bool)
    requires Plain(p) && |t| > 0 && !IsSpace(t[0])
    requires BoolWord(t) == Some(b)
    ensures BoolSet(p, t) == Stored(Storage(Flag(b)), true)
  {
    assert Ltrim(t) == t;
  }

  /** bool_set reads "True", the text bool_get prints for true, as true. */
  lemma BoolSetTrue(p: Ref)
    requires Plain(p)
    ensures BoolGet(Storage(Flag(true))) == Printed("True")
    ensures BoolSet(p, "True") == Stored(Storage(Flag(true)), true)
  {
    assert HasPrefixIgnoringCase("True"[3..], "TRUE"[3..]);
    assert HasPrefixIgnoringCase("True", "TRUE");
    BoolSetOfWord(p, "True", true);
  }

  /** bool_set reads "False", the text bool_get prints for false, as false. */
  lemma BoolSetFalse(p: Ref)
    requires Plain(p)
    ensures BoolGet(Storage(Flag(false))) == Printed("False")
    ensures BoolSet(p, "False") == Stored(Storage(Flag(false)), true)
  {
    var t := "False";
    assert !HasPrefixIgnoringCase(t, "TRUE") && !HasPrefixIgnoringCase(t, "YES");
    assert !HasPrefixIgnoringCase(t, "ON") && !HasPrefixIgnoringCase(t, "1");
    assert HasPrefixIgnoringCase(t[4..], "FALSE"[4..]);
    assert HasPrefixIgnoringCase(t, "FALSE");
    BoolSetOfWord(p, t, false);
  }

  /**
   * bool_set matches prefixes: any text starting with one of its words
   * counts, so "onboard" is true and "nonsense" false; a text starting with
   * none of them ("y", "2") is refused.
   */
  lemma BoolWordsArePrefixes()
    ensures BoolWord("yes") == Some(true) && BoolWord("On") == Some(true) && BoolWord("1") == Some(true)
    ensures BoolWord("onboard") == Some(true)
  {
  }

  /** The words for false, and texts that are no boolean at all. */
  lemma FalseWordsArePrefixes()
    ensures BoolWord("off") == Some(false) && BoolWord("No") == Some(false) && BoolWord("0") == Some(false)
    ensures BoolWord("nonsense") == Some(false)
    ensures BoolWord("y") == None && BoolWord("2") == None && BoolWord("") == None
  {
  }

  /**
   * The text the getter of an integer, hex or bool entry prints for a value
   * of its range: %i or %u, 0x%0wX, True or False. None for other kinds and
   * for values out of range.
   */
  function Canonical(k: Kind, c: Cell): (t: Option<string>)
    ensures t.Some? ==> |t.value| > 0
  {
    match k
    case Signed(w) => if c.Num? && InSigned(c.n, w) then Some(Decimal(c.n)) else None
    case Unsigned(w) => if c.Num? && InUnsigned(c.n, w) then Some(Decimal(c.n)) else None
    case Hex(w) => if c.Num? && InUnsigned(c.n, w) then Some(HexText(c.n, HexWidth(w))) else None
    case BoolKind => if c.Flag? then Some(if c.b then "True" else "False") else None
    case _ => None
  }

  /** The canonical text is made of letters, digits and '-' only. */
  lemma CanonicalCharacters(k: Kind, c: Cell)
    ensures Canonical(k, c).Some? ==>
      forall m :: 0 <= m < |Canonical(k, c).value| ==> IsAlnum(Canonical(k, c).value[m]) || Canonical(k, c).value[m] == '-'
  {
    if Canonical(k, c).Some? {
      var t := Canonical(k, c).value;
      match k
      case Signed(_) => DecimalCharacters(c.n);
      case Unsigned(_) => DecimalCharacters(c.n);
      case Hex(w) =>
        NumeralDigits(c.n, 16, HexWidth(w));
        var d := Numeral(c.n, 16, HexWidth(w));
        forall m | 2 <= m < |t| ensures IsAlnum(t[m]) {
          assert t[m] == d[m - 2];
        }
      case BoolKind =>
    }
  }

  /** The text of %i is digits after an optional '-'. */
  lemma DecimalCharacters(v: int)
    ensures forall m :: 0 <= m < |Decimal(v)| ==> IsAlnum(Decimal(v)[m]) || Decimal(v)[m] == '-'
  {
    var t := Decimal(v);
    var d := Numeral(if v < 0 then -v else v, 10, 1);
    NumeralDigits(if v < 0 then -v else v, 10, 1);
    forall m | 0 <= m < |t| ensures IsAlnum(t[m]) || t[m] == '-' {
      if v < 0 && m > 0 {
        assert t[m] == d[m - 1];
      } else if v >= 0 {
        assert t[m] == d[m];
      }
    }
  }

  /** The codecs of an integer, hex or bool row read the canonical text of a value back. */
  lemma CanonicalRoundTrip(k: Kind, len: nat, p: Ref, c: Cell)
    requires Plain(p) && Canonical(k, c).Some?
    ensures Set(k, len, p, Canonical(k, c).value) == Stored(Storage(c), true)
    ensures Get(k, Storage(c)) == Printed(Canonical(k, c).value)
  {
    match k
    case Signed(w) => SignedRoundTrip(w, c.n, p);
    case Unsigned(w) => UnsignedRoundTrip(w, c.n, p);
    case Hex(w) => HexRoundTrip(w, c.n, p);
    case BoolKind => if c.b { BoolSetTrue(p); } else { BoolSetFalse(p); }
  }

  /** char_set reads back a character other than NUL and white space. */
  lemma CharRoundTrip(c: char, p: Ref)
    requires c != '\0' && !IsSpace(c) && Plain(p)
    ensures CharGet(Storage(Chr(c))) == Printed([c])
    ensures CharSet(p, [c]) == Stored(Storage(Chr(c)), true)
  {
    assert Ltrim([c]) == [c];
  }

  /** What string_set takes from a double-quoted text: everything up to the first double quote inside. */
  lemma StringTextQuoted(a: string, b: string)
    requires '"' !in a
    ensures StringText("\"" + a + "\"" + b) == a
  {
    var t := "\"" + a + "\"" + b;
    assert Ltrim(t) == t;
    var rest := t[1..];
    assert rest == a + "\"" + b;
    assert rest[|a|] == '"';
    var e := Find(rest, '"');
    FindFirst(rest, '"');
    assert e == |a|;
    assert rest[..|a|] == a;
  }

  /**
   * string_set reads back a string without double quotes that fits the
   * entry's length, into a fresh block or a string block with room for it.
   */
  lemma StringRoundTrip(s: string, size: nat, len: nat, p: Ref)
    requires '"' !in s
    requires len == 0 || |s| <= len
    requires p.Null? || (p.Storage? && p.cell.Str? && |s| < p.cell.size)
    ensures StringGet(Storage(Str(s, size))) == Printed("\"" + s + "\"")
    ensures StringSet(len, p, "\"" + s + "\"") == Stored(Storage(Str(s, if p.Null? then |s| + 1 else p.cell.size)), true)
  {
    var q := "\"" + s + "\"";
    StringTextQuoted(s, []);
    assert q + [] == q;
    assert StringText(q) == s;
    if len > 0 {
      assert Min(|s|, len) == |s| && s[..|s|] == s;
    }
  }

  /** The text string_get prints for a string with a double quote in it reads back cut at that quote. */
  lemma StringCutAtQuote(a: string, b: string, p: Ref)
    requires '"' !in a
    requires p.Null? || (p.Storage? && p.cell.Str? && |a| < p.cell.size)
    ensures StringSet(0, p, "\"" + a + "\"" + b + "\"").Stored?
    ensures StringSet(0, p, "\"" + a + "\"" + b + "\"").p.cell.s == a
  {
    StringTextQuoted(a, b + "\"");
    assert "\"" + a + "\"" + b + "\"" == "\"" + a + "\"" + (b + "\"");
  }

  /**
   * string_set keeps at most the entry's positive length of characters,
   * taken from the start of its text, and always stores into a fresh block.
   */
  lemma StringBounded(len: nat, p: Ref, s: string)
    requires len > 0 && Plain(p)
    ensures p.Null? ==> StringSet(len, p, s).Stored?
    ensures StringSet(len, p, s).Stored? ==> |StringSet(len, p, s).p.cell.s| <= len
    ensures StringSet(len, p, s).Stored? ==> StringSet(len, p, s).p.cell.s <= StringText(s)
  {
  }

  /**
   * A DEFINE_STRINGCNT entry over an array of exactly len characters: a text
   * of len characters or more keeps len of them, and the NUL after them lands
   * one byte past the array.
   */
  lemma StringCntOverruns(len: nat, held: string, s: string)
    requires len > 0 && |StringText(s)| >= len
    ensures StringSet(len, Storage(Str(held, len)), s).Clobbered?
    ensures StringSet(len, Storage(Str(held, len + 1)), s).Stored?
  {
  }

  /**
   * An unbounded string entry keeps the block malloc'd for its first value:
   * a later, longer value is written past it.
   */
  lemma LongerValueOverruns(a: string, b: string)
    requires |StringText(b)| > |StringText(a)|
    ensures StringSet(0, Null, a).Stored?
    ensures StringSet(0, StringSet(0, Null, a).p, b).Clobbered?
    ensures StringSet(0, StringSet(0, Null, b).p, a).Stored?
  {
  }

  /** ipv4addr_set reads back the text of ipv4addr_get. */
  lemma Ipv4RoundTrip(q: seq<int>, p: Ref)
    requires IsQuad(q) && Plain(p)
    ensures Ipv4Get(Storage(Quad(q))) == Printed(Ntoa(q))
    ensures Ipv4Set(p, Ntoa(q)) == Stored(Storage(Quad(q)), true)
  {
    AtonOfNtoa(q);
  }

  /**
   * The signed setters convert what strtol reads to their width (so the text
   * of 300 stored in an int_8 is 44).
   */
  lemma SignedNarrowing(w: Width, n: int, p: Ref)
    requires InSigned(n, W64) && Plain(p)
    ensures SignedSet(w, p, Decimal(n)) == Stored(Storage(Num(ToSigned(n, w))), true)
  {
    StrtolOfDecimal(n);
  }

  /**
   * The unsigned setters convert what strtoul reads to their width, and
   * strtoul negates a minus-signed magnitude modulo 2^64 (so the text of -1
   * stored in a uint_8 is 255).
   */
  lemma UnsignedNarrowing(w: Width, n: int, p: Ref)
    requires InSigned(n, W64) && Plain(p)
    ensures UnsignedSet(w, p, Decimal(n)) == Stored(Storage(Num(ToUnsigned(n, w))), true)
  {
    StrtoulOfSignedDecimal(n);
    NarrowFrom64(n, w);
  }
}
