/**
 * The data model of libconf (src/libconf/include/conf.h and the type table
 * of src/libconf/conf.c).
 *
 * A configuration tree is an array of entries ended by a terminator. Each
 * entry has a name, a pointer to a row of the type table, a pointer p and a
 * length. A leaf's p points at the variable that holds its value. A
 * section's p points at the entry array of its children.
 *
 * The model keeps the tree as a value:
 *  - a row of the type table is its Kind, because dispatch only ever
 *    compares row identities and every row has its own kind;
 *  - p is a Ref: no storage (NULL), storage holding a Cell, a child array,
 *    or a wild address that was scanned from text by the void setter.
 */
module ConfTypes {
  import opened Wrappers
  import opened CNum

  // ---------------------------------------------------------------------
  // Tags (CONF_*) and the type table
  // ---------------------------------------------------------------------

  const ConfVoid: nat := 0
  const ConfSection: nat := 1
  const ConfInt: nat := 2
  const ConfUint: nat := 3
  const ConfFloat: nat := 4
  const ConfString: nat := 5
  const ConfBoolean: nat := 6
  const ConfChar: nat := 7
  const ConfInt8: nat := 8
  const ConfUint8: nat := 9
  const ConfHex8: nat := 10
  const ConfBin8: nat := 11
  const ConfOct8: nat := 12
  const ConfInt16: nat := 13
  const ConfUint16: nat := 14
  const ConfHex16: nat := 15
  const ConfBin16: nat := 16
  const ConfOct16: nat := 17
  /** CONF_INT32 and CONF_UINT32 are aliases of CONF_INT and CONF_UINT. */
  const ConfInt32: nat := ConfInt
  const ConfUint32: nat := ConfUint
  const ConfHex32: nat := 18
  const ConfBin32: nat := 19
  const ConfOct32: nat := 20
  const ConfInt64: nat := 21
  const ConfUint64: nat := 22
  const ConfHex64: nat := 23
  const ConfBin64: nat := 24
  const ConfOct64: nat := 25
  const ConfIpv4Addr: nat := 26
  const ConfRgb: nat := 27
  const ConfRgbi: nat := 28
  const ConfCymk: nat := 29
  const ConfRatio: nat := 30
  const ConfMax: nat := 31

  /** The types whose codecs only allocate: they never store or print a value. */
  datatype StubKind = Bin8 | Oct8 | Bin16 | Oct16 | Bin32 | Oct32 | Bin64 | Oct64 | Rgb | Rgbi | Cymk | Ratio

  /** What a row of the type table does: the get/set pair it points at. */
  datatype Kind =
    | VoidKind
    | SectionKind
    | Signed(w: Width)      // int_8 .. int_64 and "integer" (32 bits)
    | Unsigned(w: Width)    // uint_8 .. uint_64 and "unsigned" (32 bits)
    | Hex(w: Width)         // hex_8 .. hex_64
    | FloatKind
    | StringKind
    | BoolKind
    | CharKind
    | Ipv4Kind
    | Stub(s: StubKind)

  /** struct conf_type: tag code, name and the codec pair (as a Kind). */
  datatype TypeRow = TypeRow(code: nat, name: string, kind: Kind)

  /** conf_type_tab of libconf, in declaration order. */
  const TypeTable: seq<TypeRow> := [
    TypeRow(ConfVoid, "void", VoidKind),
    TypeRow(ConfSection, "section", SectionKind),
    TypeRow(ConfInt, "integer", Signed(W32)),
    TypeRow(ConfUint, "unsigned", Unsigned(W32)),
    TypeRow(ConfFloat, "float", FloatKind),
    TypeRow(ConfString, "string", StringKind),
    TypeRow(ConfBoolean, "boolean", BoolKind),
    TypeRow(ConfChar, "char", CharKind),
    TypeRow(ConfInt8, "int_8", Signed(W8)),
    TypeRow(ConfInt8, "uint_8", Unsigned(W8)),
    TypeRow(ConfHex8, "hex_8", Hex(W8)),
    TypeRow(ConfBin8, "binary_8", Stub(Bin8)),
    TypeRow(ConfOct8, "octal_8", Stub(Oct8)),
    TypeRow(ConfInt16, "int_16", Signed(W16)),
    TypeRow(ConfInt16, "uint_16", Unsigned(W16)),
    TypeRow(ConfHex16, "hex_16", Hex(W16)),
    TypeRow(ConfBin16, "binary_16", Stub(Bin16)),
    TypeRow(ConfOct16, "octal_16", Stub(Oct16)),
    TypeRow(ConfHex32, "hex_32", Hex(W32)),
    TypeRow(ConfBin32, "binary_32", Stub(Bin32)),
    TypeRow(ConfOct32, "octal_32", Stub(Oct32)),
    TypeRow(ConfInt64, "int_64", Signed(W64)),
    TypeRow(ConfInt64, "uint_64", Unsigned(W64)),
    TypeRow(ConfHex64, "hex_64", Hex(W64)),
    TypeRow(ConfBin64, "binary_64", Stub(Bin64)),
    TypeRow(ConfOct64, "octal_64", Stub(Oct64)),
    TypeRow(ConfIpv4Addr, "ipv4_address", Ipv4Kind),
    TypeRow(ConfRgb, "rgb", Stub(Rgb)),
    TypeRow(ConfRgbi, "rgbi", Stub(Rgbi)),
    TypeRow(ConfCymk, "cymk", Stub(Cymk)),
    TypeRow(ConfRatio, "ratio", Stub(Ratio))
  ]

  /**
   * CONF_TYPE(t) is &conf_type_tab[t]: the row is chosen by position, and
   * the row's code field plays no part.
   */
  function ConfType(tag: nat): (k: Kind)
    requires tag < |TypeTable|
    ensures k == TypeTable[tag].kind
  {
    TypeTable[tag].kind
  }

  // ---------------------------------------------------------------------
  // Values and entries
  // ---------------------------------------------------------------------

  /** What a leaf's storage holds. */
  datatype Cell =
    | Num(n: int)                  // an integer of the entry's width
    | Flag(b: bool)                // a bool
    | Chr(c: char)                 // a char
    | Str(s: string, size: nat)    // a C string in a block of size bytes: its characters before the NUL
    | Quad(octets: seq<int>)       // a struct in_addr: its four bytes in memory order
    | Untracked                    // a value the model does not follow (a double, a void target)
    | Junk                         // uninitialised memory

  /** The entry's pointer p. */
  datatype Ref =
    | Null                         // p == NULL: no storage bound yet
    | Storage(cell: Cell)          // p points at a variable
    | Children(entries: seq<Entry>) // p points at a section's entry array
    | Wild(addr: nat)              // p was overwritten with an address scanned from text

  /** struct conf_entry, or SECTION_TERMINATOR ({NULL, NULL, NULL}). */
  datatype Entry =
    | Var(name: string, kind: Kind, p: Ref, len: nat)
    | Terminator

  /** The entry's name, NULL for the terminator. */
  function NameOf(e: Entry): (r: Option<string>)
    ensures r.None? <==> e.Terminator?
  {
    if e.Terminator? then None else Some(e.name)
  }

  /** Whether the entry's row is the section row, the test every walker makes. */
  predicate IsSection(e: Entry) {
    e.Var? && e.kind == SectionKind
  }

  // ---------------------------------------------------------------------
  // DEFINE_*, EXPORT_*, BEGIN_SECTION / END_SECTION
  // ---------------------------------------------------------------------

  /** DEFINE_X(NM, PTR) for the tag of X: the row at that tag, the pointer, length 0. */
  function Define(name: string, tag: nat, p: Ref): (e: Entry)
    requires tag < |TypeTable|
    ensures e.Var? && e.name == name && e.kind == TypeTable[tag].kind && e.p == p
    ensures e.len == 0
  {
    Var(name, ConfType(tag), p, 0)
  }

  /** DEFINE_STRINGCNT(NM, PTR, LEN): the only constructor with a length. */
  function DefineStringCnt(name: string, p: Ref, len: nat): (e: Entry)
    ensures e.Var? && e.name == name && e.kind == StringKind && e.p == p && e.len == len
  {
    Var(name, ConfType(ConfString), p, len)
  }

  /**
   * DEFINE_SECTION(NM, PTR): the child array goes into the same field p
   * that leaves use for their storage.
   */
  function DefineSection(name: string, children: seq<Entry>): (e: Entry)
    ensures IsSection(e) && e.name == name && e.p == Children(children) && e.len == 0
  {
    Define(name, ConfSection, Children(children))
  }

  /**
   * EXPORT_X(VAR): DEFINE_X with the variable's identifier text as the name
   * and the variable's address as the pointer. The identifier text is
   * passed in, since the model has no preprocessor.
   */
  function Export(identifier: string, tag: nat, variable: Cell): (e: Entry)
    requires tag < |TypeTable|
    ensures e == Var(identifier, TypeTable[tag].kind, Storage(variable), 0)
  {
    Define(identifier, tag, Storage(variable))
  }

  /** EXPORT_STRINGCNT(VAR, LEN). */
  function ExportStringCnt(identifier: string, variable: Cell, len: nat): (e: Entry)
    ensures e == Var(identifier, StringKind, Storage(variable), len)
  {
    DefineStringCnt(identifier, Storage(variable), len)
  }

  /** BEGIN_SECTION(X) entries END_SECTION: the entries followed by the terminator. */
  function SectionArray(entries: seq<Entry>): (r: seq<Entry>)
    ensures |r| == |entries| + 1 && r[..|entries|] == entries
    ensures r[|r| - 1] == Terminator && NameOf(r[|r| - 1]).None?
  {
    entries + [Terminator]
  }

  // ---------------------------------------------------------------------
  // Properties of the layout
  // ---------------------------------------------------------------------

  /** Each tag selects the row named for it; CONF_MAX is the table size. */
  lemma TagsSelectTheirRows()
    ensures |TypeTable| == ConfMax
    ensures TypeTable[ConfVoid].name == "void" && TypeTable[ConfSection].name == "section"
    ensures TypeTable[ConfInt32].name == "integer" && TypeTable[ConfUint32].name == "unsigned"
    ensures TypeTable[ConfFloat].name == "float" && TypeTable[ConfString].name == "string"
    ensures TypeTable[ConfBoolean].name == "boolean" && TypeTable[ConfChar].name == "char"
  {
  }

  /** The same for the 8-bit tags. */
  lemma NarrowTagsSelectTheirRows()
    ensures TypeTable[ConfInt8].name == "int_8" && TypeTable[ConfUint8].name == "uint_8"
    ensures TypeTable[ConfHex8].name == "hex_8" && TypeTable[ConfBin8].name == "binary_8"
    ensures TypeTable[ConfOct8].name == "octal_8"
  {
  }

  /** The same for the 16-bit tags. */
  lemma ShortTagsSelectTheirRows()
    ensures TypeTable[ConfInt16].name == "int_16" && TypeTable[ConfUint16].name == "uint_16"
    ensures TypeTable[ConfHex16].name == "hex_16" && TypeTable[ConfBin16].name == "binary_16"
    ensures TypeTable[ConfOct16].name == "octal_16"
  {
  }

  /** The same for the tags from CONF_HEX32 on. */
  lemma WideTagsSelectTheirRows()
    ensures TypeTable[ConfHex32].name == "hex_32" && TypeTable[ConfBin32].name == "binary_32"
    ensures TypeTable[ConfOct32].name == "octal_32"
    ensures TypeTable[ConfInt64].name == "int_64" && TypeTable[ConfUint64].name == "uint_64"
    ensures TypeTable[ConfHex64].name == "hex_64" && TypeTable[ConfBin64].name == "binary_64"
    ensures TypeTable[ConfOct64].name == "octal_64"
    ensures TypeTable[ConfIpv4Addr].name == "ipv4_address" && TypeTable[ConfRgb].name == "rgb"
    ensures TypeTable[ConfRgbi].name == "rgbi" && TypeTable[ConfCymk].name == "cymk"
    ensures TypeTable[ConfRatio].name == "ratio"
  {
  }

  /**
   * The code field does not always equal the row's position (uint_8,
   * uint_16 and uint_64 carry the code of their signed neighbour), yet each
   * of those rows holds its own unsigned codec: dispatch goes by position.
   */
  lemma CodeIsNotPosition()
    ensures TypeTable[ConfUint8].code == ConfInt8 && ConfType(ConfUint8) == Unsigned(W8)
    ensures TypeTable[ConfUint16].code == ConfInt16 && ConfType(ConfUint16) == Unsigned(W16)
    ensures TypeTable[ConfUint64].code == ConfInt64 && ConfType(ConfUint64) == Unsigned(W64)
    ensures forall t :: 0 <= t < |TypeTable| && t !in {ConfUint8, ConfUint16, ConfUint64} ==> TypeTable[t].code == t
  {
  }

  /**
   * The position of the row whose kind is k. A kind names a row, not a
   * codec pair: the void and section rows share void_get and void_set.
   */
  function KindIndex(k: Kind): nat {
    match k
    case VoidKind => ConfVoid
    case SectionKind => ConfSection
    case FloatKind => ConfFloat
    case StringKind => ConfString
    case BoolKind => ConfBoolean
    case CharKind => ConfChar
    case Ipv4Kind => ConfIpv4Addr
    case Signed(w) => (match w case W8 => ConfInt8 case W16 => ConfInt16 case W32 => ConfInt case W64 => ConfInt64)
    case Unsigned(w) => (match w case W8 => ConfUint8 case W16 => ConfUint16 case W32 => ConfUint case W64 => ConfUint64)
    case Hex(w) => (match w case W8 => ConfHex8 case W16 => ConfHex16 case W32 => ConfHex32 case W64 => ConfHex64)
    case Stub(s) => (match s
      case Bin8 => ConfBin8 case Oct8 => ConfOct8 case Bin16 => ConfBin16 case Oct16 => ConfOct16
      case Bin32 => ConfBin32 case Oct32 => ConfOct32 case Bin64 => ConfBin64 case Oct64 => ConfOct64
      case Rgb => ConfRgb case Rgbi => ConfRgbi case Cymk => ConfCymk case Ratio => ConfRatio)
  }

  /** Each row's kind leads back to the row: rows 0 to 10 ... */
  lemma KindIndexLow()
    ensures forall t :: 0 <= t < 11 ==> KindIndex(TypeTable[t].kind) == t
  {
  }

  /** ... rows 11 to 20 ... */
  lemma KindIndexMiddle()
    ensures forall t :: 11 <= t < 21 ==> KindIndex(TypeTable[t].kind) == t
  {
  }

  /** ... and rows 21 to 30. */
  lemma KindIndexHigh()
    ensures forall t :: 21 <= t < |TypeTable| ==> KindIndex(TypeTable[t].kind) == t
  {
  }

  /**
   * Distinct rows have distinct kinds, so the writer's comparison of an
   * entry's row with the section row is a comparison of kinds. The void
   * and section rows hold the same codec pair; only that comparison tells
   * them apart.
   */
  lemma RowsAreDistinct()
    ensures forall i, j :: 0 <= i < j < |TypeTable| ==> TypeTable[i].kind != TypeTable[j].kind
  {
    KindIndexLow();
    KindIndexMiddle();
    KindIndexHigh();
  }
}
