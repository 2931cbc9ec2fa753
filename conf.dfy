/**
 * The path resolver and the public get/set entry points of libconf.
 *
 * A section is the value of its pointer field: Children(entries) for an
 * entry array (which the terminator ends), Null, or a pointer the model does
 * not follow. A resolved entry is named by its index path from the section
 * the walk started in.
 */
module Conf {
  import opened Wrappers
  import opened ConfPrivate
  import opened ConfTypes
  import opened EncDec
  import opened CNum

  // ---------------------------------------------------------------------
  // strtokcmp
  // ---------------------------------------------------------------------

  /** strtokcmp's answers: 0, 1 with *saveptr set to haystack + rest, and -1. */
  datatype TokCmp = Equal | Prefix(rest: nat) | Differ

  /**
   * The compare loop of strtokcmp from offset i on: stop at the first
   * difference (a delimiter in the haystack where the needle ends is a
   * prefix match when there is a saveptr to set) or at the needle's end.
   */
  function TokCmpFrom(h: string, n: string, delim: char, saves: bool, i: nat): (r: TokCmp)
    requires i <= |n|
    ensures r.Prefix? ==> 1 <= r.rest <= |h|
    decreases |n| - i
  {
    var hc := CharAt(h, i);
    var nc := CharAt(n, i);
    if hc != nc then
      if hc == delim && nc == '\0' && saves then Prefix(i + 1) else Differ
    else if nc == '\0' then Equal
    else TokCmpFrom(h, n, delim, saves, i + 1)
  }

  /**
   * strtokcmp(haystack, needle, delim, saveptr) on C strings; a NULL
   * haystack or needle gives 0. saves says whether saveptr is non-NULL.
   */
  function StrTokCmp(haystack: Option<string>, needle: Option<string>, delim: char, saves: bool): (r: TokCmp)
    ensures haystack.None? || needle.None? ==> r == Equal
  {
    if haystack.None? || needle.None? then Equal
    else TokCmpFrom(CStr(haystack.value), CStr(needle.value), delim, saves, 0)
  }

  /** What strtokcmp answers on two C strings, stated without the loop. */
  function TokCmpMeaning(h: string, n: string, delim: char, saves: bool): TokCmp {
    if h == n then Equal
    else if saves && |n| < |h| && h[..|n|] == n && h[|n|] == delim then Prefix(|n| + 1)
    else Differ
  }

  /** The loop from offset i, once the first i characters agree. */
  lemma {:induction false} TokCmpFromMeaning(h: string, n: string, delim: char, saves: bool, i: nat)
    requires NoNul(h) && NoNul(n) && delim != '\0'
    requires i <= |n| && i <= |h| && h[..i] == n[..i]
    ensures TokCmpFrom(h, n, delim, saves, i) == TokCmpMeaning(h, n, delim, saves)
    decreases |n| - i
  {
    var hc := CharAt(h, i);
    var nc := CharAt(n, i);
    if hc != nc {
      if i < |n| && i < |h| {
        assert h != n by { assert h[i] != n[i]; }
        assert !(|n| < |h| && h[..|n|] == n);
      } else if i == |n| && i < |h| {
        assert h[..|n|] == n;
      } else {
        assert i == |h| && i < |n|;
      }
    } else if nc == '\0' {
      assert i == |n| && i == |h|;
      assert h == h[..i] && n == n[..i];
    } else {
      assert h[..i + 1] == h[..i] + [h[i]] && n[..i + 1] == n[..i] + [n[i]];
      TokCmpFromMeaning(h, n, delim, saves, i + 1);
    }
  }

  /**
   * strtokcmp returns 0 exactly when the strings are equal, 1 with the rest
   * just past the delimiter exactly when the needle is a prefix of the
   * haystack followed by the delimiter (and a saveptr is given), -1
   * otherwise.
   */
  lemma StrTokCmpMeaning(h: string, n: string, delim: char, saves: bool)
    requires NoNul(h) && NoNul(n) && delim != '\0'
    ensures StrTokCmp(Some(h), Some(n), delim, saves) == Equal <==> h == n
    ensures StrTokCmp(Some(h), Some(n), delim, saves).Prefix? <==>
      saves && |n| < |h| && h[..|n|] == n && h[|n|] == delim
    ensures StrTokCmp(Some(h), Some(n), delim, saves).Prefix? ==>
      StrTokCmp(Some(h), Some(n), delim, saves).rest == |n| + 1
  {
    NoNulCStr(h);
    NoNulCStr(n);
    TokCmpFromMeaning(h, n, delim, saves, 0);
  }

  /** A sequence without NUL is its own C string. */
  lemma NoNulCStr(s: string)
    requires NoNul(s)
    ensures CStr(s) == s
  {
  }

  // ---------------------------------------------------------------------
  // entry_lookup and section_lookup
  // ---------------------------------------------------------------------

  /** Where a lookup ends. */
  datatype Located =
    | Found(path: seq<nat>)   // the entry at this index path
    | Nowhere                 // NULL
    | Stray                   // the walk reads through a pointer that is not an entry array

  /** The result of a lookup in the entry at index i, seen from the array that holds it. */
  function Within(i: nat, r: Located): (q: Located)
    ensures r.Found? <==> q.Found?
    ensures q.Found? ==> q.path == [i] + r.path
    ensures r == Nowhere <==> q == Nowhere
  {
    match r
    case Found(path) => Found([i] + path)
    case _ => r
  }

  /** entry_lookup on a C string name: a NULL or empty name and a NULL section fail. */
  function Lookup(section: Ref, name: string): (r: Located)
    ensures r.Found? ==> ValidPath(section, r.path)
    decreases section, 1
  {
    if name == [] then Nowhere
    else match section
      case Null => Nowhere
      case Children(entries) => LookupFrom(entries, name, 0)
      case _ => Stray
  }

  /**
   * The walk over an entry array from index i to the terminator: the first
   * entry that matches is the answer; a prefix match goes on in that
   * entry's children, or fails when it is no section. Running off the end
   * of an array without terminator reads beyond it.
   */
  function LookupFrom(entries: seq<Entry>, name: string, i: nat): (r: Located)
    requires name != []
    ensures r.Found? ==> ValidPath(Children(entries), r.path) && i <= r.path[0] < |entries|
    decreases Children(entries), 0, |entries| - i
  {
    if i >= |entries| then Stray
    else match entries[i]
      case Terminator => Nowhere
      case Var(n, kind, p, _) =>
        match TokCmpFrom(name, n, '/', true, 0)
        case Equal => Found([i])
        case Prefix(k) =>
          if kind != SectionKind then Nowhere
          else
            var r := Lookup(p, name[k..]);
            assert r.Found? ==> ([i] + r.path)[1..] == r.path;
            Within(i, r)
        case Differ => LookupFrom(entries, name, i + 1)
  }

  /** entry_lookup(section, name). */
  function EntryLookup(section: Ref, name: Option<string>): (r: Located)
    ensures name.None? ==> r == Nowhere
    ensures name.Some? && CStr(name.value) == [] ==> r == Nowhere
    ensures section.Null? ==> r == Nowhere
  {
    if name.None? then Nowhere else Lookup(section, CStr(name.value))
  }

  // ---------------------------------------------------------------------
  // Paths into the tree
  // ---------------------------------------------------------------------

  /** An index path that leads through entry arrays to an entry. */
  predicate ValidPath(section: Ref, path: seq<nat>)
    decreases |path|
  {
    |path| > 0 && section.Children? && path[0] < |section.entries|
    && section.entries[path[0]].Var?
    && (|path| > 1 ==> ValidPath(section.entries[path[0]].p, path[1..]))
  }

  /** The entry an index path leads to. */
  function EntryAt(section: Ref, path: seq<nat>): (e: Entry)
    requires ValidPath(section, path)
    ensures e.Var?
    decreases |path|
  {
    var e := section.entries[path[0]];
    if |path| == 1 then e else EntryAt(e.p, path[1..])
  }

  /** The tree with the pointer of the entry at the path replaced, and nothing else changed. */
  function Replace(section: Ref, path: seq<nat>, q: Ref): (r: Ref)
    requires ValidPath(section, path)
    ensures r.Children? && |r.entries| == |section.entries|
    decreases |path|
  {
    var e := section.entries[path[0]];
    var e' := if |path| == 1 then e.(p := q) else e.(p := Replace(e.p, path[1..], q));
    Children(section.entries[path[0] := e'])
  }

  /** The names along a path, each followed by a slash but the last. */
  function PathName(section: Ref, path: seq<nat>): (r: string)
    requires ValidPath(section, path)
    decreases |path|
  {
    var e := section.entries[path[0]];
    if |path| == 1 then e.name else e.name + "/" + PathName(e.p, path[1..])
  }

  /** The section pointer the path leads into (the start for the empty path). */
  function SectionAt(section: Ref, path: seq<nat>): (r: Ref)
    requires path == [] || ValidPath(section, path)
  {
    if path == [] then section else EntryAt(section, path).p
  }

  // ---------------------------------------------------------------------
  // Properties of the resolver
  // ---------------------------------------------------------------------

  /** Every name the walk compares, as a C string. */
  predicate NamesAreCStrings(section: Ref)
    decreases section
  {
    section.Children? ==>
      forall i :: 0 <= i < |section.entries| ==>
        section.entries[i].Var? ==> NoNul(section.entries[i].name) && NamesAreCStrings(section.entries[i].p)
  }

  /**
   * A found path leads to an entry, every entry before its end is a
   * section, and the name is the path's names joined by slashes.
   */
  lemma {:induction false} LookupSound(section: Ref, name: string)
    requires NoNul(name) && NamesAreCStrings(section)
    requires Lookup(section, name).Found?
    ensures PathName(section, Lookup(section, name).path) == name
    ensures EntryAt(section, Lookup(section, name).path).name != []
    decreases section, 1
  {
    LookupFromSound(section.entries, name, 0);
  }

  lemma {:induction false} LookupFromSound(entries: seq<Entry>, name: string, i: nat)
    requires name != [] && NoNul(name) && NamesAreCStrings(Children(entries))
    requires LookupFrom(entries, name, i).Found?
    ensures PathName(Children(entries), LookupFrom(entries, name, i).path) == name
    ensures EntryAt(Children(entries), LookupFrom(entries, name, i).path).name != []
    decreases Children(entries), 0, |entries| - i
  {
    var e := entries[i];
    TokCmpFromMeaning(name, e.name, '/', true, 0);
    match TokCmpFrom(name, e.name, '/', true, 0)
    case Equal =>
    case Prefix(k) =>
      assert k == |e.name| + 1;
      LookupSound(e.p, name[k..]);
      PrefixStep(entries, name, i);
    case Differ =>
      LookupFromSound(entries, name, i + 1);
  }

  /** The step into a section on a prefix match: the section's name, a slash, and the rest. */
  lemma PrefixStep(entries: seq<Entry>, name: string, i: nat)
    requires name != [] && NoNul(name) && i < |entries| && entries[i].Var? && NoNul(entries[i].name)
    requires TokCmpFrom(name, entries[i].name, '/', true, 0).Prefix?
    requires LookupFrom(entries, name, i).Found? && |entries[i].name| < |name|
    requires var rest := name[|entries[i].name| + 1..];
      Lookup(entries[i].p, rest).Found? &&
      PathName(entries[i].p, Lookup(entries[i].p, rest).path) == rest
      && EntryAt(entries[i].p, Lookup(entries[i].p, rest).path).name != []
    ensures PathName(Children(entries), LookupFrom(entries, name, i).path) == name
    ensures EntryAt(Children(entries), LookupFrom(entries, name, i).path).name != []
  {
    var n := entries[i].name;
    TokCmpFromMeaning(name, n, '/', true, 0);
    var rest := name[|n| + 1..];
    var sub := Lookup(entries[i].p, rest).path;
    assert LookupFrom(entries, name, i).path == [i] + sub;
    assert ([i] + sub)[1..] == sub;
    assert name == n + "/" + rest by {
      assert name == name[..|n|] + [name[|n|]] + name[|n| + 1..];
    }
  }

  /** The first entry that matches wins: every sibling before it compares different. */
  lemma FirstMatchWins(entries: seq<Entry>, name: string, i: nat)
    requires name != [] && i < |entries|
    requires LookupFrom(entries, name, 0).Found? && LookupFrom(entries, name, 0).path[0] == i
    ensures forall j :: 0 <= j < i ==> entries[j].Var? && TokCmpFrom(name, entries[j].name, '/', true, 0) == Differ
  {
    forall j | 0 <= j < i
      ensures entries[j].Var? && TokCmpFrom(name, entries[j].name, '/', true, 0) == Differ
    {
      FirstMatchFrom(entries, name, 0, j);
    }
  }

  lemma {:induction false} FirstMatchFrom(entries: seq<Entry>, name: string, k: nat, j: nat)
    requires name != [] && k <= j
    requires LookupFrom(entries, name, k).Found? && j < LookupFrom(entries, name, k).path[0]
    ensures j < |entries| && entries[j].Var? && TokCmpFrom(name, entries[j].name, '/', true, 0) == Differ
    decreases j - k
  {
    if k < j {
      FirstMatchFrom(entries, name, k + 1, j);
    }
  }

  /**
   * An entry named exactly by the name is found when every sibling before
   * it compares different; a prefix match on an entry that is no section
   * fails without looking at later siblings.
   */
  lemma {:induction false} LookupComplete(entries: seq<Entry>, name: string, i: nat)
    requires name != [] && i < |entries| && entries[i].Var?
    requires forall j :: 0 <= j < i ==> entries[j].Var? && TokCmpFrom(name, entries[j].name, '/', true, 0) == Differ
    ensures TokCmpFrom(name, entries[i].name, '/', true, 0) == Equal ==> Lookup(Children(entries), name) == Found([i])
    ensures TokCmpFrom(name, entries[i].name, '/', true, 0).Prefix? && entries[i].kind != SectionKind ==>
      Lookup(Children(entries), name) == Nowhere
  {
    LookupSkips(entries, name, 0, i);
  }

  lemma {:induction false} LookupSkips(entries: seq<Entry>, name: string, k: nat, i: nat)
    requires name != [] && k <= i < |entries|
    requires forall j :: k <= j < i ==> entries[j].Var? && TokCmpFrom(name, entries[j].name, '/', true, 0) == Differ
    ensures LookupFrom(entries, name, k) == LookupFrom(entries, name, i)
    decreases i - k
  {
    if k < i {
      LookupSkips(entries, name, k + 1, i);
    }
  }

  /**
   * A name that ends in a slash can only be found as an entry whose own
   * name is empty or ends in a slash: the walk's last step is an exact
   * match, and after "a/" the rest is empty, which fails.
   */
  lemma TrailingSlash(section: Ref, name: string)
    requires NoNul(name) && NamesAreCStrings(section)
    requires |name| > 0 && name[|name| - 1] == '/'
    requires Lookup(section, name).Found?
    ensures var e := EntryAt(section, Lookup(section, name).path);
      |e.name| > 0 && e.name[|e.name| - 1] == '/'
  {
    LookupSound(section, name);
    PathNameEndsWithLast(section, Lookup(section, name).path);
  }

  /** A path's name ends with the name of the entry it leads to. */
  lemma {:induction false} PathNameEndsWithLast(section: Ref, path: seq<nat>)
    requires ValidPath(section, path)
    ensures var n := EntryAt(section, path).name; var s := PathName(section, path);
      |n| <= |s| && s[|s| - |n|..] == n
    decreases |path|
  {
    if |path| > 1 {
      var e := section.entries[path[0]];
      PathNameEndsWithLast(e.p, path[1..]);
    }
  }

  /** section_lookup: the section entry the name resolves to, or NULL when it is no section. */
  function SectionLookup(section: Ref, name: string): (r: Located)
    ensures r.Found? ==> ValidPath(section, r.path) && IsSection(EntryAt(section, r.path))
    ensures r.Found? <==> Lookup(section, name).Found? && IsSection(EntryAt(section, Lookup(section, name).path))
  {
    var r := Lookup(section, name);
    if r.Found? then
      if IsSection(EntryAt(section, r.path)) then r else Nowhere
    else r
  }

  // ---------------------------------------------------------------------
  // Replacing a leaf's pointer
  // ---------------------------------------------------------------------

  /** Replace puts the new pointer at the path. */
  lemma {:induction false} ReplaceAt(section: Ref, path: seq<nat>, q: Ref)
    requires ValidPath(section, path)
    ensures ValidPath(Replace(section, path, q), path)
    ensures var e := EntryAt(section, path); EntryAt(Replace(section, path, q), path) == Var(e.name, e.kind, q, e.len)
    decreases |path|
  {
    if |path| > 1 {
      ReplaceAt(section.entries[path[0]].p, path[1..], q);
    }
  }

  /**
   * Replacing the pointer of an entry that is no section changes no lookup:
   * the walk only follows the pointers of sections.
   */
  lemma {:induction false} ReplaceKeepsLookup(section: Ref, path: seq<nat>, q: Ref, name: string)
    requires ValidPath(section, path) && !IsSection(EntryAt(section, path))
    ensures Lookup(Replace(section, path, q), name) == Lookup(section, name)
    decreases section, 1
  {
    if name != [] {
      ReplaceKeepsLookupFrom(section.entries, path, q, name, 0);
    }
  }

  lemma {:induction false} ReplaceKeepsLookupFrom(entries: seq<Entry>, path: seq<nat>, q: Ref, name: string, i: nat)
    requires ValidPath(Children(entries), path) && !IsSection(EntryAt(Children(entries), path))
    requires name != []
    ensures LookupFrom(Replace(Children(entries), path, q).entries, name, i) == LookupFrom(entries, name, i)
    decreases Children(entries), 0, |entries| - i
  {
    var entries' := Replace(Children(entries), path, q).entries;
    if i < |entries| {
      if i == path[0] {
        var e := entries[i];
        if |path| > 1 && e.kind == SectionKind {
          match TokCmpFrom(name, e.name, '/', true, 0)
          case Prefix(k) =>
            ReplaceKeepsLookup(e.p, path[1..], q, name[k..]);
          case _ =>
        }
        ReplaceKeepsLookupFrom(entries, path, q, name, i + 1);
      } else {
        assert entries'[i] == entries[i];
        ReplaceKeepsLookupFrom(entries, path, q, name, i + 1);
      }
    }
  }

  /**
   * Replacing the pointer of the entry a name resolves to, whatever the
   * new pointer, leaves the name resolving to that entry: the walk to it
   * compares names only and descends through the sections above it.
   */
  lemma {:induction false} ReplaceKeepsFound(section: Ref, path: seq<nat>, q: Ref, name: string)
    requires ValidPath(section, path) && Lookup(section, name) == Found(path)
    ensures Lookup(Replace(section, path, q), name) == Found(path)
    decreases section, 1
  {
    ReplaceKeepsFoundFrom(section.entries, path, q, name, 0);
  }

  lemma {:induction false} ReplaceKeepsFoundFrom(entries: seq<Entry>, path: seq<nat>, q: Ref, name: string, i: nat)
    requires ValidPath(Children(entries), path) && name != []
    requires LookupFrom(entries, name, i) == Found(path)
    ensures LookupFrom(Replace(Children(entries), path, q).entries, name, i) == Found(path)
    decreases Children(entries), 0, |entries| - i
  {
    var entries' := Replace(Children(entries), path, q).entries;
    var e := entries[i];
    if i == path[0] {
      match TokCmpFrom(name, e.name, '/', true, 0)
      case Equal =>
      case Prefix(k) =>
        ReplaceKeepsFound(e.p, path[1..], q, name[k..]);
        assert entries'[i].p == Replace(e.p, path[1..], q);
      case Differ =>
    } else {
      assert entries'[i] == e;
      ReplaceKeepsFoundFrom(entries, path, q, name, i + 1);
    }
  }

  // ---------------------------------------------------------------------
  // conf_entry_set and conf_entry_get
  // ---------------------------------------------------------------------

  /** What conf_entry_set does to the tree and returns. */
  datatype Update =
    | Updated(tree: Ref, rc: int)
    | Undefined      // the lookup or the setter writes through a pointer the model does not follow

  /**
   * conf_entry_set: resolve the name, then run the entry's setter on the
   * value ("NULL" when the value is NULL); 0 when the setter returns
   * non-zero, -1 when it returns 0 or the name does not resolve.
   */
  function EntrySet(section: Ref, name: Option<string>, value: Option<string>): (r: Update)
    ensures EntryLookup(section, name) == Nowhere ==> r == Updated(section, -1)
    ensures EntryLookup(section, name) == Stray ==> r == Undefined
    ensures EntryLookup(section, name).Found? ==>
      var path := EntryLookup(section, name).path;
      var e := EntryAt(section, path);
      var text := CStr(if value.None? then NullString else value.value);
      match Set(e.kind, e.len, e.p, text)
      case Stored(q, ok) => r == Updated(Replace(section, path, q), if ok then 0 else -1)
      case Clobbered => r == Undefined
    ensures r.Updated? ==> r.rc == 0 || r.rc == -1
  {
    match EntryLookup(section, name)
    case Nowhere => Updated(section, -1)
    case Stray => Undefined
    case Found(path) =>
      var e := EntryAt(section, path);
      var text := CStr(if value.None? then NullString else value.value);
      match Set(e.kind, e.len, e.p, text)
      case Clobbered => Undefined
      case Stored(q, ok) => Updated(Replace(section, path, q), if ok then 0 else -1)
  }

  /** What conf_entry_get writes into the caller's buffer and returns. */
  datatype Reply =
    | Reply(rc: int, text: Option<string>)   // the return value and the buffer (None: untouched)
    | Unknown(why: Unspecified)              // what the getter writes is outside the model

  /**
   * conf_entry_get: -1 for a NULL buffer or a name that does not resolve;
   * otherwise 0, with the getter's text in the buffer, or "NULL" when the
   * getter returns 0.
   */
  function EntryGet(section: Ref, name: Option<string>, hasBuffer: bool): (r: Reply)
    ensures !hasBuffer ==> r == Reply(-1, None)
    ensures hasBuffer && EntryLookup(section, name) == Nowhere ==> r == Reply(-1, None)
    ensures hasBuffer && EntryLookup(section, name).Found? ==>
      var e := EntryAt(section, EntryLookup(section, name).path);
      match Get(e.kind, e.p)
      case Printed(t) => r == Reply(0, Some(t))
      case Failed(_) => r == Reply(0, Some(NullString))
      case Indeterminate(why) => r == Unknown(why)
    ensures r.Reply? && r.rc == 0 ==> r.text.Some?
  {
    if !hasBuffer then Reply(-1, None)
    else match EntryLookup(section, name)
      case Nowhere => Reply(-1, None)
      case Stray => Unknown(Reinterpreted)
      case Found(path) =>
          var e := EntryAt(section, path);
        match Get(e.kind, e.p)
        case Printed(t) => Reply(0, Some(t))
        case Failed(_) => Reply(0, Some(NullString))
        case Indeterminate(why) => Unknown(why)
  }

  /**
   * A found entry answers conf_entry_get with 0 and its getter's text, or
   * with 0 and "NULL" when the getter fails.
   */
  lemma GetFound(section: Ref, name: string)
    requires NoNul(name) && Lookup(section, name).Found?
    ensures var e := EntryAt(section, Lookup(section, name).path);
      match Get(e.kind, e.p)
      case Printed(t) => EntryGet(section, Some(name), true) == Reply(0, Some(t))
      case Failed(_) => EntryGet(section, Some(name), true) == Reply(0, Some(NullString))
      case Indeterminate(why) => EntryGet(section, Some(name), true) == Unknown(why)
  {
    NoNulCStr(name);
  }

  /**
   * conf_entry_set then conf_entry_get on the same name: when the entry's
   * setter reads the text as c and its getter prints c as that same text,
   * the set returns 0, the entry and only its pointer change, and the get
   * answers the text.
   */
  lemma SetThenGet(section: Ref, name: string, c: Cell, text: string)
    requires NoNul(name) && NoNul(text) && Lookup(section, name).Found?
    requires var e := EntryAt(section, Lookup(section, name).path);
      Set(e.kind, e.len, e.p, text) == Stored(Storage(c), true) && Get(e.kind, Storage(c)) == Printed(text)
    ensures var path := Lookup(section, name).path;
      var r := EntrySet(section, Some(name), Some(text));
      r == Updated(Replace(section, path, Storage(c)), 0)
      && ValidPath(r.tree, path) && EntryAt(r.tree, path) == EntryAt(section, path).(p := Storage(c))
      && EntryGet(r.tree, Some(name), true) == Reply(0, Some(text))
  {
    NoNulCStr(name);
    NoNulCStr(text);
    var path := Lookup(section, name).path;
    assert !IsSection(EntryAt(section, path));
    ReplaceAt(section, path, Storage(c));
    ReplaceKeepsLookup(section, path, Storage(c), name);
  }

  /**
   * Setting an integer, hex or bool entry that holds no wild pointer to the
   * canonical text of a value returns 0, stores the value, and a get of the
   * same name answers that text.
   */
  lemma SetThenGetCanonical(section: Ref, name: string, c: Cell)
    requires NoNul(name) && Lookup(section, name).Found?
    requires var e := EntryAt(section, Lookup(section, name).path);
      Plain(e.p) && Canonical(e.kind, c).Some?
    ensures var path := Lookup(section, name).path;
      var e := EntryAt(section, path);
      var text := Canonical(e.kind, c).value;
      var r := EntrySet(section, Some(name), Some(text));
      r.Updated? && r.rc == 0
      && ValidPath(r.tree, path) && EntryAt(r.tree, path) == e.(p := Storage(c))
      && EntryGet(r.tree, Some(name), true) == Reply(0, Some(text))
  {
    var e := EntryAt(section, Lookup(section, name).path);
    var text := Canonical(e.kind, c).value;
    CanonicalCharacters(e.kind, c);
    assert NoNul(text) by {
      forall m | 0 <= m < |text| ensures text[m] != '\0' {
        assert IsAlnum(text[m]) || text[m] == '-';
      }
    }
    CanonicalRoundTrip(e.kind, e.len, e.p, c);
    SetThenGet(section, name, c, text);
  }
}
