/**
 * The writer and the parser together: what write_section prints for a
 * section without subsections, handed to conf_parse as conf_load hands it
 * over (with a NUL appended), stores back the values it was printed from.
 *
 * This holds when the keys are names the parser accepts (a letter, then
 * letters, digits, '.', '-' and '_'), no two fields share a key, and each
 * value prints as text that stays on its line and that the entry's setter
 * reads back. Integer, hex and bool fields meet that last condition for
 * every value of their range, and string fields for every text with no
 * quote, newline or NUL that fits their length.
 */
module Reload {
  import opened Wrappers
  import opened ConfPrivate
  import opened ConfTypes
  import opened EncDec
  import opened Conf
  import Parse
  import Write

  /** The characters of the written lines, in order. */
  function Rendered(ls: seq<Write.Line>): (r: string)
    ensures ls == [] ==> r == []
    ensures ls != [] ==> r == Write.Render(ls[0]) + Rendered(ls[1..])
  {
    if ls == [] then [] else Write.Render(ls[0]) + Rendered(ls[1..])
  }

  /** A key conf_parse reads whole: a letter, then letters, digits, '.', '-' and '_'. */
  predicate IsKey(name: string) {
    |name| > 0 && IsAlpha(name[0]) && forall m :: 1 <= m < |name| ==> Parse.IsKeyChar(name[m])
  }

  /** A value text that stays on its line: not empty, no blank first, no newline or NUL. */
  predicate OneLine(t: string) {
    |t| > 0 && !Parse.IsBlank(t[0]) && forall m :: 0 <= m < |t| ==> t[m] != '\n' && t[m] != '\0'
  }

  /**
   * The getter of e prints a one-line text, and e's setter, given that
   * text, turns the pointer q into e's own pointer.
   */
  predicate ReloadsFrom(setter: Parse.Setter, e: Entry, q: Ref) {
    e.Var? && Get(e.kind, e.p).Printed? && OneLine(Get(e.kind, e.p).text)
    && setter(e.kind, e.len, q, Get(e.kind, e.p).text).Stored?
    && setter(e.kind, e.len, q, Get(e.kind, e.p).text).p == e.p
  }

  /**
   * An entry array whose first n entries are fields with distinct keys,
   * ended by the terminator: a section without subsections.
   */
  predicate FlatSection(entries: seq<Entry>, n: nat) {
    && n < |entries| && entries[n].Terminator?
    && (forall j :: 0 <= j < n ==> entries[j].Var? && entries[j].kind != SectionKind && IsKey(entries[j].name))
    && (forall j, j' :: 0 <= j < j' < n ==> entries[j].name != entries[j'].name)
  }

  /** target declares what entries declares; only the data pointers of the first n entries may differ. */
  predicate SameButValues(target: seq<Entry>, entries: seq<Entry>, n: nat) {
    && |target| == |entries| && n <= |entries|
    && (forall j :: 0 <= j < n ==> entries[j].Var? && Parse.Declares(entries[j], target[j]))
    && (forall j :: n <= j < |entries| ==> target[j] == entries[j])
  }

  // ---------------------------------------------------------------------
  // The scans over one written line
  // ---------------------------------------------------------------------

  /** A key has no NUL, so it is its own C string. */
  lemma KeyIsCString(name: string)
    requires IsKey(name)
    ensures NoNul(name) && CStr(name) == name
  {
    assert NoNul(name) by {
      forall m | 0 <= m < |name| ensures name[m] != '\0' {
        assert m == 0 || Parse.IsKeyChar(name[m]);
      }
    }
    NoNulCStr(name);
  }

  /** strtokcmp on two keys: equal or different, never a prefix, since a key holds no '/'. */
  lemma KeysCompare(h: string, n: string)
    requires IsKey(h) && IsKey(n)
    ensures TokCmpFrom(h, n, '/', true, 0) == if h == n then Equal else Differ
  {
    KeyIsCString(h);
    KeyIsCString(n);
    StrTokCmpMeaning(h, n, '/', true);
    if |n| < |h| {
      assert |n| == 0 || Parse.IsKeyChar(h[|n|]);
    }
  }

  /** The blanks skipped from i end at the first non-blank. */
  lemma {:induction false} SkipBlanksTo(buf: string, i: nat, j: nat)
    requires Parse.Terminated(buf) && i <= j < |buf| && !Parse.IsBlank(buf[j])
    requires forall k :: i <= k < j ==> Parse.IsBlank(buf[k])
    ensures Parse.SkipBlanks(buf, i) == j
    decreases j - i
  {
    if i < j {
      SkipBlanksTo(buf, i + 1, j);
    }
  }

  /** A key that continues at i ends at the first character that is not a key character. */
  lemma {:induction false} NameEndTo(buf: string, i: nat, j: nat)
    requires Parse.Terminated(buf) && i <= j < |buf| && !Parse.IsKeyChar(buf[j])
    requires forall k :: i <= k < j ==> Parse.IsKeyChar(buf[k])
    ensures Parse.NameEnd(buf, i, false) == j
    decreases j - i
  {
    if i < j {
      NameEndTo(buf, i + 1, j);
    }
  }

  /** A line from i ends at the first newline or NUL. */
  lemma {:induction false} LineEndTo(buf: string, i: nat, j: nat)
    requires Parse.Terminated(buf) && i <= j < |buf| && (buf[j] == '\n' || buf[j] == '\0')
    requires forall k :: i <= k < j ==> buf[k] != '\n' && buf[k] != '\0'
    ensures Parse.LineEnd(buf, i) == j
    decreases j - i
  {
    if i < j {
      LineEndTo(buf, i + 1, j);
    }
  }

  /**
   * The value part of a written line "key = t\n" whose t starts at v:
   * conf_parse hands the setter exactly t, and the line ends at its newline.
   */
  lemma ValueOfLine(buf: string, v: nat, t: string)
    requires Parse.Terminated(buf) && OneLine(t) && v + |t| < |buf|
    requires buf[v..v + |t|] == t && buf[v + |t|] == '\n'
    ensures v + 1 < |buf| && Parse.LineEnd(buf, v + 1) == v + |t| && Parse.Value(buf, v) == t
  {
    forall k | v + 1 <= k < v + |t| ensures buf[k] != '\n' && buf[k] != '\0' {
      assert buf[k] == t[k - v];
    }
    LineEndTo(buf, v + 1, v + |t|);
    assert buf[v] == t[0];
    Parse.ValueSlice(buf, v);
  }

  /** The buffer holds the text l from cp on. */
  predicate HoldsAt(buf: string, cp: nat, l: string) {
    cp + |l| <= |buf| && buf[cp..cp + |l|] == l
  }

  /** A buffer that holds a + b from cp on holds a there, then b. */
  lemma HoldsSplit(buf: string, cp: nat, a: string, b: string)
    requires cp <= |buf| && buf[cp..] == a + b
    ensures HoldsAt(buf, cp, a) && buf[cp + |a|..] == b
  {
    assert buf[cp..][..|a|] == a;
    assert buf[cp..][|a|..] == b;
  }

  /** The part of l from a to b lies from cp + a to cp + b in a buffer that holds l at cp. */
  lemma HeldSlice(buf: string, cp: nat, l: string, a: nat, b: nat)
    requires HoldsAt(buf, cp, l) && a <= b <= |l|
    ensures buf[cp + a..cp + b] == l[a..b]
  {
    forall m | 0 <= m < b - a ensures buf[cp + a..cp + b][m] == l[a..b][m] {
      assert buf[cp + a + m] == buf[cp..cp + |l|][a + m];
    }
  }

  /** Where the parts of a written line "key = t\n" lie in a buffer that holds it at cp. */
  lemma WrittenLineAt(buf: string, cp: nat, e: nat, key: string, t: string)
    requires HoldsAt(buf, cp, Write.Render(Write.Assignment(key, Write.Known(t)))) && e == cp + |key|
    ensures e + 3 + |t| < |buf|
    ensures buf[cp..e] == key
    ensures buf[e] == ' ' && buf[e + 1] == '=' && buf[e + 2] == ' '
    ensures buf[e + 3..e + 3 + |t|] == t && buf[e + 3 + |t|] == '\n'
  {
    var l := key + " = " + t + "\n";
    assert Write.Render(Write.Assignment(key, Write.Known(t))) == l;
    assert buf[cp..cp + |l|] == l;
    HeldSlice(buf, cp, l, 0, |key|);
    HeldSlice(buf, cp, l, |key| + 3, |key| + 3 + |t|);
    assert l[..|key|] == key;
    assert l[|key| + 3..|key| + 3 + |t|] == t;
    assert buf[e] == l[|key|] && buf[e + 1] == l[|key| + 1] && buf[e + 2] == l[|key| + 2];
    assert buf[e + 3 + |t|] == l[|key| + 3 + |t|];
  }

  /**
   * What conf_parse's scans find on an assignment line at cp: the key from
   * cp to e, then a blank, the '=' and a blank, then the value t up to the
   * line's end.
   */
  predicate Scanned(buf: string, cp: nat, e: nat, key: string, t: string) {
    && Parse.Terminated(buf) && cp < e && e + 3 + |t| < |buf| && |t| > 0
    && Parse.SkipBlanks(buf, cp) == cp && IsAlpha(buf[cp])
    && Parse.NameEnd(buf, cp + 1, false) == e && Parse.SkipBlanks(buf, e) == e + 1 && buf[e + 1] == '='
    && buf[cp..e] == key
    && Parse.SkipBlanks(buf, e + 1 + 1) == e + 3 && Parse.LineEnd(buf, e + 3 + 1) == e + 3 + |t| && Parse.Value(buf, e + 3) == t
  }

  // conf_parse's loop on an assignment line of the root section, one call
  // level at a time: Line, Content, Assignment, Keyed, Assign. The scans of
  // the line are given: the key from cp to e, the '=' after one blank, and
  // the value t from v to the line's end.

  /** A line whose first character is a letter is an assignment. */
  lemma LineIsAssignment(setter: Parse.Setter, buf: string, cp: nat, tree: Ref)
    requires Parse.Terminated(buf) && cp < |buf| && Parse.SkipBlanks(buf, cp) == cp && IsAlpha(buf[cp])
    ensures Parse.Line(setter, buf, cp, tree, Parse.InSection([])) == Parse.Assignment(setter, buf, cp, tree, [])
  {
    assert Parse.Line(setter, buf, cp, tree, Parse.InSection([])) == Parse.Content(setter, buf, cp, tree, Parse.InSection([]));
  }

  /** A key from cp to e, a blank and the '=': the key is looked up in the root. */
  lemma AssignmentIsKeyed(setter: Parse.Setter, buf: string, cp: nat, e: nat, key: string, tree: Ref, i: nat)
    requires Parse.Terminated(buf) && cp < e && e + 1 < |buf| && IsAlpha(buf[cp]) && ValidPath(tree, [i])
    requires Parse.NameEnd(buf, cp + 1, false) == e && Parse.SkipBlanks(buf, e) == e + 1 && buf[e + 1] == '='
    requires buf[cp..e] == key && Lookup(tree, key) == Found([i])
    ensures Parse.Assignment(setter, buf, cp, tree, []) == Parse.Keyed(setter, buf, e + 1, tree, [], Found([i]))
  {
  }

  /** A key resolved to the root's entry i: its value starts after the blanks that follow the '='. */
  lemma KeyedIsAssign(setter: Parse.Setter, buf: string, k: nat, v: nat, tree: Ref, i: nat)
    requires Parse.Terminated(buf) && k < |buf| && buf[k] == '=' && ValidPath(tree, [i])
    requires Parse.SkipBlanks(buf, k + 1) == v
    ensures Parse.Keyed(setter, buf, k, tree, [], Found([i])) == Parse.Assign(setter, buf, v, tree, [], [i])
  {
  }

  /** The value t goes to entry i's setter, whose result is stored, and the loop goes on after the line. */
  lemma AssignStores(setter: Parse.Setter, buf: string, v: nat, t: string, tree: Ref, i: nat, q: Ref, ok: bool)
    requires Parse.Terminated(buf) && v + |t| < |buf| && |t| > 0 && ValidPath(tree, [i])
    requires Parse.LineEnd(buf, v + 1) == v + |t| && Parse.Value(buf, v) == t
    requires var n := EntryAt(tree, [i]); setter(n.kind, n.len, n.p, t) == Stored(q, ok)
    ensures Parse.Assign(setter, buf, v, tree, [], [i]) == Parse.Next(v + |t| + 1, Replace(tree, [i], q), Parse.InSection([]))
  {
    assert [] + [i] == [i];
  }

  lemma KeyedStores(setter: Parse.Setter, buf: string, k: nat, v: nat, t: string, tree: Ref, i: nat, q: Ref, ok: bool)
    requires Parse.Terminated(buf) && k < |buf| && buf[k] == '=' && v + |t| < |buf| && |t| > 0 && ValidPath(tree, [i])
    requires Parse.SkipBlanks(buf, k + 1) == v && Parse.LineEnd(buf, v + 1) == v + |t| && Parse.Value(buf, v) == t
    requires var n := EntryAt(tree, [i]); setter(n.kind, n.len, n.p, t) == Stored(q, ok)
    ensures Parse.Keyed(setter, buf, k, tree, [], Found([i])) == Parse.Next(v + |t| + 1, Replace(tree, [i], q), Parse.InSection([]))
  {
    KeyedIsAssign(setter, buf, k, v, tree, i);
    AssignStores(setter, buf, v, t, tree, i, q, ok);
  }

  /** A line "key =" of the root section whose key resolves to entry i goes on to the value. */
  lemma LineIsKeyed(setter: Parse.Setter, buf: string, cp: nat, e: nat, key: string, tree: Ref, i: nat)
    requires Parse.Terminated(buf) && cp < e && e + 1 < |buf| && ValidPath(tree, [i])
    requires Parse.SkipBlanks(buf, cp) == cp && IsAlpha(buf[cp])
    requires Parse.NameEnd(buf, cp + 1, false) == e && Parse.SkipBlanks(buf, e) == e + 1 && buf[e + 1] == '='
    requires buf[cp..e] == key && Lookup(tree, key) == Found([i])
    ensures Parse.Line(setter, buf, cp, tree, Parse.InSection([])) == Parse.Keyed(setter, buf, e + 1, tree, [], Found([i]))
  {
    LineIsAssignment(setter, buf, cp, tree);
    AssignmentIsKeyed(setter, buf, cp, e, key, tree, i);
  }

  /**
   * conf_parse's loop on an assignment line "key = t" of the root section,
   * once its scans are known, with the key resolved to entry i whose
   * setter stores q from t.
   */
  lemma LineStores(setter: Parse.Setter, buf: string, cp: nat, e: nat, key: string, t: string, tree: Ref, i: nat, q: Ref, ok: bool)
    requires Scanned(buf, cp, e, key, t) && ValidPath(tree, [i]) && Lookup(tree, key) == Found([i])
    requires var n := EntryAt(tree, [i]); setter(n.kind, n.len, n.p, t) == Stored(q, ok)
    ensures Parse.Line(setter, buf, cp, tree, Parse.InSection([])) == Parse.Next(e + 3 + |t| + 1, Replace(tree, [i], q), Parse.InSection([]))
  {
    KeyedStores(setter, buf, e + 1, e + 3, t, tree, i, q, ok);
    LineIsKeyed(setter, buf, cp, e, key, tree, i);
  }

  /**
   * The scans conf_parse makes over a written line "key = t\n" held at
   * cp: the key ends before the blank, the '=' follows, and the value
   * is exactly t, up to the newline.
   */
  lemma WrittenLineScans(buf: string, cp: nat, e: nat, key: string, t: string)
    requires HoldsAt(buf, cp, Write.Render(Write.Assignment(key, Write.Known(t)))) && e == cp + |key|
    requires Parse.Terminated(buf) && IsKey(key) && OneLine(t)
    ensures Scanned(buf, cp, e, key, t)
  {
    var v := e + 3;
    WrittenLineAt(buf, cp, e, key, t);
    assert buf[cp] == key[0];
    assert buf[v] == t[0];
    SkipBlanksTo(buf, cp, cp);
    forall k | cp + 1 <= k < e ensures Parse.IsKeyChar(buf[k]) {
      assert buf[k] == key[k - cp];
    }
    NameEndTo(buf, cp + 1, e);
    SkipBlanksTo(buf, e, e + 1);
    SkipBlanksTo(buf, e + 1 + 1, v);
    ValueOfLine(buf, v, t);
  }

  /**
   * One written assignment line "key = t\n", in the root section: when the
   * key resolves to the root's entry i and that entry's setter stores q
   * from t, conf_parse's loop stores q there and goes on after the newline.
   */
  lemma LineReloads(setter: Parse.Setter, buf: string, cp: nat, e: nat, key: string, t: string, tree: Ref, i: nat, q: Ref)
    requires HoldsAt(buf, cp, Write.Render(Write.Assignment(key, Write.Known(t)))) && e == cp + |key|
    requires Parse.Terminated(buf) && IsKey(key) && OneLine(t) && Lookup(tree, key) == Found([i])
    requires var n := EntryAt(tree, [i]);
      setter(n.kind, n.len, n.p, t).Stored? && setter(n.kind, n.len, n.p, t).p == q
    ensures Parse.Line(setter, buf, cp, tree, Parse.InSection([]))
      == Parse.Next(e + 4 + |t|, Replace(tree, [i], q), Parse.InSection([]))
  {
    var n := EntryAt(tree, [i]);
    var ok := setter(n.kind, n.len, n.p, t).ok;
    WrittenLineScans(buf, cp, e, key, t);
    LineStores(setter, buf, cp, e, key, t, tree, i, q, ok);
  }

  // ---------------------------------------------------------------------
  // A whole section
  // ---------------------------------------------------------------------

  /**
   * The first pass over a flat section prints one assignment line per
   * field, and queues no section.
   */
  lemma {:induction false} WalkFlat(entries: seq<Entry>, k: nat, n: nat)
    requires FlatSection(entries, n) && k <= n
    requires forall j :: k <= j < n ==> Get(entries[j].kind, entries[j].p).Printed?
    ensures Write.Walk(entries, k).Listed?
    ensures Write.Walk(entries, k).sections == [] && |Write.Walk(entries, k).lines| == n - k
    ensures k < n ==>
      Write.Walk(entries, k).lines
        == [Write.Assignment(entries[k].name, Write.Known(Get(entries[k].kind, entries[k].p).text))]
           + Write.Walk(entries, k + 1).lines
    decreases n - k
  {
    if k == n {
      assert Write.Walk(entries, k) == Write.Listed([], []);
    } else {
      WalkFlat(entries, k + 1, n);
      var e := entries[k];
      KeyIsCString(e.name);
      var l := Write.Assignment(e.name, Write.Known(Get(e.kind, e.p).text));
      assert Write.FieldLine(e) == Some(l);
      var rest := Write.Walk(entries, k + 1);
      assert Write.Walk(entries, k) == Write.Prefix([l], [], rest);
      assert Write.Walk(entries, k) == Write.Listed([l] + rest.lines, [] + rest.sections);
    }
  }

  /**
   * Halfway through a flat section, the tree holds the reloaded values of
   * fields 0 to k - 1 and the target's of the rest: field k's key finds
   * entry k, whose setter, given the printed text, stores the value back.
   */
  lemma FieldFound(entries: seq<Entry>, target: seq<Entry>, k: nat, n: nat)
    requires FlatSection(entries, n) && SameButValues(target, entries, n) && k < n
    ensures var tree := Children(entries[..k] + target[k..]);
      && Lookup(tree, entries[k].name) == Found([k])
      && EntryAt(tree, [k]) == target[k]
  {
    var tree := Children(entries[..k] + target[k..]);
    var e := entries[k];
    forall j | 0 <= j < k ensures tree.entries[j].Var? && TokCmpFrom(e.name, tree.entries[j].name, '/', true, 0) == Differ {
      assert tree.entries[j] == entries[j];
      KeysCompare(e.name, entries[j].name);
    }
    assert tree.entries[k] == target[k];
    KeysCompare(e.name, e.name);
    LookupComplete(tree.entries, e.name, k);
  }

  /** Storing field k's own pointer moves the tree on by one field. */
  lemma FieldRestored(entries: seq<Entry>, target: seq<Entry>, k: nat, n: nat)
    requires FlatSection(entries, n) && SameButValues(target, entries, n) && k < n
    ensures var tree := Children(entries[..k] + target[k..]);
      ValidPath(tree, [k]) && Replace(tree, [k], entries[k].p) == Children(entries[..k + 1] + target[k + 1..])
  {
    var tree := Children(entries[..k] + target[k..]);
    assert tree.entries[k] == target[k];
    assert target[k].(p := entries[k].p) == entries[k];
    assert tree.entries[k := entries[k]] == entries[..k + 1] + target[k + 1..];
  }

  /** A line that moves the loop on leaves the rest of the run to the next line. */
  lemma RunStep(setter: Parse.Setter, buf: string, cp: nat, tree: Ref, cp': nat, tree': Ref)
    requires Parse.Terminated(buf) && cp < |buf|
    requires Parse.Line(setter, buf, cp, tree, Parse.InSection([])) == Parse.Next(cp', tree', Parse.InSection([]))
    ensures cp' <= |buf|
    ensures Parse.Run(setter, buf, cp, tree, Parse.InSection([])) == Parse.Run(setter, buf, cp', tree', Parse.InSection([]))
  {
  }

  /** Fields that reload print their values. */
  lemma ReloadsPrinted(setter: Parse.Setter, entries: seq<Entry>, target: seq<Entry>, k: nat, n: nat)
    requires FlatSection(entries, n) && SameButValues(target, entries, n)
    requires forall j :: 0 <= j < n ==> ReloadsFrom(setter, entries[j], target[j].p)
    ensures forall j :: k <= j < n ==> Get(entries[j].kind, entries[j].p).Printed?
  {
    forall j | k <= j < n ensures Get(entries[j].kind, entries[j].p).Printed? {
      assert ReloadsFrom(setter, entries[j], target[j].p);
    }
  }

  /** At the closing NUL the loop stops and conf_parse returns 0. */
  lemma RunAtEnd(setter: Parse.Setter, buf: string, cp: nat, tree: Ref)
    requires Parse.Terminated(buf) && cp < |buf| && buf[cp] == '\0'
    ensures Parse.Run(setter, buf, cp, tree, Parse.InSection([])) == Parse.Parsed(0, tree)
  {
    SkipBlanksTo(buf, cp, cp);
    assert Parse.Line(setter, buf, cp, tree, Parse.InSection([])) == Parse.Stop(Parse.Parsed(0, tree));
  }

  /** A buffer holding lines and the NUL from cp holds the first line there, then the rest. */
  lemma FirstLine(buf: string, cp: nat, ls: seq<Write.Line>)
    requires cp <= |buf| && ls != [] && buf[cp..] == Rendered(ls) + "\0"
    ensures HoldsAt(buf, cp, Write.Render(ls[0]))
    ensures buf[cp + |Write.Render(ls[0])|..] == Rendered(ls[1..]) + "\0"
  {
    assert Rendered(ls) + "\0" == Write.Render(ls[0]) + (Rendered(ls[1..]) + "\0");
    HoldsSplit(buf, cp, Write.Render(ls[0]), Rendered(ls[1..]) + "\0");
  }

  /**
   * The text left at cp for fields k to n - 1 starts with field k's line
   * "key = t\n", where t is what field k's getter prints.
   */
  lemma FieldLineFirst(buf: string, cp: nat, entries: seq<Entry>, k: nat, n: nat)
    requires FlatSection(entries, n) && k < n
    requires forall j :: k <= j < n ==> Get(entries[j].kind, entries[j].p).Printed?
    requires cp <= |buf| && Write.Walk(entries, k).Listed? && buf[cp..] == Rendered(Write.Walk(entries, k).lines) + "\0"
    ensures var e := entries[k]; var l := Write.Assignment(e.name, Write.Known(Get(e.kind, e.p).text));
      && HoldsAt(buf, cp, Write.Render(l))
      && Write.Walk(entries, k + 1).Listed?
      && buf[cp + |Write.Render(l)|..] == Rendered(Write.Walk(entries, k + 1).lines) + "\0"
  {
    WalkFlat(entries, k, n);
    var ls := Write.Walk(entries, k).lines;
    assert ls[1..] == Write.Walk(entries, k + 1).lines;
    FirstLine(buf, cp, ls);
  }

  /** The line of field k, held at cp, stores field k's value into the tree of the fields before it. */
  lemma FieldLineStores(setter: Parse.Setter, buf: string, cp: nat, entries: seq<Entry>, target: seq<Entry>, k: nat, n: nat) returns (cp': nat)
    requires FlatSection(entries, n) && SameButValues(target, entries, n) && k < n
    requires ReloadsFrom(setter, entries[k], target[k].p) && Parse.Terminated(buf)
    requires var e := entries[k];
      HoldsAt(buf, cp, Write.Render(Write.Assignment(e.name, Write.Known(Get(e.kind, e.p).text))))
    ensures var e := entries[k];
      cp' == cp + |Write.Render(Write.Assignment(e.name, Write.Known(Get(e.kind, e.p).text)))|
    ensures cp' <= |buf|
    ensures Parse.Run(setter, buf, cp, Children(entries[..k] + target[k..]), Parse.InSection([]))
      == Parse.Run(setter, buf, cp', Children(entries[..k + 1] + target[k + 1..]), Parse.InSection([]))
  {
    var e := entries[k];
    var t := Get(e.kind, e.p).text;
    FieldFound(entries, target, k, n);
    FieldRestored(entries, target, k, n);
    var end := cp + |e.name|;
    cp' := end + 4 + |t|;
    LineReloads(setter, buf, cp, end, e.name, t, Children(entries[..k] + target[k..]), k, e.p);
    RunStep(setter, buf, cp, Children(entries[..k] + target[k..]), cp', Children(entries[..k + 1] + target[k + 1..]));
  }

  /**
   * The line of field k, the first of the text left at cp, stores field k's
   * value and leaves the lines of the later fields.
   */
  lemma RunNext(setter: Parse.Setter, buf: string, cp: nat, entries: seq<Entry>, target: seq<Entry>, k: nat, n: nat) returns (cp': nat)
    requires FlatSection(entries, n) && SameButValues(target, entries, n) && k < n
    requires ReloadsFrom(setter, entries[k], target[k].p)
    requires forall j :: k <= j < n ==> Get(entries[j].kind, entries[j].p).Printed?
    requires Parse.Terminated(buf) && cp <= |buf|
    requires Write.Walk(entries, k).Listed? && buf[cp..] == Rendered(Write.Walk(entries, k).lines) + "\0"
    ensures cp' <= |buf| && Write.Walk(entries, k + 1).Listed?
    ensures buf[cp'..] == Rendered(Write.Walk(entries, k + 1).lines) + "\0"
    ensures Parse.Run(setter, buf, cp, Children(entries[..k] + target[k..]), Parse.InSection([]))
      == Parse.Run(setter, buf, cp', Children(entries[..k + 1] + target[k + 1..]), Parse.InSection([]))
  {
    FieldLineFirst(buf, cp, entries, k, n);
    cp' := FieldLineStores(setter, buf, cp, entries, target, k, n);
  }

  /**
   * conf_parse from the line of field k on: the fields before k already
   * hold their values, and each line from there stores the next one.
   */
  lemma {:induction false} RunReloads(setter: Parse.Setter, buf: string, cp: nat, entries: seq<Entry>, target: seq<Entry>, k: nat, n: nat)
    requires FlatSection(entries, n) && SameButValues(target, entries, n) && k <= n
    requires forall j :: 0 <= j < n ==> ReloadsFrom(setter, entries[j], target[j].p)
    requires Parse.Terminated(buf) && cp <= |buf|
    requires Write.Walk(entries, k).Listed? && buf[cp..] == Rendered(Write.Walk(entries, k).lines) + "\0"
    ensures Parse.Run(setter, buf, cp, Children(entries[..k] + target[k..]), Parse.InSection([]))
      == Parse.Parsed(0, Children(entries))
    decreases n - k
  {
    if k == n {
      WalkFlat(entries, k, n);
      assert buf[cp..][0] == '\0';
      assert entries[..k] + target[k..] == entries;
      RunAtEnd(setter, buf, cp, Children(entries));
    } else {
      ReloadsPrinted(setter, entries, target, k, n);
      assert ReloadsFrom(setter, entries[k], target[k].p);
      var cp' := RunNext(setter, buf, cp, entries, target, k, n);
      RunReloads(setter, buf, cp', entries, target, k + 1, n);
    }
  }

  /** write_section on a flat section prints its field lines and nothing else, and returns their number. */
  lemma WrittenFlat(entries: seq<Entry>, n: nat)
    requires FlatSection(entries, n)
    requires forall j :: 0 <= j < n ==> Get(entries[j].kind, entries[j].p).Printed?
    ensures Write.Walk(entries, 0).Listed?
    ensures Write.Written(Children(entries), []) == Write.Wrote(Write.Walk(entries, 0).lines, n)
  {
    WalkFlat(entries, 0, n);
    var ls := Write.Walk(entries, 0).lines;
    assert Write.Nested(entries, [], []) == Write.Wrote([], 0);
    assert ls + [] == ls;
  }

  /**
   * The round trip of conf_save and conf_load on a section without
   * subsections: write_section prints one line per field and returns
   * their number, and conf_parse on that text, into an array that differs
   * only in the fields' values, restores every value and returns 0.
   */
  lemma FlatSectionReloads(entries: seq<Entry>, target: seq<Entry>, n: nat)
    requires FlatSection(entries, n) && SameButValues(target, entries, n)
    requires forall j :: 0 <= j < n ==> ReloadsFrom(Set, entries[j], target[j].p)
    ensures var w := Write.Written(Children(entries), []);
      w.Wrote? && w.count == n
      && Parse.ParseText(Rendered(w.lines) + "\0", Children(target)) == Parse.Parsed(0, Children(entries))
  {
    ReloadsPrinted(Set, entries, target, 0, n);
    WrittenFlat(entries, n);
    var buf := Rendered(Write.Walk(entries, 0).lines) + "\0";
    assert buf[0..] == buf && Parse.Terminated(buf);
    assert entries[..0] + target[0..] == target;
    RunReloads(Set, buf, 0, entries, target, 0, n);
  }

  // ---------------------------------------------------------------------
  // Which fields reload
  // ---------------------------------------------------------------------

  /** The canonical text of a number or flag stays on its line. */
  lemma CanonicalOneLine(k: Kind, c: Cell)
    requires Canonical(k, c).Some?
    ensures OneLine(Canonical(k, c).value)
  {
    var t := Canonical(k, c).value;
    CanonicalCharacters(k, c);
    forall m | 0 <= m < |t| ensures t[m] != '\n' && t[m] != '\0' {
      assert IsAlnum(t[m]) || t[m] == '-';
    }
    assert IsAlnum(t[0]) || t[0] == '-';
  }

  /** An integer, hex or bool field reloads its value from any pointer that is NULL or storage. */
  lemma CanonicalReloads(e: Entry, c: Cell, q: Ref)
    requires e.Var? && e.p == Storage(c) && Canonical(e.kind, c).Some? && Plain(q)
    ensures ReloadsFrom(Set, e, q)
  {
    CanonicalRoundTrip(e.kind, e.len, q, c);
    CanonicalOneLine(e.kind, c);
  }

  /** A text without newline or NUL stays on its line once quoted. */
  lemma QuotedOneLine(s: string)
    requires forall m :: 0 <= m < |s| ==> s[m] != '\n' && s[m] != '\0'
    ensures OneLine("\"" + s + "\"")
  {
    var t := "\"" + s + "\"";
    forall m | 0 <= m < |t| ensures t[m] != '\n' && t[m] != '\0' {
      if 0 < m < |t| - 1 {
        assert t[m] == s[m - 1];
      }
    }
  }

  /**
   * A string field reloads its text when the text has no quote, newline
   * or NUL and fits the field's length, into the field's own block or into
   * a fresh block of the same size.
   */
  lemma StringReloads(e: Entry, s: string, size: nat, q: Ref)
    requires e.Var? && e.kind == StringKind && e.p == Storage(Str(s, size)) && |s| < size
    requires (q.Null? && size == |s| + 1) || (q.Storage? && q.cell.Str? && q.cell.size == size)
    requires '"' !in s && (e.len == 0 || |s| <= e.len)
    requires forall m :: 0 <= m < |s| ==> s[m] != '\n' && s[m] != '\0'
    ensures ReloadsFrom(Set, e, q)
  {
    StringRoundTrip(s, size, e.len, q);
    QuotedOneLine(s);
  }
}
