/**
 * conf_parse and conf_load: the line-oriented reader of the configuration
 * text. The buffer is the file's bytes followed by the NUL conf_load
 * appends; the parser reads it through a cursor, one character at a time,
 * and a read at or past the end of the buffer is a read beyond the
 * allocation.
 *
 * What one pass over a line does is specified by the function Line, and a
 * whole run by Run; the methods below walk the buffer as the C code does
 * and are proved to compute exactly that.
 */
module Parse {
  import opened Wrappers
  import opened ConfPrivate
  import opened ConfTypes
  import opened EncDec
  import opened Conf
  import CNum

  // ---------------------------------------------------------------------
  // The buffer and the scans over it
  // ---------------------------------------------------------------------

  /** A buffer as conf_load hands it over: ending in the NUL it appends. */
  predicate Terminated(buf: string) {
    |buf| > 0 && buf[|buf| - 1] == '\0'
  }

  /** The blanks the parser skips: space and tab only. */
  predicate IsBlank(c: char) {
    c == ' ' || c == '\t'
  }

  /** The characters after the first of a section name: letters, digits, '_' and '/'. */
  predicate IsSectionChar(c: char) {
    IsAlnum(c) || c == '_' || c == '/'
  }

  /** The characters after the first of a key: letters, digits, '.', '-' and '_'. */
  predicate IsKeyChar(c: char) {
    IsAlnum(c) || c == '.' || c == '-' || c == '_'
  }

  /** A character other than the NUL is never the buffer's last. */
  lemma NotLast(buf: string, i: nat)
    requires Terminated(buf) && i < |buf| && buf[i] != '\0'
    ensures i + 1 < |buf|
  {
  }

  /** The first character at or after i that is not a blank. */
  function SkipBlanks(buf: string, i: nat): (j: nat)
    requires Terminated(buf) && i < |buf|
    ensures i <= j < |buf| && !IsBlank(buf[j])
    decreases |buf| - i
  {
    if IsBlank(buf[i]) then SkipBlanks(buf, i + 1) else i
  }

  /** The first newline or NUL at or after i: where a discarded line ends. */
  function LineEnd(buf: string, i: nat): (j: nat)
    requires Terminated(buf) && i < |buf|
    ensures i <= j < |buf| && (buf[j] == '\n' || buf[j] == '\0')
    decreases |buf| - i
  {
    if buf[i] == '\n' || buf[i] == '\0' then i else LineEnd(buf, i + 1)
  }

  /** The end of a section name (header) or a key that continues at i. */
  function NameEnd(buf: string, i: nat, header: bool): (j: nat)
    requires Terminated(buf) && i < |buf|
    ensures i <= j < |buf|
    ensures header ==> !IsSectionChar(buf[j])
    ensures !header ==> !IsKeyChar(buf[j])
    decreases |buf| - i
  {
    if (if header then IsSectionChar(buf[i]) else IsKeyChar(buf[i])) then NameEnd(buf, i + 1, header) else i
  }

  /**
   * The scans stop on the first character that ends them: everything they
   * pass over is a blank, a character of the line, or a name character.
   * (Kept apart from the functions, whose every use would otherwise carry
   * a quantifier over the whole buffer.)
   */
  lemma {:induction false} SkipBlanksSpan(buf: string, i: nat)
    requires Terminated(buf) && i < |buf|
    ensures forall k :: i <= k < SkipBlanks(buf, i) ==> IsBlank(buf[k])
    decreases |buf| - i
  {
    if IsBlank(buf[i]) {
      SkipBlanksSpan(buf, i + 1);
    }
  }

  lemma {:induction false} LineEndSpan(buf: string, i: nat)
    requires Terminated(buf) && i < |buf|
    ensures forall k :: i <= k < LineEnd(buf, i) ==> buf[k] != '\n' && buf[k] != '\0'
    decreases |buf| - i
  {
    if buf[i] != '\n' && buf[i] != '\0' {
      LineEndSpan(buf, i + 1);
    }
  }

  lemma {:induction false} NameEndSpan(buf: string, i: nat, header: bool)
    requires Terminated(buf) && i < |buf|
    ensures header ==> forall k :: i <= k < NameEnd(buf, i, header) ==> IsSectionChar(buf[k])
    ensures !header ==> forall k :: i <= k < NameEnd(buf, i, header) ==> IsKeyChar(buf[k])
    decreases |buf| - i
  {
    if (if header then IsSectionChar(buf[i]) else IsKeyChar(buf[i])) {
      NameEndSpan(buf, i + 1, header);
    }
  }

  // ---------------------------------------------------------------------
  // The specification of a run
  // ---------------------------------------------------------------------

  /** The section keys are looked up in: an entry path from the root, or skip mode. */
  datatype Current = InSection(path: seq<nat>) | Skipping

  /** A current section the parser can be in: the root or a path to an entry. */
  predicate CurrentOk(tree: Ref, cur: Current) {
    cur.Skipping? || cur.path == [] || ValidPath(tree, cur.path)
  }

  /** How a run ends. */
  datatype Parsed =
    | Parsed(rc: int, tree: Ref)  // conf_parse returns rc, leaving the tree so
    | Overran                     // a read past the buffer's NUL
    | Strayed                     // a lookup or a setter goes through a pointer the model does not follow

  /**
   * The setter of an entry's type, called with the entry's type, its
   * length, its data pointer and the value's text: the function pointer
   * t_set of the entry's type. conf_parse runs with the table of setters
   * Set; the properties of a run below hold for any setter.
   */
  type Setter = (Kind, nat, Ref, string) -> SetResult

  /** Where a line leaves the parser. */
  datatype Step =
    | Next(cp: nat, tree: Ref, cur: Current)
    | Stop(result: Parsed)

  /** An entry that keeps e's declaration: its name, type and length. */
  predicate Declares(e: Entry, f: Entry) {
    if e.Var? then f.Var? && f.name == e.name && f.kind == e.kind && f.len == e.len else f == e
  }

  /**
   * b declares what a declares, entry by entry: the entries of a tree
   * whose data pointers were replaced.
   */
  predicate SameDeclarations(a: Ref, b: Ref) {
    if a.Children? then
      b.Children? && |b.entries| == |a.entries|
      && forall i :: 0 <= i < |a.entries| ==> Declares(a.entries[i], b.entries[i])
    else b == a
  }

  /** Storing into an entry keeps every declaration of the root's array. */
  lemma ReplaceDeclares(tree: Ref, path: seq<nat>, q: Ref)
    requires ValidPath(tree, path)
    ensures SameDeclarations(tree, Replace(tree, path, q))
  {
    var r := Replace(tree, path, q);
    forall i | 0 <= i < |tree.entries|
      ensures Declares(tree.entries[i], r.entries[i])
    {
    }
  }

  lemma SameDeclarationsRefl(a: Ref)
    ensures SameDeclarations(a, a)
  {
  }

  lemma SameDeclarationsTrans(a: Ref, b: Ref, c: Ref)
    requires SameDeclarations(a, b) && SameDeclarations(b, c)
    ensures SameDeclarations(a, c)
  {
    if a.Children? {
      forall i | 0 <= i < |a.entries|
        ensures Declares(a.entries[i], c.entries[i])
      {
        assert Declares(a.entries[i], b.entries[i]) && Declares(b.entries[i], c.entries[i]);
      }
    }
  }

  /**
   * The end of a step from cp in tree: the cursor moved forward, the
   * section is still one the parser can be in and only data pointers
   * changed; a step that ends the run returns 0 or -1 and leaves the tree
   * as the line found it.
   */
  predicate StepOk(buf: string, cp: nat, tree: Ref, s: Step) {
    && (s.Next? ==> cp < s.cp <= |buf| && CurrentOk(s.tree, s.cur) && SameDeclarations(tree, s.tree))
    && (s.Stop? && s.result.Parsed? ==> (s.result.rc == 0 || s.result.rc == -1) && s.result.tree == tree)
  }

  /**
   * Discard the rest of a line from i: go on after its newline, or end the
   * run with 0 at a NUL.
   */
  function Discard(buf: string, i: nat, tree: Ref, cur: Current): (s: Step)
    requires Terminated(buf) && i < |buf| && CurrentOk(tree, cur)
    ensures s.Next? ==> s.cp == LineEnd(buf, i) + 1 && s.tree == tree && s.cur == cur
    ensures s.Stop? ==> s.result == Parsed(0, tree)
  {
    var e := LineEnd(buf, i);
    if buf[e] == '\0' then Stop(Parsed(0, tree)) else Next(e + 1, tree, cur)
  }

  /**
   * The section a header names, resolved from the root: a name that is no
   * section, or a section without entries, turns on skip mode.
   */
  function Enter(buf: string, next: nat, tree: Ref, name: string): (s: Step)
    requires 0 < next <= |buf|
    ensures StepOk(buf, next - 1, tree, s)
    ensures s.Next? ==> s.cp == next && s.tree == tree
    ensures s.Next? && s.cur.InSection? ==>
      SectionLookup(tree, name) == Found(s.cur.path) && !EntryAt(tree, s.cur.path).p.Null?
    ensures s.Stop? ==> s.result == Strayed && SectionLookup(tree, name).Stray?
  {
    match SectionLookup(tree, name)
    case Nowhere => Next(next, tree, Skipping)
    case Stray => Stop(Strayed)
    case Found(path) =>
      Next(next, tree, if EntryAt(tree, path).p.Null? then Skipping else InSection(path))
  }

  /**
   * The rest of a header line after its ']' at k: only blanks and an
   * optional comment may come before the newline.
   */
  function HeaderEnd(buf: string, k: nat, tree: Ref, name: string): (s: Step)
    requires Terminated(buf) && k + 1 < |buf|
    ensures StepOk(buf, k, tree, s)
    ensures s.Next? ==> s.tree == tree
  {
    var m := SkipBlanks(buf, k + 1);
    var eol := if buf[m] == '#' then LineEnd(buf, m + 1) else m;
    if buf[m] == '#' && buf[eol] == '\0' then Stop(Parsed(0, tree))
    else if buf[eol] != '\n' then Stop(Parsed(-1, tree))
    else Enter(buf, eol + 1, tree, name)
  }

  /**
   * A header line after its '[' at i: a name starting with a letter, then
   * a ']'.
   */
  function Header(buf: string, i: nat, tree: Ref): (s: Step)
    requires Terminated(buf) && 0 < i < |buf|
    ensures StepOk(buf, i - 1, tree, s)
    ensures s.Next? ==> s.tree == tree
  {
    var j := SkipBlanks(buf, i);
    if !IsAlpha(buf[j]) then Stop(Parsed(-1, tree))
    else
      var e := NameEnd(buf, j + 1, true);
      var k := SkipBlanks(buf, e);
      if buf[k] != ']' then Stop(Parsed(-1, tree))
      else HeaderEnd(buf, k, tree, buf[j..e])
  }

  /**
   * The characters conf_parse copies into the token after the first one of
   * a value: everything up to the newline or NUL that ends the line.
   */
  function ValueRest(buf: string, i: nat): (r: string)
    requires Terminated(buf) && i < |buf|
    ensures |r| <= LineEnd(buf, i) - i
    decreases |buf| - i
  {
    if buf[i] == '\n' || buf[i] == '\0' then [] else [buf[i]] + ValueRest(buf, i + 1)
  }

  /** The rest of a value is the line from i up to where it ends. */
  lemma {:induction false} ValueRestSlice(buf: string, i: nat)
    requires Terminated(buf) && i < |buf|
    ensures ValueRest(buf, i) == buf[i..LineEnd(buf, i)]
    decreases |buf| - i
  {
    if buf[i] != '\n' && buf[i] != '\0' {
      ValueRestSlice(buf, i + 1);
      assert buf[i..LineEnd(buf, i)] == [buf[i]] + buf[i + 1..LineEnd(buf, i)];
    }
  }

  /**
   * The text the setter gets for a value whose first character is at v:
   * conf_parse copies that character whatever it is, then the rest of the
   * line, comments and trailing blanks included; the setter reads the token
   * as a C string, so a NUL first character leaves it nothing. A newline as
   * the first character (an empty value) makes it the whole next line.
   */
  function Value(buf: string, v: nat): (r: string)
    requires Terminated(buf) && v + 1 < |buf|
    ensures buf[v] == '\0' ==> r == []
    ensures buf[v] != '\0' ==> |r| > 0 && r[0] == buf[v]
  {
    CStr([buf[v]] + ValueRest(buf, v + 1))
  }

  /** A value is the slice of its line from v, cut at its first character when that is a NUL. */
  lemma ValueSlice(buf: string, v: nat)
    requires Terminated(buf) && v + 1 < |buf|
    ensures Value(buf, v) == CStr(buf[v..LineEnd(buf, v + 1)])
    ensures buf[v] != '\0' ==> Value(buf, v) == buf[v..LineEnd(buf, v + 1)]
  {
    var e := LineEnd(buf, v + 1);
    ValueRestSlice(buf, v + 1);
    assert [buf[v]] + ValueRest(buf, v + 1) == buf[v..e];
    if buf[v] != '\0' {
      LineEndSpan(buf, v + 1);
      forall k | 0 <= k < e - v ensures buf[v..e][k] != '\0' {
        assert buf[v..e][k] == buf[v + k];
      }
      NoNulCStr(buf[v..e]);
    }
  }

  /** Past its first character, a value holds no newline and no NUL. */
  lemma ValueSpan(buf: string, v: nat)
    requires Terminated(buf) && v + 1 < |buf|
    ensures var r := Value(buf, v); forall k :: 1 <= k < |r| ==> r[k] != '\n' && r[k] != '\0'
  {
    var e := LineEnd(buf, v + 1);
    LineEndSpan(buf, v + 1);
    ValueSlice(buf, v);
    if buf[v] != '\0' {
      forall k | 1 <= k < e - v ensures buf[v..e][k] != '\n' && buf[v..e][k] != '\0' {
        assert buf[v..e][k] == buf[v + k];
      }
    }
  }

  /**
   * The value of an assignment to the entry at path + sub, whose first
   * character is at v: taken whatever it is, so an empty value takes the
   * next line, and a value starting at the buffer's final NUL reads past
   * it. The setter of the entry's type gets the value as a C string.
   */
  function Assign(setter: Setter, buf: string, v: nat, tree: Ref, path: seq<nat>, sub: seq<nat>): (s: Step)
    requires Terminated(buf) && v < |buf| && CurrentOk(tree, InSection(path))
    requires ValidPath(SectionAt(tree, path), sub)
    ensures StepOk(buf, v, tree, s)
  {
    if v + 1 == |buf| then Stop(Overran)
    else
      var end := LineEnd(buf, v + 1);
      PathConcat(tree, path, sub);
      var entry := EntryAt(tree, path + sub);
      match setter(entry.kind, entry.len, entry.p, Value(buf, v))
      case Clobbered => Stop(Strayed)
      case Stored(q, _) =>
        ReplaceBelow(tree, path, sub, q);
        ReplaceDeclares(tree, path + sub, q);
        Next(end + 1, Replace(tree, path + sub, q), InSection(path))
  }

  /**
   * An assignment line whose first character is at j, in the section at
   * path: a key starting with a letter, then '='. A key that does not
   * resolve discards the line.
   */
  function Assignment(setter: Setter, buf: string, j: nat, tree: Ref, path: seq<nat>): (s: Step)
    requires Terminated(buf) && j < |buf| && CurrentOk(tree, InSection(path))
    ensures StepOk(buf, j, tree, s)
  {
    if !IsAlpha(buf[j]) then Stop(Parsed(-1, tree))
    else
      var e := NameEnd(buf, j + 1, false);
      var k := SkipBlanks(buf, e);
      if buf[k] != '=' then Stop(Parsed(-1, tree))
      else Keyed(setter, buf, k, tree, path, Lookup(SectionAt(tree, path), buf[j..e]))
  }

  /**
   * What follows the '=' at k, once the key has been looked up: a key found
   * nowhere discards the line, one that strays ends the run, and a found
   * entry takes the value after the blanks.
   */
  function Keyed(setter: Setter, buf: string, k: nat, tree: Ref, path: seq<nat>, found: Located): (s: Step)
    requires Terminated(buf) && k < |buf| && buf[k] == '=' && CurrentOk(tree, InSection(path))
    requires found.Found? ==> ValidPath(SectionAt(tree, path), found.path)
    ensures StepOk(buf, k, tree, s)
  {
    match found
    case Nowhere => Discard(buf, k + 1, tree, InSection(path))
    case Stray => Stop(Strayed)
    case Found(sub) => Assign(setter, buf, SkipBlanks(buf, k + 1), tree, path, sub)
  }

  /** One pass of conf_parse's loop, from the cursor at cp. */
  function Line(setter: Setter, buf: string, cp: nat, tree: Ref, cur: Current): (s: Step)
    requires Terminated(buf) && cp < |buf| && CurrentOk(tree, cur)
    ensures StepOk(buf, cp, tree, s)
  {
    var j := SkipBlanks(buf, cp);
    var c := buf[j];
    if c == '\0' then Stop(Parsed(0, tree))
    else if c == '\n' then Next(j + 1, tree, cur)
    else Content(setter, buf, j, tree, cur)
  }

  /**
   * A line whose first character after the blanks, at j, is neither NUL nor
   * a newline: a comment, a header, a line of a skipped section or an
   * assignment.
   */
  function Content(setter: Setter, buf: string, j: nat, tree: Ref, cur: Current): (s: Step)
    requires Terminated(buf) && j < |buf| && buf[j] != '\0' && CurrentOk(tree, cur)
    ensures StepOk(buf, j, tree, s)
  {
    var c := buf[j];
    if c == '#' then Discard(buf, j + 1, tree, cur)
    else if c == '[' then Header(buf, j + 1, tree)
    else if cur.Skipping? then Discard(buf, j + 1, tree, cur)
    else Assignment(setter, buf, j, tree, cur.path)
  }

  /** The run of conf_parse from the cursor at cp to its end. */
  function Run(setter: Setter, buf: string, cp: nat, tree: Ref, cur: Current): (r: Parsed)
    requires Terminated(buf) && cp <= |buf| && CurrentOk(tree, cur)
    decreases |buf| - cp
  {
    if cp == |buf| then Overran
    else match Line(setter, buf, cp, tree, cur)
      case Stop(result) => result
      case Next(cp', tree', cur') => Run(setter, buf, cp', tree', cur')
  }

  /** conf_parse(buf, root). */
  function ParseText(buf: string, root: Ref): (r: Parsed)
    requires Terminated(buf)
  {
    Run(Set, buf, 0, root, InSection([]))
  }

  // ---------------------------------------------------------------------
  // Properties of a run
  // ---------------------------------------------------------------------

  /**
   * A run that returns returns 0 or -1 (never the number of assignments
   * made), and the tree it leaves declares what the root declared: only
   * data pointers were stored into, and the updates of the lines before a
   * malformed one are kept.
   */
  lemma {:induction false} RunOutcome(setter: Setter, buf: string, cp: nat, tree: Ref, cur: Current)
    requires Terminated(buf) && cp <= |buf| && CurrentOk(tree, cur)
    ensures Run(setter, buf, cp, tree, cur).Parsed? ==>
      (Run(setter, buf, cp, tree, cur).rc == 0 || Run(setter, buf, cp, tree, cur).rc == -1)
      && SameDeclarations(tree, Run(setter, buf, cp, tree, cur).tree)
    decreases |buf| - cp
  {
    if cp < |buf| {
      match Line(setter, buf, cp, tree, cur)
      case Stop(result) =>
        SameDeclarationsRefl(tree);
      case Next(cp', tree', cur') =>
        RunOutcome(setter, buf, cp', tree', cur');
        if Run(setter, buf, cp', tree', cur').Parsed? {
          SameDeclarationsTrans(tree, tree', Run(setter, buf, cp', tree', cur').tree);
        }
    }
  }

  /** conf_parse's result: 0 or -1, and a tree with the root's declarations. */
  lemma ParseOutcome(buf: string, root: Ref)
    requires Terminated(buf)
    ensures ParseText(buf, root).Parsed? ==>
      (ParseText(buf, root).rc == 0 || ParseText(buf, root).rc == -1)
      && SameDeclarations(root, ParseText(buf, root).tree)
  {
    RunOutcome(Set, buf, 0, root, InSection([]));
  }

  /**
   * A header is resolved from the root whatever section the parser is in,
   * and turns skip mode on or off.
   */
  lemma HeaderFromRoot(setter: Setter, buf: string, cp: nat, tree: Ref, cur: Current, cur': Current)
    requires Terminated(buf) && cp < |buf| && CurrentOk(tree, cur) && CurrentOk(tree, cur')
    requires buf[SkipBlanks(buf, cp)] == '['
    ensures Line(setter, buf, cp, tree, cur) == Line(setter, buf, cp, tree, cur')
  {
  }

  /**
   * In skip mode every line but a header is discarded unread: a line that
   * does not start with a letter ends the run with -1 in a section, and is
   * passed over in skip mode.
   */
  lemma SkipModeHidesErrors(setter: Setter, buf: string, cp: nat, tree: Ref, path: seq<nat>)
    requires Terminated(buf) && cp < |buf| && CurrentOk(tree, InSection(path))
    requires var c := buf[SkipBlanks(buf, cp)]; !IsAlpha(c) && c != '[' && c != '#' && c != '\n' && c != '\0'
    ensures Line(setter, buf, cp, tree, InSection(path)) == Stop(Parsed(-1, tree))
    ensures Line(setter, buf, cp, tree, Skipping) == Discard(buf, SkipBlanks(buf, cp) + 1, tree, Skipping)
  {
  }

  /** A line whose first character after the blanks, at j, is '[' is a header, in any current section. */
  lemma LineIsHeader(setter: Setter, buf: string, cp: nat, j: nat, tree: Ref, cur: Current)
    requires Terminated(buf) && cp < |buf| && CurrentOk(tree, cur)
    requires j == SkipBlanks(buf, cp) && buf[j] == '['
    ensures Line(setter, buf, cp, tree, cur) == Header(buf, j + 1, tree)
  {
    assert Line(setter, buf, cp, tree, cur) == Content(setter, buf, j, tree, cur);
  }

  /** A header name from n to e, then blanks and the ']' at k: the rest of the line decides. */
  lemma HeaderIsHeaderEnd(buf: string, i: nat, n: nat, e: nat, k: nat, tree: Ref)
    requires Terminated(buf) && 0 < i < |buf| && n == SkipBlanks(buf, i) && IsAlpha(buf[n])
    requires e == NameEnd(buf, n + 1, true) && k == SkipBlanks(buf, e) && buf[k] == ']'
    ensures k + 1 < |buf|
    ensures Header(buf, i, tree) == HeaderEnd(buf, k, tree, buf[n..e])
  {
    NotLast(buf, k);
  }

  /** After the ']' at k, blanks and an optional comment up to the newline at eol: the header is entered. */
  lemma HeaderEndEnters(buf: string, k: nat, m: nat, eol: nat, tree: Ref, name: string)
    requires Terminated(buf) && k + 1 < |buf| && m == SkipBlanks(buf, k + 1)
    requires eol == (if buf[m] == '#' then LineEnd(buf, m + 1) else m) && buf[eol] == '\n'
    ensures HeaderEnd(buf, k, tree, name) == Enter(buf, eol + 1, tree, name)
  {
  }

  /**
   * A well-formed header line "[name]", with blanks where conf_parse allows
   * them and an optional comment after the ']', moves the parser to the
   * line after it and changes no data. A name that is no section, or a
   * section whose array is NULL, turns on skip mode; a section with an
   * array becomes the current section. This holds in any current section,
   * skip mode included.
   */
  lemma HeaderLine(setter: Setter, buf: string, cp: nat, tree: Ref, cur: Current, j: nat, n: nat, e: nat, k: nat, eol: nat)
    requires Terminated(buf) && cp < |buf| && CurrentOk(tree, cur)
    requires j == SkipBlanks(buf, cp) && buf[j] == '['
    requires n == SkipBlanks(buf, j + 1) && IsAlpha(buf[n]) && e == NameEnd(buf, n + 1, true)
    requires k == SkipBlanks(buf, e) && buf[k] == ']'
    requires var m := SkipBlanks(buf, k + 1);
      eol == (if buf[m] == '#' then LineEnd(buf, m + 1) else m) && buf[eol] == '\n'
    ensures SectionLookup(tree, buf[n..e]).Nowhere? ==> Line(setter, buf, cp, tree, cur) == Next(eol + 1, tree, Skipping)
    ensures SectionLookup(tree, buf[n..e]).Found? ==>
      var path := SectionLookup(tree, buf[n..e]).path;
      Line(setter, buf, cp, tree, cur)
        == Next(eol + 1, tree, if EntryAt(tree, path).p.Null? then Skipping else InSection(path))
  {
    LineIsHeader(setter, buf, cp, j, tree, cur);
    HeaderEnters(buf, j + 1, n, e, k, eol, tree);
    EnterCases(buf, eol + 1, tree, buf[n..e]);
  }

  /** Entering a header's name: skip mode for no section or a NULL array, the section otherwise. */
  lemma EnterCases(buf: string, next: nat, tree: Ref, name: string)
    requires 0 < next <= |buf|
    ensures SectionLookup(tree, name).Nowhere? ==> Enter(buf, next, tree, name) == Next(next, tree, Skipping)
    ensures SectionLookup(tree, name).Found? ==>
      var path := SectionLookup(tree, name).path;
      Enter(buf, next, tree, name)
        == Next(next, tree, if EntryAt(tree, path).p.Null? then Skipping else InSection(path))
  {
  }

  /** A well-formed header after its '[' at i reaches Enter with the line after it. */
  lemma HeaderEnters(buf: string, i: nat, n: nat, e: nat, k: nat, eol: nat, tree: Ref)
    requires Terminated(buf) && 0 < i < |buf| && n == SkipBlanks(buf, i) && IsAlpha(buf[n])
    requires e == NameEnd(buf, n + 1, true) && k == SkipBlanks(buf, e) && buf[k] == ']'
    requires var m := SkipBlanks(buf, k + 1);
      eol == (if buf[m] == '#' then LineEnd(buf, m + 1) else m) && buf[eol] == '\n'
    ensures eol + 1 <= |buf| && Header(buf, i, tree) == Enter(buf, eol + 1, tree, buf[n..e])
  {
    HeaderIsHeaderEnd(buf, i, n, e, k, tree);
    HeaderEndEnters(buf, k, SkipBlanks(buf, k + 1), eol, tree, buf[n..e]);
  }

  /** A header whose name does not start with a letter ends the run with -1, in any current section. */
  lemma HeaderWithoutLetter(setter: Setter, buf: string, cp: nat, tree: Ref, cur: Current)
    requires Terminated(buf) && cp < |buf| && CurrentOk(tree, cur)
    requires var j := SkipBlanks(buf, cp); buf[j] == '[' && !IsAlpha(buf[SkipBlanks(buf, j + 1)])
    ensures Line(setter, buf, cp, tree, cur) == Stop(Parsed(-1, tree))
  {
    var j := SkipBlanks(buf, cp);
    assert Line(setter, buf, cp, tree, cur) == Header(buf, j + 1, tree);
  }

  /** A header name followed by anything but blanks and ']' ends the run with -1. */
  lemma HeaderWithoutBracket(setter: Setter, buf: string, cp: nat, tree: Ref, cur: Current)
    requires Terminated(buf) && cp < |buf| && CurrentOk(tree, cur)
    requires var j := SkipBlanks(buf, cp); buf[j] == '['
    requires var n := SkipBlanks(buf, SkipBlanks(buf, cp) + 1);
      IsAlpha(buf[n]) && buf[SkipBlanks(buf, NameEnd(buf, n + 1, true))] != ']'
    ensures Line(setter, buf, cp, tree, cur) == Stop(Parsed(-1, tree))
  {
    var j := SkipBlanks(buf, cp);
    LineIsHeader(setter, buf, cp, j, tree, cur);
    HeaderRejectsName(buf, j + 1, tree);
  }

  /** After the '[' at i, a name not followed by blanks and ']' is an error. */
  lemma HeaderRejectsName(buf: string, i: nat, tree: Ref)
    requires Terminated(buf) && 0 < i < |buf|
    requires var n := SkipBlanks(buf, i);
      IsAlpha(buf[n]) && buf[SkipBlanks(buf, NameEnd(buf, n + 1, true))] != ']'
    ensures Header(buf, i, tree) == Stop(Parsed(-1, tree))
  {
  }

  /**
   * After a header's ']', anything but blanks, then a newline or a comment,
   * ends the run with -1.
   */
  lemma HeaderTrailingText(setter: Setter, buf: string, cp: nat, tree: Ref, cur: Current, j: nat, n: nat, e: nat, k: nat)
    requires Terminated(buf) && cp < |buf| && CurrentOk(tree, cur)
    requires j == SkipBlanks(buf, cp) && buf[j] == '['
    requires n == SkipBlanks(buf, j + 1) && IsAlpha(buf[n]) && e == NameEnd(buf, n + 1, true)
    requires k == SkipBlanks(buf, e) && buf[k] == ']'
    requires var c := buf[SkipBlanks(buf, k + 1)]; c != '#' && c != '\n'
    ensures Line(setter, buf, cp, tree, cur) == Stop(Parsed(-1, tree))
  {
    LineIsHeader(setter, buf, cp, j, tree, cur);
    HeaderIsHeaderEnd(buf, j + 1, n, e, k, tree);
    HeaderEndRejects(buf, k, tree, buf[n..e]);
  }

  /** Text after the ']' at k other than blanks, a comment or a newline is an error. */
  lemma HeaderEndRejects(buf: string, k: nat, tree: Ref, name: string)
    requires Terminated(buf) && k + 1 < |buf|
    requires var c := buf[SkipBlanks(buf, k + 1)]; c != '#' && c != '\n'
    ensures HeaderEnd(buf, k, tree, name) == Stop(Parsed(-1, tree))
  {
  }

  /** In a section, a key followed by anything but blanks and '=' ends the run with -1. */
  lemma KeyWithoutEquals(setter: Setter, buf: string, cp: nat, tree: Ref, path: seq<nat>)
    requires Terminated(buf) && cp < |buf| && CurrentOk(tree, InSection(path))
    requires var j := SkipBlanks(buf, cp);
      IsAlpha(buf[j]) && buf[SkipBlanks(buf, NameEnd(buf, j + 1, false))] != '='
    ensures Line(setter, buf, cp, tree, InSection(path)) == Stop(Parsed(-1, tree))
  {
    var j := SkipBlanks(buf, cp);
    assert Line(setter, buf, cp, tree, InSection(path)) == Assignment(setter, buf, j, tree, path);
  }

  /**
   * In skip mode every line that is not a header, an empty line or the end
   * is discarded unread, assignments included.
   */
  lemma SkipModeDiscards(setter: Setter, buf: string, cp: nat, tree: Ref)
    requires Terminated(buf) && cp < |buf|
    requires var c := buf[SkipBlanks(buf, cp)]; c != '[' && c != '\n' && c != '\0'
    ensures Line(setter, buf, cp, tree, Skipping) == Discard(buf, SkipBlanks(buf, cp) + 1, tree, Skipping)
  {
  }

  /**
   * A key that does not resolve in the current section discards the rest of
   * its line after the '=', and parsing goes on.
   */
  lemma UnknownKeyDiscards(setter: Setter, buf: string, cp: nat, tree: Ref, path: seq<nat>)
    requires Terminated(buf) && cp < |buf| && CurrentOk(tree, InSection(path))
    requires IsAlpha(buf[SkipBlanks(buf, cp)])
    requires var j := SkipBlanks(buf, cp); var e := NameEnd(buf, j + 1, false);
      buf[SkipBlanks(buf, e)] == '=' && Lookup(SectionAt(tree, path), buf[j..e]).Nowhere?
    ensures var j := SkipBlanks(buf, cp); var k := SkipBlanks(buf, NameEnd(buf, j + 1, false));
      Line(setter, buf, cp, tree, InSection(path)) == Discard(buf, k + 1, tree, InSection(path))
  {
    var j := SkipBlanks(buf, cp);
    assert Line(setter, buf, cp, tree, InSection(path)) == Assignment(setter, buf, j, tree, path);
  }

  /**
   * A key that resolves to a section entry is decoded by that entry's
   * setter, void_set, which overwrites the section's pointer to its child
   * array: a value the scan reads as 0 leaves the pointer NULL, any other
   * number leaves a wild address, and only a value with no hex digit keeps
   * the child array. The run goes on after the line in the same section.
   */
  lemma SectionKeyOverwrites(buf: string, k: nat, tree: Ref, path: seq<nat>, sub: seq<nat>)
    requires Terminated(buf) && k < |buf| && buf[k] == '=' && CurrentOk(tree, InSection(path))
    requires ValidPath(SectionAt(tree, path), sub) && IsSection(EntryAt(SectionAt(tree, path), sub))
    requires SkipBlanks(buf, k + 1) + 1 < |buf|
    ensures ValidPath(tree, path + sub)
    ensures var v := SkipBlanks(buf, k + 1);
      var e := EntryAt(SectionAt(tree, path), sub);
      var q := VoidSet(e.p, Value(buf, v)).p;
      var scanned := CNum.ScanHex(Value(buf, v), CNum.W64);
      && Keyed(Set, buf, k, tree, path, Found(sub)) == Next(LineEnd(buf, v + 1) + 1, Replace(tree, path + sub, q), InSection(path))
      && ValidPath(Replace(tree, path + sub, q), path + sub)
      && EntryAt(Replace(tree, path + sub, q), path + sub) == e.(p := q)
      && (scanned == Some(0) ==> q == Null)
      && (scanned.Some? && scanned.value != 0 ==> q == Wild(scanned.value))
      && (scanned.None? ==> q == e.p)
  {
    var v := SkipBlanks(buf, k + 1);
    var e := EntryAt(SectionAt(tree, path), sub);
    PathConcat(tree, path, sub);
    ReplaceAt(tree, path + sub, VoidSet(e.p, Value(buf, v)).p);
  }

  /**
   * After a root-level line "name = 0" overwrites the section that name
   * resolves to, a later "[name]" header still finds that section, but with
   * a NULL array, so the lines under it are skipped.
   */
  lemma OverwrittenSectionSkipped(buf: string, k: nat, tree: Ref, name: string, sub: seq<nat>, next: nat)
    requires Terminated(buf) && k < |buf| && buf[k] == '='
    requires ValidPath(tree, sub) && IsSection(EntryAt(tree, sub)) && Lookup(tree, name) == Found(sub)
    requires SkipBlanks(buf, k + 1) + 1 < |buf| && CNum.ScanHex(Value(buf, SkipBlanks(buf, k + 1)), CNum.W64) == Some(0)
    requires 0 < next <= |buf|
    ensures var s := Keyed(Set, buf, k, tree, [], Found(sub));
      s.Next? && Enter(buf, next, s.tree, name) == Next(next, s.tree, Skipping)
  {
    SectionKeyOverwrites(buf, k, tree, [], sub);
    assert [] + sub == sub;
    var q := VoidSet(EntryAt(tree, sub).p, Value(buf, SkipBlanks(buf, k + 1))).p;
    ReplaceKeepsFound(tree, sub, q, name);
    EnterCases(buf, next, Replace(tree, sub, q), name);
  }

  /**
   * An empty value (nothing but blanks after '=') takes the next line: the
   * setter is handed the newline followed by that whole line.
   */
  lemma EmptyValueTakesNextLine(buf: string, v: nat)
    requires Terminated(buf) && v + 1 < |buf| && buf[v] == '\n'
    ensures Value(buf, v) == "\n" + buf[v + 1..LineEnd(buf, v + 1)]
  {
    var e := LineEnd(buf, v + 1);
    ValueSlice(buf, v);
    assert buf[v..e] == [buf[v]] + buf[v + 1..e];
  }

  /**
   * The last line of a file without a final newline is an assignment whose
   * value runs to the NUL conf_load appends; the parser then reads the
   * character after that NUL. An assignment with no value at all there
   * reads past it at once.
   */
  lemma LastLineOverruns(setter: Setter, buf: string, v: nat, tree: Ref, path: seq<nat>, sub: seq<nat>)
    requires Terminated(buf) && v < |buf| && CurrentOk(tree, InSection(path))
    requires ValidPath(SectionAt(tree, path), sub)
    requires v + 1 == |buf| || LineEnd(buf, v + 1) == |buf| - 1
    ensures var s := Assign(setter, buf, v, tree, path, sub);
      s == Stop(Overran) || s == Stop(Strayed)
      || (s.Next? && Run(setter, buf, s.cp, s.tree, s.cur) == Overran)
  {
  }

  // ---------------------------------------------------------------------
  // Paths below the current section
  // ---------------------------------------------------------------------

  /** A path found below the current section, read from the root. */
  lemma {:induction false} PathConcat(tree: Ref, path: seq<nat>, sub: seq<nat>)
    requires path == [] || ValidPath(tree, path)
    requires ValidPath(SectionAt(tree, path), sub)
    ensures ValidPath(tree, path + sub)
    ensures EntryAt(tree, path + sub) == EntryAt(SectionAt(tree, path), sub)
    decreases |path|
  {
    if path == [] {
      assert path + sub == sub;
    } else {
      var e := tree.entries[path[0]];
      assert (path + sub)[0] == path[0];
      assert (path + sub)[1..] == path[1..] + sub;
      if |path| > 1 {
        PathConcat(e.p, path[1..], sub);
      } else {
        assert path[1..] + sub == sub;
      }
    }
  }

  /** Replacing the pointer of an entry below a path keeps the path valid. */
  lemma {:induction false} ReplaceBelow(tree: Ref, path: seq<nat>, sub: seq<nat>, q: Ref)
    requires path == [] || ValidPath(tree, path)
    requires |sub| > 0 && ValidPath(tree, path + sub)
    ensures path == [] || ValidPath(Replace(tree, path + sub, q), path)
    decreases |path|
  {
    if path != [] {
      var at := path + sub;
      assert at[0] == path[0];
      assert at[1..] == path[1..] + sub;
      if |path| > 1 {
        ReplaceBelow(tree.entries[path[0]].p, path[1..], sub, q);
      }
    }
  }

  // ---------------------------------------------------------------------
  // The parser
  // ---------------------------------------------------------------------

  /** do { c = *cp++; } while (c == ' ' || c == '\t'): the index of the c it stops on. */
  method SkipBlanksAt(buf: string, i: nat) returns (j: nat)
    requires Terminated(buf) && i < |buf|
    ensures j == SkipBlanks(buf, i)
  {
    j := i;
    while IsBlank(buf[j])
      invariant i <= j < |buf|
      invariant SkipBlanks(buf, j) == SkipBlanks(buf, i)
      decreases |buf| - j
    {
      j := j + 1;
    }
  }

  /** do { c = *cp++; if (c == '\0') goto end; } while (c != '\n'): the index of the c it stops on. */
  method LineEndAt(buf: string, i: nat) returns (j: nat)
    requires Terminated(buf) && i < |buf|
    ensures j == LineEnd(buf, i)
  {
    j := i;
    while buf[j] != '\n' && buf[j] != '\0'
      invariant i <= j < |buf|
      invariant LineEnd(buf, j) == LineEnd(buf, i)
      decreases |buf| - j
    {
      j := j + 1;
    }
  }

  /** The token loop of a section name or a key: the index of the first character it does not take. */
  method NameEndAt(buf: string, i: nat, header: bool) returns (j: nat)
    requires Terminated(buf) && i < |buf|
    ensures j == NameEnd(buf, i, header)
  {
    j := i;
    while if header then IsSectionChar(buf[j]) else IsKeyChar(buf[j])
      invariant i <= j < |buf|
      invariant NameEnd(buf, j, header) == NameEnd(buf, i, header)
      decreases |buf| - j
    {
      j := j + 1;
    }
  }

  /** The rest of a line from i, skipped. */
  method DiscardLine(buf: string, i: nat, tree: Ref, cur: Current) returns (s: Step)
    requires Terminated(buf) && i < |buf| && CurrentOk(tree, cur)
    ensures s == Discard(buf, i, tree, cur)
  {
    var eol := LineEndAt(buf, i);
    if buf[eol] == '\0' {
      s := Stop(Parsed(0, tree));
    } else {
      s := Next(eol + 1, tree, cur);
    }
  }

  /** The rest of a header line after its ']' at k, and the section it names. */
  method ParseHeaderEnd(buf: string, k: nat, tree: Ref, name: string) returns (s: Step)
    requires Terminated(buf) && k + 1 < |buf|
    ensures s == HeaderEnd(buf, k, tree, name)
  {
    var m := SkipBlanksAt(buf, k + 1);
    var eol := m;
    if buf[m] == '#' {
      eol := LineEndAt(buf, m + 1);
      if buf[eol] == '\0' {
        return Stop(Parsed(0, tree));
      }
    }
    if buf[eol] != '\n' {
      return Stop(Parsed(-1, tree));
    }
    var found := SectionLookup(tree, name);
    match found
    case Nowhere => s := Next(eol + 1, tree, Skipping);
    case Stray => s := Stop(Strayed);
    case Found(path) =>
      if EntryAt(tree, path).p.Null? {
        s := Next(eol + 1, tree, Skipping);
      } else {
        s := Next(eol + 1, tree, InSection(path));
      }
  }

  /** A header line after its '['. */
  method ParseHeader(buf: string, i: nat, tree: Ref) returns (s: Step)
    requires Terminated(buf) && 0 < i < |buf|
    ensures s == Header(buf, i, tree)
  {
    var j := SkipBlanksAt(buf, i);
    if !IsAlpha(buf[j]) {
      return Stop(Parsed(-1, tree));
    }
    var e := NameEndAt(buf, j + 1, true);
    var k := SkipBlanksAt(buf, e);
    if buf[k] != ']' {
      return Stop(Parsed(-1, tree));
    }
    s := ParseHeaderEnd(buf, k, tree, buf[j..e]);
  }

  /** The value of an assignment whose first character is at v, stored in the entry. */
  method ParseValue(setter: Setter, buf: string, v: nat, tree: Ref, path: seq<nat>, sub: seq<nat>) returns (s: Step)
    requires Terminated(buf) && v < |buf| && CurrentOk(tree, InSection(path))
    requires ValidPath(SectionAt(tree, path), sub)
    ensures s == Assign(setter, buf, v, tree, path, sub)
  {
    if v + 1 == |buf| {
      return Stop(Overran);
    }
    var end := LineEndAt(buf, v + 1);
    var at := path + sub;
    PathConcat(tree, path, sub);
    var entry := EntryAt(tree, at);
    var stored := setter(entry.kind, entry.len, entry.p, CStr(buf[v..end]));
    ValueSlice(buf, v);
    match stored
    case Clobbered => s := Stop(Strayed);
    case Stored(q, _) =>
      ReplaceBelow(tree, path, sub, q);
      s := Next(end + 1, Replace(tree, at, q), InSection(path));
  }

  /** An assignment line whose first character is at j. */
  method ParseAssignment(setter: Setter, buf: string, j: nat, tree: Ref, path: seq<nat>) returns (s: Step)
    requires Terminated(buf) && j < |buf| && CurrentOk(tree, InSection(path))
    ensures s == Assignment(setter, buf, j, tree, path)
  {
    if !IsAlpha(buf[j]) {
      return Stop(Parsed(-1, tree));
    }
    var e := NameEndAt(buf, j + 1, false);
    var k := SkipBlanksAt(buf, e);
    if buf[k] != '=' {
      return Stop(Parsed(-1, tree));
    }
    var found := Lookup(SectionAt(tree, path), buf[j..e]);
    s := ParseKeyed(setter, buf, k, tree, path, found);
  }

  /** The rest of an assignment line after its '=' at k. */
  method ParseKeyed(setter: Setter, buf: string, k: nat, tree: Ref, path: seq<nat>, found: Located) returns (s: Step)
    requires Terminated(buf) && k < |buf| && buf[k] == '=' && CurrentOk(tree, InSection(path))
    requires found.Found? ==> ValidPath(SectionAt(tree, path), found.path)
    ensures s == Keyed(setter, buf, k, tree, path, found)
  {
    match found
    case Nowhere => s := DiscardLine(buf, k + 1, tree, InSection(path));
    case Stray => s := Stop(Strayed);
    case Found(sub) =>
      var v := SkipBlanksAt(buf, k + 1);
      s := ParseValue(setter, buf, v, tree, path, sub);
  }

  /** One pass of the loop: blank, comment, header, skipped or assignment line. */
  method ParseLine(setter: Setter, buf: string, cp: nat, tree: Ref, cur: Current) returns (s: Step)
    requires Terminated(buf) && cp < |buf| && CurrentOk(tree, cur)
    ensures s == Line(setter, buf, cp, tree, cur)
  {
    var j := SkipBlanksAt(buf, cp);
    var c := buf[j];
    if c == '\0' {
      s := Stop(Parsed(0, tree));
    } else if c == '\n' {
      s := Next(j + 1, tree, cur);
    } else {
      s := ParseContent(setter, buf, j, tree, cur);
    }
  }

  /** The branches of the loop for a line with something on it. */
  method ParseContent(setter: Setter, buf: string, j: nat, tree: Ref, cur: Current) returns (s: Step)
    requires Terminated(buf) && j < |buf| && buf[j] != '\0' && CurrentOk(tree, cur)
    ensures s == Content(setter, buf, j, tree, cur)
  {
    var c := buf[j];
    if c == '#' || (c != '[' && cur.Skipping?) {
      s := DiscardLine(buf, j + 1, tree, cur);
    } else if c == '[' {
      s := ParseHeader(buf, j + 1, tree);
    } else {
      s := ParseAssignment(setter, buf, j, tree, cur.path);
    }
  }

  /** conf_parse: runs the loop until a line ends the run. */
  method ConfParse(buf: string, root: Ref) returns (r: Parsed)
    requires Terminated(buf)
    ensures r == ParseText(buf, root)
  {
    var cp := 0;
    var tree := root;
    var cur := InSection([]);
    while true
      invariant cp <= |buf| && CurrentOk(tree, cur)
      invariant Run(Set, buf, cp, tree, cur) == ParseText(buf, root)
      decreases |buf| - cp
    {
      if cp == |buf| {
        return Overran;
      }
      var s := ParseLine(Set, buf, cp, tree, cur);
      match s
      case Stop(result) =>
        return result;
      case Next(cp', tree', cur') =>
        cp, tree, cur := cp', tree', cur';
    }
  }

  /**
   * conf_load with the file's content (None when fopen fails): -1 when the
   * file cannot be opened or is empty (fread of zero bytes reads no item),
   * otherwise conf_parse of the content with a NUL appended.
   */
  method ConfLoad(content: Option<string>, root: Ref) returns (r: Parsed)
    ensures content.None? || content == Some([]) ==> r == Parsed(-1, root)
    ensures content.Some? && content.value != [] ==> r == ParseText(content.value + "\0", root)
  {
    if content.None? || content.value == [] {
      return Parsed(-1, root);
    }
    r := ConfParse(content.value + "\0", root);
  }
}
