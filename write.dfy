/**
 * write_section, conf_save and conf_dump: the writer that prints a section
 * tree back as configuration text. The entries of one array are printed
 * first, one "name = value" line each, with the array's sections queued;
 * then each queued section gets a blank line, a "[path]" header and its own
 * contents, recursively. The returned count is the number of assignment
 * lines.
 *
 * The stream is modelled as the sequence of lines written; a value whose
 * text the model does not determine (a pointer printed with %p, a double,
 * storage never written) is a hole in its line.
 */
module Write {
  import opened Wrappers
  import opened ConfPrivate
  import opened ConfTypes
  import opened EncDec

  /** The text of a value, or why the model does not know it. */
  datatype Text = Known(s: string) | Hole(why: Unspecified)

  /** One line of the written configuration. */
  datatype Line =
    | Assignment(key: string, value: Text)   // "key = value\n"
    | Blank                                  // "\n"
    | Header(path: string)                   // "[path]\n"

  /** How writing a section ends. */
  datatype Outcome =
    | Wrote(lines: seq<Line>, count: nat)   // returns count
    | Crashed                               // a getter dereferenced NULL
    | Strayed                               // an array without terminator, or a section pointer into storage

  /** The characters of one line, holes left out. */
  function Render(l: Line): (r: string)
  {
    match l
    case Assignment(key, Known(s)) => key + " = " + s + "\n"
    case Assignment(key, Hole(_)) => key + " = \n"
    case Blank => "\n"
    case Header(path) => "[" + path + "]\n"
  }

  /** The line printed for an entry that is not a section, or None when its getter crashes. */
  function FieldLine(e: Entry): (r: Option<Line>)
    requires e.Var?
    ensures r.Some? ==> r.value.Assignment? && r.value.key == CStr(e.name)
  {
    match Get(e.kind, e.p)
    case Printed(t) => Some(Assignment(CStr(e.name), Known(t)))
    case Failed(_) => Some(Assignment(CStr(e.name), Known(NullString)))
    case Indeterminate(why) =>
      if why == NullDereference then None else Some(Assignment(CStr(e.name), Hole(why)))
  }

  /** The path of a section below branch: "branch/name", or the name at the top. */
  function SectionPath(branch: string, name: string): (r: string)
    ensures branch == [] ==> r == name
    ensures branch != [] ==> |r| == |branch| + 1 + |name| && r[..|branch|] == branch && r[|branch|] == '/' && r[|branch| + 1..] == name
  {
    if branch != [] then branch + "/" + name else name
  }

  // ---------------------------------------------------------------------
  // The specification
  // ---------------------------------------------------------------------

  /** The first pass over an array: the lines of its fields and the indices of its sections. */
  datatype Pass =
    | Listed(lines: seq<Line>, sections: seq<nat>)
    | Crash
    | OffEnd

  /** Lines and sections found before a pass from later on. */
  function Prefix(lines: seq<Line>, sections: seq<nat>, p: Pass): (r: Pass)
  {
    match p
    case Listed(ls, ss) => Listed(lines + ls, sections + ss)
    case _ => p
  }

  /** Every queued index names a section entry of the array. */
  predicate Queued(entries: seq<Entry>, sections: seq<nat>) {
    forall k :: 0 <= k < |sections| ==> sections[k] < |entries| && IsSection(entries[sections[k]])
  }

  /** All lines are assignments. */
  predicate AllAssignments(lines: seq<Line>) {
    forall k :: 0 <= k < |lines| ==> lines[k].Assignment?
  }

  /** The first pass from entry i to the terminator. */
  function Walk(entries: seq<Entry>, i: nat): (r: Pass)
    requires i <= |entries|
    ensures r.Listed? ==> AllAssignments(r.lines) && Queued(entries, r.sections)
    decreases |entries| - i
  {
    if i == |entries| then OffEnd
    else if entries[i].Terminator? then Listed([], [])
    else if entries[i].kind == SectionKind then Prefix([], [i], Walk(entries, i + 1))
    else match FieldLine(entries[i])
      case None => Crash
      case Some(l) => Prefix([l], [], Walk(entries, i + 1))
  }

  /** Lines and a count written before the rest of a write. */
  function Then(lines: seq<Line>, count: nat, w: Outcome): (r: Outcome)
  {
    match w
    case Wrote(ls, c) => Wrote(lines + ls, count + c)
    case _ => w
  }

  /** The second pass: each queued section under its header, in queue order. */
  function Nested(entries: seq<Entry>, sections: seq<nat>, branch: string): (w: Outcome)
    requires Queued(entries, sections)
    decreases Children(entries), 0, |sections|
  {
    if sections == [] then Wrote([], 0)
    else
      var e := entries[sections[0]];
      var path := SectionPath(branch, CStr(e.name));
      var w := Written(e.p, path);
      if w.Wrote? then Then([Blank, Header(path)] + w.lines, w.count, Nested(entries, sections[1..], branch))
      else w
  }

  /** write_section(f, section, branch): what it writes and returns. */
  function Written(section: Ref, branch: string): (w: Outcome)
    decreases section, 1
  {
    match section
    case Null => Wrote([], 0)
    case Children(entries) =>
      (match Walk(entries, 0)
       case Crash => Crashed
       case OffEnd => Strayed
       case Listed(fields, sections) => Then(fields, |fields|, Nested(entries, sections, branch)))
    case _ => Strayed
  }

  /** The number of assignment lines. */
  function Assignments(lines: seq<Line>): (n: nat)
    ensures n <= |lines|
  {
    if lines == [] then 0 else (if lines[0].Assignment? then 1 else 0) + Assignments(lines[1..])
  }

  // ---------------------------------------------------------------------
  // Properties of the writer
  // ---------------------------------------------------------------------

  lemma {:induction false} AssignmentsAppend(a: seq<Line>, b: seq<Line>)
    ensures Assignments(a + b) == Assignments(a) + Assignments(b)
    decreases |a|
  {
    if a == [] {
      assert a + b == b;
    } else {
      assert (a + b)[1..] == a[1..] + b;
      AssignmentsAppend(a[1..], b);
    }
  }

  lemma {:induction false} AllAssignmentsCount(a: seq<Line>)
    requires AllAssignments(a)
    ensures Assignments(a) == |a|
    decreases |a|
  {
    if a != [] {
      AllAssignmentsCount(a[1..]);
    }
  }

  /** The count write_section returns is the number of "name = value" lines it wrote. */
  lemma {:induction false} CountIsAssignments(section: Ref, branch: string)
    ensures Written(section, branch).Wrote? ==>
      Written(section, branch).count == Assignments(Written(section, branch).lines)
    decreases section, 1
  {
    if section.Children? && Walk(section.entries, 0).Listed? {
      var entries := section.entries;
      var fields := Walk(entries, 0).lines;
      var sections := Walk(entries, 0).sections;
      NestedCount(entries, sections, branch);
      AllAssignmentsCount(fields);
      var n := Nested(entries, sections, branch);
      if n.Wrote? {
        AssignmentsAppend(fields, n.lines);
      }
    }
  }

  lemma {:induction false} NestedCount(entries: seq<Entry>, sections: seq<nat>, branch: string)
    requires Queued(entries, sections)
    ensures Nested(entries, sections, branch).Wrote? ==>
      Nested(entries, sections, branch).count == Assignments(Nested(entries, sections, branch).lines)
    decreases Children(entries), 0, |sections|
  {
    if sections != [] {
      var e := entries[sections[0]];
      var path := SectionPath(branch, CStr(e.name));
      CountIsAssignments(e.p, path);
      NestedCount(entries, sections[1..], branch);
      var w := Written(e.p, path);
      var rest := Nested(entries, sections[1..], branch);
      if w.Wrote? && rest.Wrote? {
        AssignmentsAppend([Blank, Header(path)] + w.lines, rest.lines);
        AssignmentsAppend([Blank, Header(path)], w.lines);
        assert Assignments([Blank, Header(path)]) == 0 by {
          assert [Blank, Header(path)][1..] == [Header(path)];
          assert [Header(path)][1..] == [];
        }
      }
    }
  }

  /**
   * The fields of an array come before anything of its sections: the
   * written text starts with one assignment per field, and every header
   * follows a blank line. Read back, the fields land in the section being
   * written, not in one of its subsections.
   */
  lemma {:induction false} FieldsFirst(entries: seq<Entry>, branch: string)
    requires Written(Children(entries), branch).Wrote? && Walk(entries, 0).Listed?
    ensures var fields := Walk(entries, 0).lines; var ls := Written(Children(entries), branch).lines;
      |fields| <= |ls| && ls[..|fields|] == fields && AllAssignments(fields)
      && (|ls| > |fields| ==> |ls| > |fields| + 1 && ls[|fields|] == Blank && ls[|fields| + 1].Header?)
  {
    var fields := Walk(entries, 0).lines;
    var sections := Walk(entries, 0).sections;
    var n := Nested(entries, sections, branch);
    assert n.Wrote?;
    var ls := Written(Children(entries), branch).lines;
    assert ls == fields + n.lines;
    if |ls| > |fields| {
      assert sections != [];
      var e := entries[sections[0]];
      var path := SectionPath(branch, CStr(e.name));
      var w := Written(e.p, path);
      assert w.Wrote?;
      var rest := Nested(entries, sections[1..], branch);
      assert n.lines == [Blank, Header(path)] + w.lines + rest.lines;
      assert ls[|fields|] == n.lines[0];
      assert ls[|fields| + 1] == n.lines[1];
    }
  }

  /** A NULL section writes nothing and returns 0. */
  lemma NullSectionWritesNothing(branch: string)
    ensures Written(Null, branch) == Wrote([], 0)
  {
  }

  // ---------------------------------------------------------------------
  // The writer
  // ---------------------------------------------------------------------

  lemma PrefixPrefix(a: seq<Line>, qa: seq<nat>, b: seq<Line>, qb: seq<nat>, p: Pass)
    ensures Prefix(a, qa, Prefix(b, qb, p)) == Prefix(a + b, qa + qb, p)
  {
    if p.Listed? {
      assert a + (b + p.lines) == (a + b) + p.lines;
      assert qa + (qb + p.sections) == (qa + qb) + p.sections;
    }
  }

  lemma ThenThen(a: seq<Line>, ca: nat, b: seq<Line>, cb: nat, w: Outcome)
    ensures Then(a, ca, Then(b, cb, w)) == Then(a + b, ca + cb, w)
  {
    if w.Wrote? {
      assert a + (b + w.lines) == (a + b) + w.lines;
    }
  }

  lemma PrefixDone(out: seq<Line>, queue: seq<nat>)
    ensures Prefix(out, queue, Listed([], [])) == Listed(out, queue)
  {
    assert out + [] == out && queue + [] == queue;
  }

  /** One entry of the first pass, before the walk over the entries after it. */
  lemma WalkStep(entries: seq<Entry>, i: nat, ls: seq<Line>, qs: seq<nat>)
    requires i < |entries| && entries[i].Var?
    requires entries[i].kind == SectionKind ==> ls == [] && qs == [i]
    requires entries[i].kind != SectionKind ==> |ls| == 1 && FieldLine(entries[i]) == Some(ls[0]) && qs == []
    ensures Walk(entries, i) == Prefix(ls, qs, Walk(entries, i + 1))
  {
    if entries[i].kind != SectionKind {
      assert ls == [FieldLine(entries[i]).value];
    }
  }

  /** The first pass, moved on by one entry. */
  lemma Advance(entries: seq<Entry>, i: nat, out: seq<Line>, queue: seq<nat>, ls: seq<Line>, qs: seq<nat>)
    requires i < |entries| && entries[i].Var?
    requires entries[i].kind == SectionKind ==> ls == [] && qs == [i]
    requires entries[i].kind != SectionKind ==> |ls| == 1 && FieldLine(entries[i]) == Some(ls[0]) && qs == []
    ensures Prefix(out, queue, Walk(entries, i)) == Prefix(out + ls, queue + qs, Walk(entries, i + 1))
  {
    WalkStep(entries, i, ls, qs);
    PrefixPrefix(out, queue, ls, qs, Walk(entries, i + 1));
  }

  /** One entry of the first loop: a field printed, a section queued, or the crash. */
  method FirstPassStep(entries: seq<Entry>, i: nat, out: seq<Line>, queue: seq<nat>)
    returns (crashed: bool, out': seq<Line>, queue': seq<nat>)
    requires i < |entries| && entries[i].Var?
    ensures crashed ==> Walk(entries, i) == Crash
    ensures !crashed ==> Prefix(out, queue, Walk(entries, i)) == Prefix(out', queue', Walk(entries, i + 1))
  {
    if entries[i].kind == SectionKind {
      Advance(entries, i, out, queue, [], [i]);
      return false, out, queue + [i];
    }
    var line := FieldLine(entries[i]);
    if line.None? {
      return true, out, queue;
    }
    var ls := [line.value];
    assert FieldLine(entries[i]) == Some(ls[0]);
    Advance(entries, i, out, queue, ls, []);
    return false, out + ls, queue;
  }

  /**
   * The first loop of write_section: the entries up to the terminator,
   * fields printed and sections queued by index.
   */
  method FirstPass(entries: seq<Entry>) returns (p: Pass)
    ensures p == Walk(entries, 0)
  {
    var out: seq<Line> := [];
    var queue: seq<nat> := [];
    var i := 0;
    while i < |entries| && entries[i].Var?
      invariant i <= |entries|
      invariant Walk(entries, 0) == Prefix(out, queue, Walk(entries, i))
      decreases |entries| - i
    {
      var crashed;
      crashed, out, queue := FirstPassStep(entries, i, out, queue);
      if crashed {
        return Crash;
      }
      i := i + 1;
    }
    if i == |entries| {
      return OffEnd;
    }
    assert Walk(entries, i) == Listed([], []);
    PrefixDone(out, queue);
    return Listed(out, queue);
  }

  /** The second pass, moved on by one queued section. */
  lemma NestedStep(entries: seq<Entry>, sections: seq<nat>, branch: string)
    requires Queued(entries, sections) && sections != []
    ensures Queued(entries, sections[1..])
    ensures var e := entries[sections[0]];
      var path := SectionPath(branch, CStr(e.name));
      var w := Written(e.p, path);
      Nested(entries, sections, branch)
        == if w.Wrote? then Then([Blank, Header(path)] + w.lines, w.count, Nested(entries, sections[1..], branch)) else w
  {
  }

  /**
   * write_section: the entries up to the terminator, fields printed and
   * sections queued by index; then each queued section under its header,
   * written by a recursive call.
   */
  method WriteSection(section: Ref, branch: string) returns (w: Outcome)
    ensures w == Written(section, branch)
    decreases section, 2
  {
    if section.Null? {
      return Wrote([], 0);
    }
    if !section.Children? {
      return Strayed;
    }
    var entries := section.entries;
    var pass := FirstPass(entries);
    if pass.Crash? {
      return Crashed;
    } else if pass.OffEnd? {
      return Strayed;
    }
    var out := pass.lines;
    var count: nat := |out|;
    var queue := pass.sections;
    var head := 0;
    while head < |queue|
      invariant head <= |queue|
      invariant Queued(entries, queue[head..])
      invariant Written(section, branch) == Then(out, count, Nested(entries, queue[head..], branch))
      decreases |queue| - head
    {
      var failed, sub;
      failed, sub, out, count := WriteQueued(section, queue[head..], branch, out, count);
      if failed {
        return sub;
      }
      assert queue[head..][1..] == queue[head + 1..];
      head := head + 1;
    }
    assert queue[head..] == [];
    return Wrote(out, count);
  }

  /**
   * One turn of write_section's second loop: the first queued section
   * written under its header, or the failure that stops the write.
   */
  method WriteQueued(section: Ref, sections: seq<nat>, branch: string, out: seq<Line>, count: nat)
    returns (failed: bool, sub: Outcome, out': seq<Line>, count': nat)
    requires section.Children? && Queued(section.entries, sections) && sections != []
    ensures failed ==> !sub.Wrote? && Then(out, count, Nested(section.entries, sections, branch)) == sub
    ensures !failed ==>
      Then(out, count, Nested(section.entries, sections, branch)) == Then(out', count', Nested(section.entries, sections[1..], branch))
    decreases section, 1
  {
    var entries := section.entries;
    var e := entries[sections[0]];
    var path := SectionPath(branch, CStr(e.name));
    NestedStep(entries, sections, branch);
    sub := WriteSection(e.p, path);
    if !sub.Wrote? {
      return true, sub, out, count;
    }
    ThenThen(out, count, [Blank, Header(path)] + sub.lines, sub.count, Nested(entries, sections[1..], branch));
    return false, sub, out + ([Blank, Header(path)] + sub.lines), count + sub.count;
  }

  /** conf_save: -1 when the file cannot be opened, otherwise what write_section returns. */
  method ConfSave(opens: bool, root: Ref) returns (rc: int, w: Outcome)
    ensures !opens ==> rc == -1 && w == Wrote([], 0)
    ensures opens ==> w == Written(root, [])
    ensures opens && w.Wrote? ==> rc == w.count && rc == Assignments(w.lines)
  {
    if !opens {
      return -1, Wrote([], 0);
    }
    w := WriteSection(root, []);
    CountIsAssignments(root, []);
    rc := if w.Wrote? then w.count else 0;
  }

  /** conf_dump: the same text to standard output. */
  method ConfDump(root: Ref) returns (rc: int, w: Outcome)
    ensures w == Written(root, [])
    ensures w.Wrote? ==> rc == w.count && rc == Assignments(w.lines)
  {
    w := WriteSection(root, []);
    CountIsAssignments(root, []);
    rc := if w.Wrote? then w.count else 0;
  }
}
