/**
 * The expect-style dialogue of src/chat.c: serial_chat sends a request and
 * waits until one of up to 64 expected strings has arrived, while
 * chat_xmt_log and chat_recv_log print what goes out and what comes in,
 * control characters escaped and long output cut into lines.
 *
 * Characters are ints holding C's signed char values. Strings are the
 * contents of C strings, read through At, which gives the NUL at and
 * after the end. The serial port is a parameter: the result of the send
 * and the sequence of results the receives return.
 */
module Chat {
  import ConfPrivate

  /** CHAT_LOG_LINE_MAX: a log line is flushed once this many characters are buffered. */
  const LineMax: nat := 72
  /** CHAT_WAIT_LIST_MAX: at most this many expected strings. */
  const WaitListMax: nat := 64

  const Nul: int := 0
  const Tab: int := 9
  const Newline: int := 10
  const Return: int := 13
  const Space: int := 32
  const Backslash: int := 92

  /** s[k] of a C string: the NUL at and after its end. */
  function At(s: seq<int>, k: nat): (c: int)
    ensures k < |s| ==> c == s[k]
    ensures k >= |s| ==> c == Nul
  {
    if k < |s| then s[k] else Nul
  }

  /** The string holds no NUL, so it is all of a C string. */
  predicate NoNul(s: seq<int>) {
    forall k :: 0 <= k < |s| ==> s[k] != Nul
  }

  // ---------------------------------------------------------------------
  // Escaping
  // ---------------------------------------------------------------------

  /** tohex: the digit printed for a nibble, as written. */
  function ToHex(n: int): (d: int)
  {
    if n > 9 then n - 9 + 'a' as int else n + '0' as int
  }

  /** tohex prints 0..9 as decimal digits but 10..15 as 'b'..'g': 'a' never appears. */
  lemma ToHexSkipsA()
    ensures forall n :: 0 <= n <= 9 ==> ToHex(n) == '0' as int + n
    ensures ToHex(10) == 'b' as int && ToHex(15) == 'g' as int
    ensures forall n :: 0 <= n < 16 ==> ToHex(n) != 'a' as int
  {
  }

  /** The hexadecimal digit of a nibble, as tohex is evidently meant to give it. */
  function HexDigit(n: int): (d: int)
    requires 0 <= n < 16
  {
    if n > 9 then n - 10 + 'a' as int else n + '0' as int
  }

  /** The intended digits are exactly "0123456789abcdef". */
  lemma HexDigitIsHex(n: int)
    requires 0 <= n < 16
    ensures HexDigit(n) == "0123456789abcdef"[n] as int
  {
  }

  /** Different nibbles get different digits, under tohex as written too. */
  lemma ToHexInjective(m: int, n: int)
    requires 0 <= m < 16 && 0 <= n < 16 && m != n
    ensures ToHex(m) != ToHex(n) && HexDigit(m) != HexDigit(n)
  {
  }

  /**
   * How the loggers print one character: NUL prints nothing, CR, TAB and
   * LF as \r, \t and \n, any other character below ' ' (negative ones
   * included) as a backslash and its low then its high nibble, anything
   * else as itself.
   */
  function Escape(c: int): (e: seq<int>)
    ensures c == Nul <==> e == []
    ensures |e| <= 3
    ensures |e| > 1 ==> e[0] == Backslash
  {
    if c == Nul then []
    else if c == Return then [Backslash, 'r' as int]
    else if c == Tab then [Backslash, 't' as int]
    else if c == Newline then [Backslash, 'n' as int]
    else if c < Space then [Backslash, ToHex(c % 16), ToHex((c / 16) % 16)]
    else [c]
  }

  /** A nibble pair determines a signed char below ' '. */
  lemma NibblesDetermine(a: int, b: int)
    requires -128 <= a < Space && -128 <= b < Space
    requires a % 16 == b % 16 && (a / 16) % 16 == (b / 16) % 16
    ensures a == b
  {
    assert -8 <= a / 16 <= 1 && -8 <= b / 16 <= 1;
    assert a / 16 == b / 16;
  }

  /** Two different signed chars never print the same. */
  lemma EscapeInjective(a: int, b: int)
    requires -128 <= a < 128 && -128 <= b < 128
    requires Escape(a) == Escape(b)
    ensures a == b
  {
    if a != Nul && b != Nul && |Escape(a)| == 3 {
      ToHexDigits(a % 16, b % 16);
      ToHexDigits((a / 16) % 16, (b / 16) % 16);
      NibblesDetermine(a, b);
    }
  }

  /** ToHex tells nibbles apart. */
  lemma ToHexDigits(m: int, n: int)
    requires 0 <= m < 16 && 0 <= n < 16 && ToHex(m) == ToHex(n)
    ensures m == n
  {
  }

  /** Everything a string prints, character by character. */
  function EscapeAll(s: seq<int>): (e: seq<int>)
    decreases |s|
  {
    if s == [] then [] else Escape(s[0]) + EscapeAll(s[1..])
  }

  lemma {:induction false} EscapeAllAppend(a: seq<int>, b: seq<int>)
    ensures EscapeAll(a + b) == EscapeAll(a) + EscapeAll(b)
    decreases |a|
  {
    if a == [] {
      assert a + b == b;
    } else {
      assert (a + b)[1..] == a[1..] + b;
      EscapeAllAppend(a[1..], b);
    }
  }

  // ---------------------------------------------------------------------
  // The log
  // ---------------------------------------------------------------------

  /** A printed line: "--> ..." for what was sent, "<-- ..." for what was received. */
  datatype Line = Sent(text: seq<int>) | Received(text: seq<int>)

  /** What chat_recv_log has buffered, and every line printed so far. */
  datatype LogState = LogState(pending: seq<int>, lines: seq<Line>)

  /** The received lines' text, one after the other. */
  function ReceivedText(lines: seq<Line>): (t: seq<int>)
    decreases |lines|
  {
    if lines == [] then []
    else
      var last := lines[|lines| - 1];
      ReceivedText(lines[..|lines| - 1]) + (if last.Received? then last.text else [])
  }

  /** All received output, printed or still buffered. */
  function RecvText(s: LogState): seq<int> {
    ReceivedText(s.lines) + s.pending
  }

  /** Every line is at most 74 characters: 71 buffered plus a 3-character escape. */
  predicate LinesShort(lines: seq<Line>) {
    forall k :: 0 <= k < |lines| ==> |lines[k].text| <= LineMax + 2
  }

  /**
   * chat_recv_log with logging on: the character is escaped onto the
   * buffer, which is printed and emptied when it holds 72 characters or
   * more, or the character was NUL or LF, unless it is empty.
   */
  function Recv(s: LogState, c: int): (r: LogState)
    ensures |s.pending| < LineMax ==> |r.pending| < LineMax
  {
    var p := s.pending + Escape(c);
    if (|p| >= LineMax || c == Nul || c == Newline) && |p| > 0 then LogState([], s.lines + [Received(p)])
    else LogState(p, s.lines)
  }

  /** chat_recv_log called on each character in turn. */
  function RecvAll(s: LogState, cs: seq<int>): (r: LogState)
    decreases |cs|
  {
    if cs == [] then s else RecvAll(Recv(s, cs[0]), cs[1..])
  }

  /** Received text is neither lost, duplicated nor reordered by the buffering. */
  lemma RecvKeepsText(s: LogState, c: int)
    ensures RecvText(Recv(s, c)) == RecvText(s) + Escape(c)
  {
    var p := s.pending + Escape(c);
    var ls := s.lines + [Received(p)];
    assert ls[..|ls| - 1] == s.lines;
  }

  lemma {:induction false} RecvAllKeepsText(s: LogState, cs: seq<int>)
    ensures RecvText(RecvAll(s, cs)) == RecvText(s) + EscapeAll(cs)
    decreases |cs|
  {
    if cs != [] {
      RecvKeepsText(s, cs[0]);
      RecvAllKeepsText(Recv(s, cs[0]), cs[1..]);
    }
  }

  /** The buffer never holds 72 characters between calls, and no line exceeds 74. */
  lemma {:induction false} RecvAllShort(s: LogState, cs: seq<int>)
    requires |s.pending| < LineMax && LinesShort(s.lines)
    ensures |RecvAll(s, cs).pending| < LineMax && LinesShort(RecvAll(s, cs).lines)
    decreases |cs|
  {
    if cs != [] {
      RecvAllShort(Recv(s, cs[0]), cs[1..]);
    }
  }

  /** The log after chat_recv_log has seen cs, when logging is on. */
  function LogAfter(debug: bool, s: LogState, cs: seq<int>): LogState {
    if debug then RecvAll(s, cs) else s
  }

  /** One chat_recv_log call, then the rest. */
  lemma LogAfterStep(debug: bool, s: LogState, c: int, rest: seq<int>)
    ensures LogAfter(debug, s, [c] + rest) == LogAfter(debug, if debug then Recv(s, c) else s, rest)
  {
    assert ([c] + rest)[1..] == rest;
  }

  /** A NUL flushes the buffer, so after a final NUL nothing is left unprinted. */
  lemma NulFlushes(s: LogState)
    ensures Recv(s, Nul).pending == []
    ensures s.pending != [] ==> Recv(s, Nul).lines == s.lines + [Received(s.pending)]
  {
    assert s.pending + Escape(Nul) == s.pending;
  }

  /**
   * One line of chat_xmt_log: from position j of s onto line, until the
   * line holds 72 characters or more, or a NUL or LF has been read.
   * Returns the line, the position after it and whether it ended on NUL.
   */
  function Chunk(s: seq<int>, j: nat, line: seq<int>): (r: (seq<int>, nat, bool))
    requires j <= |s|
    ensures |line| <= LineMax + 2 ==> |r.0| <= LineMax + 2
    ensures |line| < LineMax ==> j < r.1
    ensures j <= r.1 <= |s| + 1
    ensures !r.2 ==> r.1 <= |s|
    decreases LineMax + 3 - |line|
  {
    if |line| >= LineMax then (line, j, false)
    else
      var c := At(s, j);
      if c == Nul then (line, j + 1, true)
      else if c == Newline then (line + Escape(c), j + 1, false)
      else Chunk(s, j + 1, line + Escape(c))
  }

  /** The lines chat_xmt_log prints from position j on. */
  function XmtFrom(s: seq<int>, j: nat): (ls: seq<seq<int>>)
    requires j <= |s|
    ensures |ls| > 0
    decreases |s| + 1 - j
  {
    var r := Chunk(s, j, []);
    [r.0] + (if r.2 then [] else XmtFrom(s, r.1))
  }

  /** The lines from position j: one chunk's, then those after it unless it ended on NUL. */
  lemma SentLinesStep(s: seq<int>, j: nat)
    requires j <= |s|
    ensures var r := Chunk(s, j, []);
      SentLines(XmtFrom(s, j)) == [Sent(r.0)] + (if r.2 then [] else SentLines(XmtFrom(s, r.1)))
  {
    var r := Chunk(s, j, []);
    var ls := XmtFrom(s, j);
    assert ls[1..] == (if r.2 then [] else XmtFrom(s, r.1));
  }

  /** chat_xmt_log with logging on: every line it prints. */
  function XmtLines(s: seq<int>): seq<seq<int>> {
    XmtFrom(s, 0)
  }

  function SentLines(ls: seq<seq<int>>): (r: seq<Line>)
    ensures |r| == |ls|
    decreases |ls|
  {
    if ls == [] then [] else [Sent(ls[0])] + SentLines(ls[1..])
  }

  function Flatten(ls: seq<seq<int>>): seq<int>
    decreases |ls|
  {
    if ls == [] then [] else ls[0] + Flatten(ls[1..])
  }

  /** The escaped text of s[j..m] starts with the escape of s[j]. */
  lemma EscapeAllHead(s: seq<int>, j: nat, m: nat)
    requires j < m <= |s|
    ensures EscapeAll(s[j..m]) == Escape(s[j]) + EscapeAll(s[j + 1..m])
  {
    assert s[j..m][0] == s[j];
    assert s[j..m][1..] == s[j + 1..m];
  }

  /** A chunk holds the escaped text of exactly the characters it read. */
  lemma {:induction false} ChunkText(s: seq<int>, j: nat, line: seq<int>)
    requires j <= |s|
    ensures Chunk(s, j, line).0 == line + EscapeAll(s[j..ConfPrivate.Min(Chunk(s, j, line).1, |s|)])
    decreases LineMax + 3 - |line|
  {
    var r := Chunk(s, j, line);
    if |line| >= LineMax {
      assert s[j..ConfPrivate.Min(r.1, |s|)] == [];
    } else {
      var c := At(s, j);
      if j == |s| {
        assert s[j..ConfPrivate.Min(r.1, |s|)] == [];
      } else {
        var m := ConfPrivate.Min(r.1, |s|);
        EscapeAllHead(s, j, m);
        if c == Nul || c == Newline {
          assert s[j + 1..m] == [];
        } else {
          ChunkText(s, j + 1, line + Escape(c));
          var rest := EscapeAll(s[j + 1..m]);
          assert (line + Escape(c)) + rest == line + (Escape(c) + rest);
        }
      }
    }
  }

  /** Every line chat_xmt_log prints is at most 74 characters. */
  lemma {:induction false} XmtLinesShort(s: seq<int>, j: nat)
    requires j <= |s|
    ensures forall k :: 0 <= k < |XmtFrom(s, j)| ==> |XmtFrom(s, j)[k]| <= LineMax + 2
    decreases |s| + 1 - j
  {
    var r := Chunk(s, j, []);
    if !r.2 {
      XmtLinesShort(s, r.1);
    }
  }

  lemma FlattenCons(x: seq<int>, ls: seq<seq<int>>)
    ensures Flatten([x] + ls) == x + Flatten(ls)
  {
    assert ([x] + ls)[1..] == ls;
  }

  lemma FlattenOne(x: seq<int>)
    ensures Flatten([x]) == x
  {
    assert [x][1..] == [];
    assert x + [] == x;
  }

  /** The first chunk of a line holds the escaped text of exactly the characters it read. */
  lemma FirstChunkText(s: seq<int>, j: nat)
    requires j <= |s|
    ensures Chunk(s, j, []).0 == EscapeAll(s[j..ConfPrivate.Min(Chunk(s, j, []).1, |s|)])
  {
    ChunkText(s, j, []);
    var x := EscapeAll(s[j..ConfPrivate.Min(Chunk(s, j, []).1, |s|)]);
    assert [] + x == x;
  }

  /** The text of the lines from j when the first chunk ends on NUL: that chunk's, the rest of the string. */
  lemma LastChunkText(s: seq<int>, j: nat)
    requires j <= |s| && NoNul(s) && Chunk(s, j, []).2
    ensures Flatten(XmtFrom(s, j)) == EscapeAll(s[j..])
  {
    var r := Chunk(s, j, []);
    FirstChunkText(s, j);
    NulAtEnd(s, j);
    assert s[j..|s|] == s[j..];
    assert XmtFrom(s, j) == [r.0];
    FlattenOne(r.0);
  }

  /** In a NUL-free string the only NUL a chunk can end on is the terminator. */
  lemma NulAtEnd(s: seq<int>, j: nat)
    requires j <= |s| && NoNul(s) && Chunk(s, j, []).2
    ensures Chunk(s, j, []).1 == |s| + 1 && ConfPrivate.Min(Chunk(s, j, []).1, |s|) == |s|
  {
    ChunkEnd(s, j, []);
  }

  /** The text of the lines from j when the first chunk does not end on NUL: that chunk's, then the rest. */
  lemma NextChunkText(s: seq<int>, j: nat)
    requires j <= |s| && !Chunk(s, j, []).2
    ensures Chunk(s, j, []).1 <= |s|
    ensures Flatten(XmtFrom(s, j)) == EscapeAll(s[j..Chunk(s, j, []).1]) + Flatten(XmtFrom(s, Chunk(s, j, []).1))
  {
    var r := Chunk(s, j, []);
    FirstChunkText(s, j);
    assert ConfPrivate.Min(r.1, |s|) == r.1;
    assert XmtFrom(s, j) == [r.0] + XmtFrom(s, r.1);
    FlattenCons(r.0, XmtFrom(s, r.1));
  }

  /** The printed lines hold the escaped text of all of a NUL-free string, in order. */
  lemma {:induction false} XmtKeepsText(s: seq<int>, j: nat)
    requires j <= |s| && NoNul(s)
    ensures Flatten(XmtFrom(s, j)) == EscapeAll(s[j..])
    decreases |s| + 1 - j
  {
    if Chunk(s, j, []).2 {
      LastChunkText(s, j);
    } else {
      var k := Chunk(s, j, []).1;
      NextChunkText(s, j);
      XmtKeepsText(s, k);
      assert s[j..] == s[j..k] + s[k..];
      EscapeAllAppend(s[j..k], s[k..]);
    }
  }

  /** A chunk that ends on NUL read it at the position before the one it returns. */
  lemma {:induction false} ChunkEnd(s: seq<int>, j: nat, line: seq<int>)
    requires j <= |s| && Chunk(s, j, line).2
    ensures At(s, Chunk(s, j, line).1 - 1) == Nul
    ensures forall q :: j <= q < Chunk(s, j, line).1 - 1 ==> s[q] != Newline
    decreases LineMax + 3 - |line|
  {
    var c := At(s, j);
    if c != Nul && c != Newline {
      ChunkEnd(s, j + 1, line + Escape(c));
    }
  }

  /**
   * A string ending in LF makes chat_xmt_log print an empty last line:
   * the LF ends one line and the NUL after it is read on a new one.
   */
  lemma {:induction false} NewlineThenEmptyLine(s: seq<int>, j: nat)
    requires j <= |s| && NoNul(s) && |s| > 0 && s[|s| - 1] == Newline
    ensures XmtFrom(s, j)[|XmtFrom(s, j)| - 1] == []
    decreases |s| + 1 - j
  {
    var r := Chunk(s, j, []);
    if r.2 {
      ChunkEnd(s, j, []);
      assert r.1 - 1 >= |s|;
      assert j >= |s|;
    } else {
      NewlineThenEmptyLine(s, r.1);
    }
  }

  // ---------------------------------------------------------------------
  // Waiting for the expected strings
  // ---------------------------------------------------------------------

  /** One variadic argument of serial_chat: a string or the NULL that ends the list. */
  datatype Arg = Str(s: seq<int>) | NullArg

  /** The k-th argument; the list is read as ending in NULL. */
  function ArgAt(args: seq<Arg>, k: nat): Arg {
    if k < |args| then args[k] else NullArg
  }

  /** The expected strings from argument k on: up to the first NULL, at most 64 in all. */
  function CollectFrom(args: seq<Arg>, k: nat): (ps: seq<seq<int>>)
    requires k <= WaitListMax
    ensures |ps| <= WaitListMax - k
    ensures forall m :: 0 <= m < |ps| ==> ArgAt(args, k + m) == Str(ps[m])
    ensures k + |ps| < WaitListMax ==> ArgAt(args, k + |ps|) == NullArg
    decreases WaitListMax - k
  {
    if k == WaitListMax then []
    else match ArgAt(args, k)
      case NullArg => []
      case Str(s) => [s] + CollectFrom(args, k + 1)
  }

  function Collected(args: seq<Arg>): seq<seq<int>> {
    CollectFrom(args, 0)
  }

  /** What one serial_recv returns: its result, and the byte then in the buffer. */
  datatype Receive = Receive(ret: int, c: int)

  /** The n-th receive; once the given results are used up the line stays silent. */
  function Incoming(input: seq<Receive>, n: nat): Receive {
    if n < |input| then input[n] else Receive(0, Nul)
  }

  /** The bytes of the first n receives. */
  function BytesIn(input: seq<Receive>, n: nat): (cs: seq<int>)
    requires n <= |input|
    ensures |cs| == n
  {
    if n == 0 then [] else BytesIn(input, n - 1) + [input[n - 1].c]
  }

  /** A pattern's progress after one byte: one further on a match, back to 0 otherwise. */
  function Advance(p: seq<int>, k: nat, c: int): nat {
    if c == At(p, k) then k + 1 else 0
  }

  /** A pattern's progress after the bytes cs. */
  function Progress(p: seq<int>, cs: seq<int>): nat
    decreases |cs|
  {
    if cs == [] then 0 else Advance(p, Progress(p, cs[..|cs| - 1]), cs[|cs| - 1])
  }

  /** The pattern has been matched up to its NUL. */
  predicate Done(p: seq<int>, k: nat) {
    At(p, k) == Nul
  }

  /** The lowest pattern that is done, or |ps| when none is. */
  function FirstDone(ps: seq<seq<int>>, cs: seq<int>): (i: nat)
    ensures i <= |ps|
    ensures forall m :: 0 <= m < i ==> !Done(ps[m], Progress(ps[m], cs))
    ensures i < |ps| ==> Done(ps[i], Progress(ps[i], cs))
    decreases |ps|
  {
    if ps == [] then 0
    else if Done(ps[0], Progress(ps[0], cs)) then 0
    else 1 + FirstDone(ps[1..], cs)
  }

  /** The outcome of serial_chat: its return value and every byte passed to chat_recv_log. */
  datatype Reply = Reply(ret: int, logged: seq<int>)

  /**
   * The wait loop after n receives: i+1 for the lowest pattern done,
   * otherwise the next receive, which ends the wait when it returns 0 or
   * less. The log is flushed with a NUL on the way out.
   */
  function Wait(ps: seq<seq<int>>, input: seq<Receive>, n: nat): (r: Reply)
    requires n <= |input|
    decreases |input| - n
  {
    var i := FirstDone(ps, BytesIn(input, n));
    if i < |ps| then Reply(i + 1, [Nul])
    else
      var r := Incoming(input, n);
      if r.ret <= 0 then Reply(r.ret, [r.c, Nul])
      else
        var w := Wait(ps, input, n + 1);
        Reply(w.ret, [r.c] + w.logged)
  }

  /** serial_chat: a failed send is returned at once, otherwise the wait decides. */
  function ChatReply(args: seq<Arg>, sent: int, input: seq<Receive>): Reply {
    if sent < 0 then Reply(sent, []) else Wait(Collected(args), input, 0)
  }

  // ---------------------------------------------------------------------
  // What serial_chat promises
  // ---------------------------------------------------------------------

  /** A negative send result is returned before anything is received. */
  lemma FailedSendReturned(args: seq<Arg>, sent: int, input: seq<Receive>)
    requires sent < 0
    ensures ChatReply(args, sent, input) == Reply(sent, [])
  {
  }

  /** The wait returns a pattern's number (from 1) or what a receive returned (0 or less). */
  lemma {:induction false} WaitRange(ps: seq<seq<int>>, input: seq<Receive>, n: nat)
    requires n <= |input|
    ensures var r := Wait(ps, input, n).ret;
      (1 <= r <= |ps|) || (r <= 0 && (r == 0 || exists m :: n <= m < |input| && input[m].ret == r))
    decreases |input| - n
  {
    var i := FirstDone(ps, BytesIn(input, n));
    if i == |ps| && Incoming(input, n).ret > 0 {
      WaitRange(ps, input, n + 1);
    }
  }

  lemma ChatRange(args: seq<Arg>, sent: int, input: seq<Receive>)
    requires sent >= 0
    ensures var r := ChatReply(args, sent, input).ret;
      (1 <= r <= |Collected(args)| <= WaitListMax) || (r <= 0 && (r == 0 || exists m :: 0 <= m < |input| && input[m].ret == r))
  {
    WaitRange(Collected(args), input, 0);
  }

  /** The bytes cs end with the first k characters of p. */
  predicate EndsWith(cs: seq<int>, p: seq<int>, k: nat) {
    k <= |p| && k <= |cs| && cs[|cs| - k..] == p[..k]
  }

  /** Progress k means the last k bytes spell the start of the pattern. */
  lemma {:induction false} ProgressIsSuffix(p: seq<int>, cs: seq<int>)
    requires Progress(p, cs) <= |p|
    ensures EndsWith(cs, p, Progress(p, cs))
    decreases |cs|
  {
    if cs != [] {
      var front := cs[..|cs| - 1];
      var k := Progress(p, front);
      if Progress(p, cs) > 0 {
        ProgressIsSuffix(p, front);
        assert cs[|cs| - (k + 1)..] == front[|front| - k..] + [cs[|cs| - 1]];
        assert p[..k + 1] == p[..k] + [p[k]];
      }
    }
  }

  /** Progress on a NUL-free pattern not yet done stays within the pattern after one more byte. */
  lemma ProgressStaysIn(p: seq<int>, cs: seq<int>, c: int)
    requires NoNul(p) && !Done(p, Progress(p, cs))
    ensures Progress(p, cs + [c]) <= |p|
  {
    assert (cs + [c])[..|cs|] == cs;
  }

  /** No pattern has run past its end. */
  predicate InBounds(ps: seq<seq<int>>, cs: seq<int>) {
    forall m :: 0 <= m < |ps| ==> Progress(ps[m], cs) <= |ps[m]|
  }

  /**
   * When the wait returns i+1, the bytes received by then end with
   * pattern i, and no lower pattern is done.
   */
  lemma {:induction false} WaitFound(ps: seq<seq<int>>, input: seq<Receive>, n: nat)
    requires n <= |input|
    requires forall m :: 0 <= m < |ps| ==> NoNul(ps[m])
    requires InBounds(ps, BytesIn(input, n))
    ensures var r := Wait(ps, input, n).ret;
      0 < r <= |ps| ==> exists t :: (n <= t <= |input| &&
        EndsWith(BytesIn(input, t), ps[r - 1], |ps[r - 1]|) &&
        forall m :: 0 <= m < r - 1 ==> !Done(ps[m], Progress(ps[m], BytesIn(input, t))))
    decreases |input| - n
  {
    var cs := BytesIn(input, n);
    var i := FirstDone(ps, cs);
    if i < |ps| {
      FoundNow(ps, cs, i);
      assert Wait(ps, input, n).ret == i + 1;
    } else if Incoming(input, n).ret > 0 {
      WaitStep(ps, input, n);
      WaitFound(ps, input, n + 1);
    }
  }

  /** A pattern done now ends the bytes received so far. */
  lemma FoundNow(ps: seq<seq<int>>, cs: seq<int>, i: nat)
    requires InBounds(ps, cs) && i == FirstDone(ps, cs) && i < |ps| && NoNul(ps[i])
    ensures EndsWith(cs, ps[i], |ps[i]|)
  {
    ProgressIsSuffix(ps[i], cs);
    assert Progress(ps[i], cs) == |ps[i]|;
  }

  /** A byte received while no pattern is done: the wait goes on with the same outcome, and within bounds. */
  lemma WaitStep(ps: seq<seq<int>>, input: seq<Receive>, n: nat)
    requires n <= |input|
    requires forall m :: 0 <= m < |ps| ==> NoNul(ps[m])
    requires FirstDone(ps, BytesIn(input, n)) == |ps| && Incoming(input, n).ret > 0
    ensures n < |input| && Wait(ps, input, n).ret == Wait(ps, input, n + 1).ret
    ensures InBounds(ps, BytesIn(input, n + 1))
  {
    var cs := BytesIn(input, n);
    var c := input[n].c;
    assert BytesIn(input, n + 1) == cs + [c];
    forall m | 0 <= m < |ps|
      ensures Progress(ps[m], cs + [c]) <= |ps[m]|
    {
      ProgressStaysIn(ps[m], cs, c);
    }
  }

  lemma ChatFound(args: seq<Arg>, sent: int, input: seq<Receive>)
    requires sent >= 0
    requires forall m :: 0 <= m < |Collected(args)| ==> NoNul(Collected(args)[m])
    ensures var ps := Collected(args); var r := ChatReply(args, sent, input).ret;
      0 < r <= |ps| ==> exists t :: (0 <= t <= |input| &&
        EndsWith(BytesIn(input, t), ps[r - 1], |ps[r - 1]|) &&
        forall m :: 0 <= m < r - 1 ==> !Done(ps[m], Progress(ps[m], BytesIn(input, t))))
  {
    WaitRange(Collected(args), input, 0);
    WaitFound(Collected(args), input, 0);
  }

  /** An empty expected string is found at once, before anything is received. */
  lemma EmptyPatternAtOnce(ps: seq<seq<int>>, input: seq<Receive>, i: nat)
    requires i < |ps| && ps[i] == []
    requires forall m :: 0 <= m < i ==> ps[m] != [] && NoNul(ps[m])
    ensures Wait(ps, input, 0) == Reply(i + 1, [Nul])
  {
    assert FirstDone(ps, []) == i;
  }

  /**
   * A mismatch resets a pattern without testing the byte again, so "ab"
   * is not found in "aab" although "aab" ends with it.
   */
  lemma RestartMissesOverlap(a: int, b: int)
    requires a != b && a != Nul && b != Nul
    ensures EndsWith([a, a, b], [a, b], 2)
    ensures !Done([a, b], Progress([a, b], [a, a, b]))
  {
    assert [a, a, b][..2][..1] == [a];
    assert [a, a, b][..2] == [a, a];
    assert [a, a, b][..1] == [a];
    assert [a, a][..1] == [a];
    assert Progress([a, b], [a]) == 1 by {
      assert [a][..0] == [];
    }
  }

  // ---------------------------------------------------------------------
  // The module state and the operations on it
  // ---------------------------------------------------------------------

  /**
   * The state src/chat.c keeps across calls: the chat settings and the
   * static buffer and index of chat_recv_log, with the lines printed so far.
   */
  class Chat {
    var debug: bool
    var timeout: nat
    const buf: array<int>
    var i: int
    var lines: seq<Line>

    predicate Valid()
      reads this
    {
      buf.Length == 2 * LineMax && 0 <= i < LineMax
    }

    /** The log as a value: what is buffered and what has been printed. */
    function Log(): LogState
      reads this, buf
      requires Valid()
    {
      LogState(buf[..i], lines)
    }

    /** The initial settings: logging on, a 200 ms receive timeout, nothing buffered. */
    constructor ()
      ensures Valid() && debug && timeout == 200 && Log() == LogState([], [])
    {
      debug := true;
      timeout := 200;
      buf := new int[2 * LineMax];
      i := 0;
      lines := [];
    }

    /** chat_timeout */
    method SetTimeout(tmo: nat)
      requires Valid()
      modifies this
      ensures Valid() && timeout == tmo && debug == old(debug) && Log() == old(Log())
    {
      timeout := tmo;
    }

    /** chat_debug */
    method SetDebug(enable: bool)
      requires Valid()
      modifies this
      ensures Valid() && debug == enable && timeout == old(timeout) && Log() == old(Log())
    {
      debug := enable;
    }

    /** chat_recv_log */
    method RecvLog(c: int)
      requires Valid()
      modifies this, buf
      ensures Valid() && debug == old(debug) && timeout == old(timeout)
      ensures Log() == if old(debug) then Recv(old(Log()), c) else old(Log())
    {
      if !debug {
        return;
      }
      ghost var p := buf[..i] + Escape(c);
      i := PutEscaped(buf, i, c);
      if i >= LineMax || c == Nul || c == Newline {
        if i > 0 {
          buf[i] := Nul;
          assert buf[..i] == p;
          lines := lines + [Received(buf[..i])];
          i := 0;
        }
      }
    }

    /** chat_xmt_log */
    method XmtLog(s: seq<int>)
      requires Valid()
      modifies this
      ensures Valid() && debug == old(debug) && timeout == old(timeout) && i == old(i)
      ensures lines == old(lines) + (if debug then SentLines(XmtLines(s)) else [])
    {
      if !debug {
        return;
      }
      var b := new int[2 * LineMax];
      var j := 0;
      while true
        invariant Valid() && i == old(i) && debug == old(debug) && timeout == old(timeout)
        invariant j <= |s|
        invariant old(lines) + SentLines(XmtFrom(s, 0)) == lines + SentLines(XmtFrom(s, j))
        decreases |s| - j
      {
        var next, done := LogChunk(s, j, b);
        if done {
          break;
        }
        j := next;
      }
    }

    /** One line of chat_xmt_log: filled in b from position j, then printed. */
    method LogChunk(s: seq<int>, j: nat, b: array<int>) returns (next: nat, done: bool)
      requires Valid() && j <= |s| && b.Length == 2 * LineMax
      modifies this, b
      ensures Valid() && i == old(i) && debug == old(debug) && timeout == old(timeout)
      ensures !done ==> j < next <= |s|
      ensures old(lines) + SentLines(XmtFrom(s, j))
        == lines + (if done then [] else SentLines(XmtFrom(s, next)))
    {
      var line, cp, c := FillLine(s, j, b);
      SentLinesStep(s, j);
      lines := lines + [Sent(line)];
      next, done := cp, c == Nul;
    }

    /**
     * serial_chat: log and send the request, then wait for one of the
     * expected strings. sent is what serial_send returns and input what
     * the successive serial_recv calls return.
     */
    method SerialChat(req: seq<int>, args: seq<Arg>, sent: int, input: seq<Receive>) returns (ret: int)
      requires Valid()
      modifies this, buf
      ensures Valid() && debug == old(debug) && timeout == old(timeout)
      ensures ret == ChatReply(args, sent, input).ret
      ensures Log() == if old(debug)
        then RecvAll(LogState(old(Log()).pending, old(lines) + SentLines(XmtLines(req))), ChatReply(args, sent, input).logged)
        else old(Log())
    {
      var rval := CollectArgs(args);

      XmtLog(req);
      if sent < 0 {
        return sent;
      }

      ret := AwaitPatterns(rval, input);
    }

    /** The wait loop of serial_chat, after a successful send. */
    method AwaitPatterns(rval: seq<seq<int>>, input: seq<Receive>) returns (ret: int)
      requires Valid() && |rval| <= WaitListMax
      modifies this, buf
      ensures Valid() && debug == old(debug) && timeout == old(timeout)
      ensures ret == Wait(rval, input, 0).ret
      ensures Log() == LogAfter(old(debug), old(Log()), Wait(rval, input, 0).logged)
    {
      var rcnt := |rval|;
      var pos := new nat[WaitListMax];
      ResetPositions(pos, rcnt);
      assert BytesIn(input, 0) == [];

      ghost var reply := Wait(rval, input, 0);
      ghost var target := LogAfter(debug, Log(), reply.logged);
      var n := 0;
      while true
        invariant Valid() && debug == old(debug) && timeout == old(timeout)
        invariant n <= |input|
        invariant Tracks(pos, rval, BytesIn(input, n))
        invariant Wait(rval, input, n).ret == reply.ret
        invariant target == LogAfter(debug, Log(), Wait(rval, input, n).logged)
        decreases |input| - n
      {
        var m := FirstComplete(rval, pos, BytesIn(input, n));
        if m < rcnt {
          assert Wait(rval, input, n).logged == [Nul];
          FlushLog(target);
          return m + 1;
        }
        var r := Incoming(input, n);
        var c := r.c;
        ghost var w := Wait(rval, input, n);
        assert w.logged == [c] + w.logged[1..];
        LogReceived(c, w.logged[1..], target);
        if r.ret == 0 {
          break;
        }
        if r.ret < 0 {
          break;
        }
        Feed(rval, pos, BytesIn(input, n), c);
        assert BytesIn(input, n + 1) == BytesIn(input, n) + [c];
        n := n + 1;
      }
      FlushLog(target);
      ret := Incoming(input, n).ret;
    }

    /** chat_recv_log of one received byte, with what is still to be logged after it. */
    method LogReceived(c: int, ghost rest: seq<int>, ghost target: LogState)
      requires Valid() && target == LogAfter(debug, Log(), [c] + rest)
      modifies this, buf
      ensures Valid() && debug == old(debug) && timeout == old(timeout)
      ensures target == LogAfter(debug, Log(), rest)
    {
      LogAfterStep(debug, Log(), c, rest);
      RecvLog(c);
    }

    /** The closing chat_recv_log('\0'), the last thing logged. */
    method FlushLog(ghost target: LogState)
      requires Valid() && target == LogAfter(debug, Log(), [Nul])
      modifies this, buf
      ensures Valid() && debug == old(debug) && timeout == old(timeout)
      ensures Log() == target
    {
      LogAfterStep(debug, Log(), Nul, []);
      assert [Nul] + [] == [Nul];
      RecvLog(Nul);
    }
  }

  /**
   * The inner loop of chat_xmt_log: one line into b from position j of s,
   * NUL-terminated there. Returns the line, the position after it and the
   * last character read.
   */
  method FillLine(s: seq<int>, j: nat, b: array<int>) returns (line: seq<int>, cp: nat, c: int)
    requires j <= |s| && b.Length == 2 * LineMax
    modifies b
    ensures Chunk(s, j, []) == (line, cp, c == Nul)
  {
    var k := 0;
    cp := j;
    c := Nul;
    while k < LineMax
      invariant 0 <= k <= LineMax + 2
      invariant j <= cp <= |s|
      invariant k > 0 ==> c != Nul
      invariant Chunk(s, j, []) == Chunk(s, cp, b[..k])
      decreases LineMax - k
    {
      c := At(s, cp);
      cp := cp + 1;
      if c == Nul {
        break;
      }
      k := PutEscaped(b, k, c);
      if c == Newline {
        break;
      }
    }
    line := b[..k];
    b[k] := Nul;
  }

  /**
   * The escaping both loggers do in place: c written at a[k..] as it
   * prints, the index moved past it.
   */
  method PutEscaped(a: array<int>, k: nat, c: int) returns (k': nat)
    requires k + 3 <= a.Length
    modifies a
    ensures k' == k + |Escape(c)|
    ensures a[..k'] == old(a[..k]) + Escape(c)
  {
    if c == Nul {
      k' := k;
    } else if c == Return {
      a[k] := Backslash;
      a[k + 1] := 'r' as int;
      k' := k + 2;
    } else if c == Tab {
      a[k] := Backslash;
      a[k + 1] := 't' as int;
      k' := k + 2;
    } else if c == Newline {
      a[k] := Backslash;
      a[k + 1] := 'n' as int;
      k' := k + 2;
    } else if c < Space {
      a[k] := Backslash;
      a[k + 1] := ToHex(c % 16);
      a[k + 2] := ToHex((c / 16) % 16);
      k' := k + 3;
    } else {
      a[k] := c;
      k' := k + 1;
    }
  }

  /** The first loop of serial_chat: the arguments up to the first NULL, at most 64. */
  method CollectArgs(args: seq<Arg>) returns (rval: seq<seq<int>>)
    ensures rval == Collected(args)
  {
    rval := [];
    var k := 0;
    while k < WaitListMax
      invariant 0 <= k <= WaitListMax && |rval| == k
      invariant rval + CollectFrom(args, k) == Collected(args)
      decreases WaitListMax - k
    {
      var a := ArgAt(args, k);
      if a.NullArg? {
        break;
      }
      CollectStep(args, k, rval);
      rval := rval + [a.s];
      k := k + 1;
    }
  }

  /** One more pointer read: it moves from the arguments still to collect to those collected. */
  lemma CollectStep(args: seq<Arg>, k: nat, done: seq<seq<int>>)
    requires k < WaitListMax && ArgAt(args, k).Str?
    ensures done + CollectFrom(args, k) == (done + [ArgAt(args, k).s]) + CollectFrom(args, k + 1)
  {
    assert CollectFrom(args, k) == [ArgAt(args, k).s] + CollectFrom(args, k + 1);
  }

  /** Each position holds its pattern's progress on the bytes cs. */
  predicate Tracks(pos: array<nat>, rval: seq<seq<int>>, cs: seq<int>)
    reads pos
  {
    |rval| <= pos.Length && forall q :: 0 <= q < |rval| ==> pos[q] == Progress(rval[q], cs)
  }

  /** The loop that resets the matching positions. */
  method ResetPositions(pos: array<nat>, rcnt: nat)
    requires rcnt <= pos.Length
    modifies pos
    ensures forall q :: 0 <= q < rcnt ==> pos[q] == 0
  {
    var m := 0;
    while m < rcnt
      invariant 0 <= m <= rcnt
      invariant forall q :: 0 <= q < m ==> pos[q] == 0
    {
      pos[m] := 0;
      m := m + 1;
    }
  }

  /** The loop that looks for the lowest pattern matched up to its NUL. */
  method FirstComplete(rval: seq<seq<int>>, pos: array<nat>, ghost cs: seq<int>) returns (m: nat)
    requires Tracks(pos, rval, cs)
    ensures m == FirstDone(rval, cs)
  {
    m := 0;
    while m < |rval|
      invariant m <= |rval|
      invariant forall q :: 0 <= q < m ==> !Done(rval[q], Progress(rval[q], cs))
    {
      if At(rval[m], pos[m]) == Nul {
        return;
      }
      m := m + 1;
    }
  }

  /** The loop that moves every pattern's position on by the byte c. */
  method Feed(rval: seq<seq<int>>, pos: array<nat>, ghost cs: seq<int>, c: int)
    requires Tracks(pos, rval, cs)
    modifies pos
    ensures Tracks(pos, rval, cs + [c])
  {
    assert (cs + [c])[..|cs|] == cs;
    var m := 0;
    while m < |rval|
      invariant 0 <= m <= |rval|
      invariant forall q :: 0 <= q < m ==> pos[q] == Progress(rval[q], cs + [c])
      invariant forall q :: m <= q < |rval| ==> pos[q] == Progress(rval[q], cs)
    {
      if c == At(rval[m], pos[m]) {
        pos[m] := pos[m] + 1;
      } else {
        pos[m] := 0;
      }
      m := m + 1;
    }
  }
}
