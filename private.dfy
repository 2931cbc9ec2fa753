/**
 * The helpers of libconf's private header: the absent-value sentinel, the
 * C-locale character classes the codecs and the parser test, the LTRIM and
 * RTRIM macros, and MIN/MAX.
 *
 * A C string is modelled as the sequence of its characters before the
 * terminating NUL; where a NUL terminator is observable (RTRIM writes one)
 * the model works on an array that holds it.
 */
module ConfPrivate {

  /** NULL_STRING: the text written in place of a value whose storage is absent. */
  const NullString: string := "NULL"

  /** isspace() in the C locale: space, and '\t' '\n' '\v' '\f' '\r'. */
  predicate IsSpace(c: char) {
    c == ' ' || '\t' <= c <= '\r'
  }

  /** isalpha() in the C locale. */
  predicate IsAlpha(c: char) {
    'a' <= c <= 'z' || 'A' <= c <= 'Z'
  }

  /** isdigit() */
  predicate IsDigit(c: char) {
    '0' <= c <= '9'
  }

  /** isalnum() in the C locale. */
  predicate IsAlnum(c: char) {
    IsAlpha(c) || IsDigit(c)
  }

  /** tolower() in the C locale, as strncasecmp applies it to both operands. */
  function ToLower(c: char): (r: char)
    ensures 'A' <= c <= 'Z' ==> 'a' <= r <= 'z' && r as int == c as int + 32
    ensures !('A' <= c <= 'Z') ==> r == c
  {
    if 'A' <= c <= 'Z' then (c as int + 32) as char else c
  }

  /**
   * What LTRIM leaves of a string: the suffix that starts at the first
   * character that is not a space (or the empty suffix at the terminator).
   */
  function Ltrim(s: string): (r: string)
    ensures |r| <= |s|
    ensures r == [] || !IsSpace(r[0])
  {
    if |s| == 0 || !IsSpace(s[0]) then s else Ltrim(s[1..])
  }

  /** LTRIM leaves a suffix of its argument. */
  lemma {:induction false} LtrimSuffix(s: string)
    ensures Ltrim(s) == s[|s| - |Ltrim(s)|..]
  {
    if |s| > 0 && IsSpace(s[0]) {
      LtrimSuffix(s[1..]);
    }
  }

  /** Everything LTRIM passes over is white space. */
  lemma {:induction false} LtrimSpan(s: string)
    ensures forall i :: 0 <= i < |s| - |Ltrim(s)| ==> IsSpace(s[i])
  {
    if |s| > 0 && IsSpace(s[0]) {
      LtrimSpan(s[1..]);
      forall i | 1 <= i < |s| - |Ltrim(s)| ensures IsSpace(s[i]) {
        assert s[i] == s[1..][i - 1];
      }
    }
  }

  /**
   * LTRIM: walks a cursor past leading isspace() characters and returns the
   * cursor, i.e. the index at which the trimmed string starts.
   */
  method LtrimCursor(s: string) returns (cp: nat)
    ensures cp <= |s| && s[cp..] == Ltrim(s)
  {
    cp := 0;
    while cp < |s| && IsSpace(s[cp])
      invariant cp <= |s|
      invariant Ltrim(s[cp..]) == Ltrim(s)
    {
      assert s[cp..][1..] == s[cp + 1..];
      cp := cp + 1;
    }
  }

  /**
   * Where RTRIM puts the terminator of a non-empty string s: one past the
   * last character that is not a space, but never before index 1, because
   * the backward walk stops on the first character without testing it.
   */
  function RtrimCut(s: string): (k: nat)
    requires |s| > 0
    ensures 1 <= k <= |s|
    ensures k > 1 ==> !IsSpace(s[k - 1])
  {
    if |s| == 1 || !IsSpace(s[|s| - 1]) then |s| else RtrimCut(s[..|s| - 1])
  }

  /** Everything after the cut is white space. */
  lemma {:induction false} RtrimCutSpan(s: string)
    requires |s| > 0
    ensures forall i :: RtrimCut(s) <= i < |s| ==> IsSpace(s[i])
  {
    if !(|s| == 1 || !IsSpace(s[|s| - 1])) {
      var t := s[..|s| - 1];
      RtrimCutSpan(t);
      forall i | RtrimCut(s) <= i < |s| - 1 ensures IsSpace(s[i]) {
        assert s[i] == t[i];
      }
    }
  }

  /** No NUL among the first n characters of a: they form a C string of length n. */
  ghost predicate CStringOfLength(a: array<char>, n: nat)
    reads a
  {
    n < a.Length && a[n] == '\0' && forall i :: 0 <= i < n ==> a[i] != '\0'
  }

  /**
   * RTRIM on a NUL-terminated string held in a: walk back from the last
   * character over spaces (never past the first character) and write a NUL
   * after the stop. The macro computes strlen(x) - 1, so the string must not
   * be empty.
   */
  method Rtrim(a: array<char>, n: nat)
    requires CStringOfLength(a, n)
    requires n >= 1
    modifies a
    ensures a[..] == old(a[..])[RtrimCut(old(a[..n])) := '\0']
  {
    var cp := RtrimStop(a, n);
    a[cp] := '\0';
  }

  /** RTRIM's backward walk: the index just after the character it stops at. */
  method RtrimStop(a: array<char>, n: nat) returns (cp: nat)
    requires 1 <= n < a.Length
    ensures cp == RtrimCut(a[..n]) && cp < a.Length
  {
    ghost var s := a[..n];
    assert s[..n] == s;
    cp := n - 1;
    while cp != 0 && IsSpace(a[cp])
      invariant 0 <= cp < n
      invariant RtrimCut(s[..cp + 1]) == RtrimCut(s)
    {
      RtrimCutSpace(s, cp);
      cp := cp - 1;
    }
    cp := cp + 1;
  }

  /** A space at cp, not the first character: the cut of s[..cp + 1] is the cut of s[..cp]. */
  lemma RtrimCutSpace(s: string, cp: nat)
    requires 0 < cp < |s| && IsSpace(s[cp])
    ensures RtrimCut(s[..cp + 1]) == RtrimCut(s[..cp])
  {
    assert s[..cp + 1][..cp] == s[..cp];
  }

  /**
   * The C string a character sequence denotes: its characters before the
   * first NUL (all of them when there is none).
   */
  function CStr(s: string): (r: string)
    ensures |r| <= |s| && r == s[..|r|]
    ensures |r| < |s| ==> s[|r|] == '\0'
  {
    if |s| == 0 || s[0] == '\0' then [] else [s[0]] + CStr(s[1..])
  }

  /** A C string holds no NUL. */
  lemma {:induction false} CStrNoNul(s: string)
    ensures NoNul(CStr(s))
  {
    if |s| > 0 && s[0] != '\0' {
      CStrNoNul(s[1..]);
      assert CStr(s) == [s[0]] + CStr(s[1..]);
    }
  }

  /** s[i] of a C string: the NUL at and after its end. */
  function CharAt(s: string, i: nat): (c: char)
    ensures i < |s| ==> c == s[i]
    ensures i >= |s| ==> c == '\0'
  {
    if i < |s| then s[i] else '\0'
  }

  /** A sequence with no NUL in it: a C string as it is. */
  predicate NoNul(s: string) {
    forall i :: 0 <= i < |s| ==> s[i] != '\0'
  }

  /**
   * strchr on a C string: the index of the first c in s, or |s| when there
   * is none.
   */
  function Find(s: string, c: char): (i: nat)
    ensures i <= |s|
    ensures i < |s| ==> s[i] == c
  {
    if |s| == 0 || s[0] == c then 0 else 1 + Find(s[1..], c)
  }

  /** No c comes before the one Find finds: it is the first. */
  lemma {:induction false} FindFirst(s: string, c: char)
    ensures forall j :: 0 <= j < Find(s, c) ==> s[j] != c
  {
    if |s| > 0 && s[0] != c {
      FindFirst(s[1..], c);
      forall j | 1 <= j < Find(s, c) ensures s[j] != c {
        assert s[j] == s[1..][j - 1];
      }
    }
  }

  /**
   * strncasecmp(s, word, |word|) == 0 for an upper-case word without NUL:
   * the first |word| characters of s equal the word, ignoring case.
   */
  predicate HasPrefixIgnoringCase(s: string, word: string) {
    |word| == 0 || (|s| > 0 && ToLower(s[0]) == ToLower(word[0]) && HasPrefixIgnoringCase(s[1..], word[1..]))
  }

  /** MIN: the smaller operand. */
  function Min(x: int, y: int): (r: int)
    ensures r <= x && r <= y && (r == x || r == y)
  {
    if x < y then x else y
  }

  /** MAX: the larger operand. */
  function Max(x: int, y: int): (r: int)
    ensures r >= x && r >= y && (r == x || r == y)
  {
    if x > y then x else y
  }
}
