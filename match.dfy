/**
 * The small regular-expression matcher of src/match.c: '^' anchors at the
 * start, '$' as the last character anchors at the end, '.' matches any
 * character and "c*" matches zero or more of c.
 *
 * The C functions walk NUL-terminated strings; here a string is a sequence
 * and CharAt reads the NUL the C string would have at its end, so the
 * functions below read exactly what the C code reads.
 *
 * Beside them stands an independent meaning: a regexp is read as a
 * sequence of elements, and Lang says which texts an element sequence
 * matches at their start. The matcher is proved sound and complete for it.
 */
module Match {
  import opened ConfPrivate

  // ---------------------------------------------------------------------
  // The matcher
  // ---------------------------------------------------------------------

  /**
   * matchhere: does regexp match at the beginning of text?
   */
  function MatchHere(regexp: string, text: string): (b: bool)
    decreases |regexp|, 0, 0
  {
    if CharAt(regexp, 0) == '\0' then true
    else if CharAt(regexp, 1) == '*' then MatchStar(regexp[0], regexp[2..], text)
    else if regexp[0] == '$' && CharAt(regexp, 1) == '\0' then CharAt(text, 0) == '\0'
    else if CharAt(text, 0) != '\0' && (regexp[0] == '.' || regexp[0] == text[0]) then
      MatchHere(regexp[1..], text[1..])
    else false
  }

  /**
   * matchstar: does c* followed by regexp match at the beginning of text?
   * The shortest run of c is tried first.
   */
  function MatchStar(c: char, regexp: string, text: string): (b: bool)
    decreases |regexp| + 1, 1, |text|
  {
    MatchHere(regexp, text)
    || (CharAt(text, 0) != '\0' && (text[0] == c || c == '.') && MatchStar(c, regexp, text[1..]))
  }

  /** The do-while of match: matchhere at each start position, the end of text included. */
  function MatchFrom(regexp: string, text: string): (b: bool)
    decreases |text|
  {
    MatchHere(regexp, text) || (CharAt(text, 0) != '\0' && MatchFrom(regexp, text[1..]))
  }

  /** match: a leading '^' anchors at the start, otherwise any position will do. */
  function Matches(regexp: string, text: string): (b: bool)
  {
    if CharAt(regexp, 0) == '^' then MatchHere(regexp[1..], text) else MatchFrom(regexp, text)
  }

  // ---------------------------------------------------------------------
  // What a regexp means
  // ---------------------------------------------------------------------

  /** One element of a regexp: a character or '.', a starred one, or the end anchor. */
  datatype Elem = One(c: char) | Star(c: char) | End

  /** The regexp character c accepts the text character ch. */
  predicate Fits(c: char, ch: char) {
    c == '.' || c == ch
  }

  /** The elements of a regexp: "c*" is a star, a final '$' the end anchor, anything else itself. */
  function Elements(regexp: string): (es: seq<Elem>)
    ensures |es| <= |regexp|
  {
    if regexp == [] then []
    else if |regexp| >= 2 && regexp[1] == '*' then [Star(regexp[0])] + Elements(regexp[2..])
    else if regexp == "$" then [End]
    else [One(regexp[0])] + Elements(regexp[1..])
  }

  /** Every character of w is accepted by c. */
  predicate Run(c: char, w: string) {
    forall i :: 0 <= i < |w| ==> Fits(c, w[i])
  }

  /** The elements match some prefix of t (all of t when they end with the anchor). */
  ghost predicate Lang(es: seq<Elem>, t: string)
    decreases |es|, |t|
  {
    if es == [] then true
    else match es[0]
      case End => t == [] && Lang(es[1..], t)
      case One(c) => |t| > 0 && Fits(c, t[0]) && Lang(es[1..], t[1..])
      case Star(c) => exists k :: 0 <= k <= |t| && Run(c, t[..k]) && Lang(es[1..], t[k..])
  }

  // ---------------------------------------------------------------------
  // Soundness and completeness
  // ---------------------------------------------------------------------

  /** The meaning of a regexp that starts "c*". */
  lemma StarElements(regexp: string, text: string)
    requires |regexp| >= 2 && regexp[1] == '*'
    ensures Lang(Elements(regexp), text) <==> exists k :: StarSplit(regexp[0], regexp[2..], text, k)
  {
    var es := Elements(regexp);
    assert es[0] == Star(regexp[0]) && es[1..] == Elements(regexp[2..]);
    if Lang(es, text) {
      var k :| 0 <= k <= |text| && Run(regexp[0], text[..k]) && Lang(es[1..], text[k..]);
      assert StarSplit(regexp[0], regexp[2..], text, k);
    }
  }

  /** The meaning of a regexp that starts with a character or '.' not followed by '*'. */
  lemma OneElements(regexp: string, text: string)
    requires regexp != [] && (|regexp| < 2 || regexp[1] != '*') && regexp != "$"
    ensures Lang(Elements(regexp), text) <==>
      |text| > 0 && Fits(regexp[0], text[0]) && Lang(Elements(regexp[1..]), text[1..])
  {
    var es := Elements(regexp);
    assert es[0] == One(regexp[0]) && es[1..] == Elements(regexp[1..]);
  }

  /** matchhere succeeds exactly when the regexp's elements match at the start of text. */
  lemma {:induction false} MatchHereMeaning(regexp: string, text: string)
    requires NoNul(regexp) && NoNul(text)
    ensures MatchHere(regexp, text) <==> Lang(Elements(regexp), text)
    decreases |regexp|, 0, 0
  {
    if regexp == [] {
    } else if |regexp| >= 2 && regexp[1] == '*' {
      assert NoNul(regexp[2..]);
      StarMeaning(regexp[0], regexp[2..], text);
      StarElements(regexp, text);
    } else if regexp == "$" {
      assert Elements(regexp) == [End];
    } else {
      OneElements(regexp, text);
      assert CharAt(regexp, 0) != '\0' && CharAt(regexp, 1) != '*';
      assert !(regexp[0] == '$' && CharAt(regexp, 1) == '\0');
      if |text| > 0 {
        assert NoNul(regexp[1..]) && NoNul(text[1..]);
        MatchHereMeaning(regexp[1..], text[1..]);
      }
    }
  }

  /** A run of c of length k+1 is a character c accepts followed by a run of length k. */
  lemma RunStep(c: char, text: string, k: nat)
    requires k < |text|
    ensures Run(c, text[..k + 1]) <==> Fits(c, text[0]) && Run(c, text[1..][..k])
  {
    assert text[..k + 1] == [text[0]] + text[1..][..k];
  }

  /** Splitting text after k characters gives a run of c followed by a match of the regexp. */
  ghost predicate StarSplit(c: char, regexp: string, text: string, k: nat) {
    k <= |text| && Run(c, text[..k]) && Lang(Elements(regexp), text[k..])
  }

  /** A split of text[1..] extends to a split of text one further along. */
  lemma SplitGrows(c: char, regexp: string, text: string, k: nat)
    requires |text| > 0 && Fits(c, text[0]) && StarSplit(c, regexp, text[1..], k)
    ensures StarSplit(c, regexp, text, k + 1)
  {
    RunStep(c, text, k);
    assert text[k + 1..] == text[1..][k..];
  }

  /** A split of text after at least one character gives a split of text[1..]. */
  lemma SplitShrinks(c: char, regexp: string, text: string, k: nat)
    requires k > 0 && StarSplit(c, regexp, text, k)
    ensures Fits(c, text[0]) && StarSplit(c, regexp, text[1..], k - 1)
  {
    RunStep(c, text, k - 1);
    assert text[1..][k - 1..] == text[k..];
  }

  /** matchstar succeeds exactly when some run of c (possibly empty) is followed by a match of the rest. */
  lemma {:induction false} StarMeaning(c: char, regexp: string, text: string)
    requires NoNul(regexp) && NoNul(text)
    ensures MatchStar(c, regexp, text) <==> exists k :: StarSplit(c, regexp, text, k)
    decreases |regexp| + 1, 1, |text|
  {
    MatchHereMeaning(regexp, text);
    assert text[..0] == [] && text[0..] == text;
    assert MatchHere(regexp, text) <==> StarSplit(c, regexp, text, 0);
    if |text| > 0 {
      assert NoNul(text[1..]);
      StarMeaning(c, regexp, text[1..]);
      if MatchStar(c, regexp, text) && !MatchHere(regexp, text) {
        var k :| StarSplit(c, regexp, text[1..], k);
        SplitGrows(c, regexp, text, k);
      }
      if exists k :: StarSplit(c, regexp, text, k) {
        var k :| StarSplit(c, regexp, text, k);
        if k > 0 {
          SplitShrinks(c, regexp, text, k);
        }
      }
    }
  }

  /** The search over start positions finds a match iff one exists at some suffix, the empty one included. */
  lemma {:induction false} MatchFromMeaning(regexp: string, text: string)
    requires NoNul(regexp) && NoNul(text)
    ensures MatchFrom(regexp, text) <==> exists i :: 0 <= i <= |text| && Lang(Elements(regexp), text[i..])
    decreases |text|
  {
    MatchHereMeaning(regexp, text);
    assert text[0..] == text;
    if |text| > 0 {
      MatchFromMeaning(regexp, text[1..]);
      if MatchFrom(regexp, text[1..]) {
        var i :| 0 <= i <= |text[1..]| && Lang(Elements(regexp), text[1..][i..]);
        assert text[1..][i..] == text[i + 1..];
      }
      if exists i :: 0 <= i <= |text| && Lang(Elements(regexp), text[i..]) {
        var i :| 0 <= i <= |text| && Lang(Elements(regexp), text[i..]);
        if i > 0 {
          assert text[1..][i - 1..] == text[i..];
        }
      }
    }
  }

  /**
   * match: with a leading '^' the rest must match at the start of the
   * text; otherwise the regexp must match at some position.
   */
  lemma MatchesMeaning(regexp: string, text: string)
    requires NoNul(regexp) && NoNul(text)
    ensures regexp != [] && regexp[0] == '^' ==> (Matches(regexp, text) <==> Lang(Elements(regexp[1..]), text))
    ensures (regexp == [] || regexp[0] != '^') ==>
      (Matches(regexp, text) <==> exists i :: 0 <= i <= |text| && Lang(Elements(regexp), text[i..]))
  {
    if regexp != [] && regexp[0] == '^' {
      MatchHereMeaning(regexp[1..], text);
    } else {
      MatchFromMeaning(regexp, text);
    }
  }

  // ---------------------------------------------------------------------
  // Consequences
  // ---------------------------------------------------------------------

  /** An empty regexp matches any text, at its start. */
  lemma EmptyMatchesAnything(text: string)
    ensures MatchHere("", text) && Matches("", text)
  {
  }

  /** A final '$' matches only the end of the text. */
  lemma {:induction false} DollarOnlyAtEnd(text: string)
    requires NoNul(text)
    ensures MatchHere("$", text) <==> text == []
    ensures Matches("$", text)
  {
    MatchFromMeaning("$", text);
    assert Lang(Elements("$"), text[|text|..]);
  }

  /** '.' and a plain character need a character of the text to match. */
  lemma OneNeedsACharacter(c: char)
    requires c != '\0' && c != '$'
    ensures !MatchHere([c], "")
    ensures MatchHere(['.'], [c]) && MatchHere([c], [c])
  {
  }

  /** "c*" alone matches anywhere, even in the empty text. */
  lemma StarAloneMatches(c: char, text: string)
    requires c != '\0'
    ensures MatchHere([c, '*'], text)
  {
    assert [c, '*'][2..] == [];
  }

  // ---------------------------------------------------------------------
  // match as the C code runs it
  // ---------------------------------------------------------------------

  /**
   * match: with a leading '^' one attempt at the start; otherwise an
   * attempt at each position of the text until one succeeds or the NUL
   * has been tried.
   */
  method Match(regexp: string, text: string) returns (b: bool)
    ensures b == Matches(regexp, text)
    ensures NoNul(regexp) && NoNul(text) && (regexp == [] || regexp[0] != '^') ==>
      (b <==> exists i :: 0 <= i <= |text| && Lang(Elements(regexp), text[i..]))
  {
    if CharAt(regexp, 0) == '^' {
      return MatchHere(regexp[1..], text);
    }
    var i := 0;
    while true
      invariant i <= |text|
      invariant MatchFrom(regexp, text) == MatchFrom(regexp, text[i..])
      decreases |text| - i
    {
      if MatchHere(regexp, text[i..]) {
        b := true;
        break;
      }
      if CharAt(text, i) == '\0' {
        b := false;
        break;
      }
      assert text[i..][1..] == text[i + 1..];
      i := i + 1;
    }
    if NoNul(regexp) && NoNul(text) {
      MatchesMeaning(regexp, text);
    }
  }
}
