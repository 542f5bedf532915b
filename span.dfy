/** How `analyze_chunk` and `merge_results` cut the JSON out of a model reply
    (backend/ai_service.py, lines 44-48 and 80-83): the reply is stripped,
    then `re.search(r'\{.*\}', text, re.DOTALL)` picks a span, and when it
    matches the text becomes that span.

    With DOTALL the dot matches every character, so the pattern matches at a
    position exactly when a `{` stands there and a `}` follows somewhere after
    it; the search takes the leftmost such position and the greedy `.*` the
    last `}`. */
module ResponseSpan {
  import opened PyStr

  /** Where the match of the pattern lies, as a half-open interval. */
  datatype Span = NoMatch | Match(start: nat, end: nat)

  /** The pattern `\{.*\}` matches `text[i..j + 1]`. */
  predicate Matches(text: string, i: int, j: int) {
    0 <= i < j < |text| && text[i] == '{' && text[j] == '}'
  }

  /** The first position at or after `from` holding `c`, or `|s|`. */
  function FirstIndex(s: string, c: char, from: nat): (i: nat)
    requires from <= |s|
    ensures from <= i <= |s|
    ensures i < |s| ==> s[i] == c
    ensures forall j :: from <= j < i ==> s[j] != c
    decreases |s| - from
  {
    if from == |s| || s[from] == c then from else FirstIndex(s, c, from + 1)
  }

  /** The last position of `s` holding `c`, or -1. */
  function LastIndex(s: string, c: char): (i: int)
    ensures -1 <= i < |s|
    ensures i >= 0 ==> s[i] == c
    ensures forall j :: i < j < |s| ==> s[j] != c
  {
    if s == [] then -1
    else if s[|s| - 1] == c then |s| - 1
    else LastIndex(s[..|s| - 1], c)
  }

  /** `re.search(r'\{.*\}', text, re.DOTALL)`: from the first `{` to the last
      `}`, when that `}` comes after that `{`. */
  function BraceSpan(text: string): Span {
    var open := FirstIndex(text, '{', 0);
    var close := LastIndex(text, '}');
    if open < |text| && open < close then Match(open, close + 1) else NoMatch
  }

  /** The search finds a match exactly when some `{` has a `}` after it, and
      the match it finds is the leftmost and, from there, the longest: it
      starts no later and ends no earlier than any other match. */
  lemma BraceSpanIsLeftmostLongest(text: string)
    ensures BraceSpan(text).Match? <==> exists i, j :: Matches(text, i, j)
    ensures BraceSpan(text).Match? ==>
              var m := BraceSpan(text);
              && Matches(text, m.start, m.end - 1)
              && forall i, j :: Matches(text, i, j) ==> m.start <= i && j < m.end
  {
    var open := FirstIndex(text, '{', 0);
    var close := LastIndex(text, '}');
    forall i, j | Matches(text, i, j)
      ensures open <= i < close && j <= close
    {
    }
    if open < |text| && open < close {
      assert Matches(text, open, close);
    }
  }

  /** Lines 44-48: the stripped reply, narrowed to the match when there is one. */
  function ExtractJson(reply: string): string {
    var text := Strip(reply);
    match BraceSpan(text)
    case Match(a, b) => text[a..b]
    case NoMatch => text
  }

  /** Where the text handed to the parser starts in the stripped reply. */
  function ExtractOffset(reply: string): nat {
    match BraceSpan(Strip(reply))
    case Match(a, _) => a
    case NoMatch => 0
  }

  /** The text handed to the parser is a piece of the stripped reply: the
      whole of it when nothing matches, otherwise a piece that starts with `{`
      and ends with `}`. */
  lemma ExtractJsonWithinReply(reply: string)
    ensures var text, r, a := Strip(reply), ExtractJson(reply), ExtractOffset(reply);
      && a + |r| <= |text| && text[a..a + |r|] == r
      && (BraceSpan(text).NoMatch? ==> r == text)
      && (BraceSpan(text).Match? ==> |r| >= 2 && r[0] == '{' && r[|r| - 1] == '}')
  {
    var text, r := Strip(reply), ExtractJson(reply);
    BraceSpanIsLeftmostLongest(text);
    match BraceSpan(text)
    case Match(a, b) =>
      assert text[a..a + |r|] == r;
    case NoMatch =>
      assert text[0..0 + |r|] == r;
  }

  /** Extracting again changes nothing: the result is its own strip and its
      own match. */
  lemma {:induction false} ExtractJsonIdempotent(reply: string)
    ensures ExtractJson(ExtractJson(reply)) == ExtractJson(reply)
  {
    var text, r := Strip(reply), ExtractJson(reply);
    StripIdempotent(reply);
    ExtractJsonWithinReply(reply);
    match BraceSpan(text)
    case NoMatch =>
      assert r == text;
    case Match(a, b) =>
      assert !IsSpace(r[0]) && !IsSpace(r[|r| - 1]);
      StripTrimmed(r);
      assert Matches(r, 0, |r| - 1);
      BraceSpanIsLeftmostLongest(r);
      var m := BraceSpan(r);
      assert m.start == 0 && m.end == |r|;
      assert r[0..|r|] == r;
  }
}
