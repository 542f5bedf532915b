/** Python string helpers the service relies on: `str.strip()` with no argument
    and `" ".join(...)`, over `string` (a sequence of Unicode scalar values). */
module PyStr {

  /** The characters for which Python's `str.isspace()` holds; these are the
      characters `str.strip()` removes when called without an argument. */
  predicate IsSpace(c: char) {
    || ('\t' <= c <= '\r')
    || ('\U{1C}' <= c <= '\U{1F}')
    || c == ' '
    || c == '\U{85}'
    || c == '\U{A0}'
    || c == '\U{1680}'
    || ('\U{2000}' <= c <= '\U{200A}')
    || c == '\U{2028}'
    || c == '\U{2029}'
    || c == '\U{202F}'
    || c == '\U{205F}'
    || c == '\U{3000}'
  }

  predicate AllSpace(s: string) {
    forall i :: 0 <= i < |s| ==> IsSpace(s[i])
  }

  /** Length of the longest all-whitespace prefix of `s`. */
  function LeadingSpace(s: string): (n: nat)
    ensures n <= |s|
    ensures AllSpace(s[..n])
    ensures n < |s| ==> !IsSpace(s[n])
  {
    if s == [] || !IsSpace(s[0]) then 0
    else
      var n := 1 + LeadingSpace(s[1..]);
      assert s[..n] == [s[0]] + s[1..][..n - 1];
      n
  }

  /** Length of the longest all-whitespace suffix of `s`. */
  function TrailingSpace(s: string): (n: nat)
    ensures n <= |s|
    ensures AllSpace(s[|s| - n..])
    ensures n < |s| ==> !IsSpace(s[|s| - 1 - n])
  {
    if s == [] || !IsSpace(s[|s| - 1]) then 0
    else
      var t := s[..|s| - 1];
      var n := 1 + TrailingSpace(t);
      assert s[|s| - n..] == t[|t| - (n - 1)..] + [s[|s| - 1]];
      n
  }

  /** `s.strip()`: `s` without its leading and trailing whitespace. The result
      is the empty string exactly when `s` is all whitespace. */
  function Strip(s: string): (r: string)
    ensures |r| <= |s|
    ensures r == [] <==> AllSpace(s)
    ensures r != [] ==> !IsSpace(r[0]) && !IsSpace(r[|r| - 1])
  {
    var lead := LeadingSpace(s);
    if lead == |s| then
      assert s[..lead] == s;
      []
    else
      var trail := TrailingSpace(s);
      assert lead < |s| - trail;
      assert !IsSpace(s[lead]);
      s[lead..|s| - trail]
  }

  /** Stripping only removes whitespace from the two ends: the result sits in
      `s` between an all-whitespace prefix and an all-whitespace suffix. */
  lemma StripIsInfix(s: string)
    ensures exists i :: 0 <= i <= |s| - |Strip(s)| && s[i..i + |Strip(s)|] == Strip(s)
                        && AllSpace(s[..i]) && AllSpace(s[i + |Strip(s)|..])
  {
    var lead := LeadingSpace(s);
    var r := Strip(s);
    if lead == |s| {
      assert s[0..0] == r && s[..0] == [] && s[0..] == s[..lead];
    } else {
      var trail := TrailingSpace(s);
      assert s[lead..lead + |r|] == r;
      assert s[lead + |r|..] == s[|s| - trail..];
    }
  }

  /** Stripping twice is stripping once. */
  lemma StripIdempotent(s: string)
    ensures Strip(Strip(s)) == Strip(s)
  {
    StripTrimmed(Strip(s));
  }

  /** A string that neither starts nor ends with whitespace is its own strip. */
  lemma StripTrimmed(s: string)
    requires s == [] || (!IsSpace(s[0]) && !IsSpace(s[|s| - 1]))
    ensures Strip(s) == s
  {
    if s != [] {
      assert LeadingSpace(s) == 0;
      assert TrailingSpace(s) == 0;
      assert s[0..|s|] == s;
    }
  }

  /** `" ".join(xs)`: the strings of `xs` in order, separated by single spaces. */
  function Join(xs: seq<string>): (r: string)
    ensures xs != [] ==> |r| >= |xs[0]| && |r| >= |xs[|xs| - 1]|
    ensures |xs| >= 2 ==> |r| >= |xs[0]| + 1 + |xs[|xs| - 1]|
  {
    if xs == [] then []
    else if |xs| == 1 then xs[0]
    else
      var init := xs[..|xs| - 1];
      assert init[0] == xs[0];
      Join(init) + " " + xs[|xs| - 1]
  }

  /** Appending one more string to a non-empty list adds a space and that string. */
  lemma JoinSnoc(xs: seq<string>, x: string)
    requires xs != []
    ensures Join(xs + [x]) == Join(xs) + " " + x
  {
    assert (xs + [x])[..|xs|] == xs;
  }

  /** Joining a prefix of the list gives a string no longer than joining it all. */
  lemma {:induction false} JoinPrefixShorter(xs: seq<string>, j: nat)
    requires 1 <= j <= |xs|
    ensures |Join(xs[..j])| <= |Join(xs)|
    decreases |xs|
  {
    if j < |xs| {
      var init := xs[..|xs| - 1];
      assert xs[..j] == init[..j];
      JoinPrefixShorter(init, j);
      JoinSnoc(init, xs[|xs| - 1]);
      assert init + [xs[|xs| - 1]] == xs;
    } else {
      assert xs[..j] == xs;
    }
  }

  /** In a join of two or more strings, each string is strictly shorter than the join. */
  lemma {:induction false} JoinLongerThanPart(xs: seq<string>, t: nat)
    requires |xs| >= 2 && t < |xs|
    ensures |Join(xs)| >= |xs[t]| + 1
    decreases |xs|
  {
    var init := xs[..|xs| - 1];
    JoinSnoc(init, xs[|xs| - 1]);
    assert init + [xs[|xs| - 1]] == xs;
    if t < |xs| - 1 {
      if |init| >= 2 {
        JoinLongerThanPart(init, t);
      } else {
        assert init == [xs[t]];
      }
    }
  }
}
