/** The sentence split of `split_text`: `re.split(r'(?<=[.!?]) +', text)`,
    written out by hand over `string`.

    The pattern matches a run of U+0020 spaces whose preceding character is
    `.`, `!` or `?`. Because `+` is greedy and a match can never start in the
    middle of a run (the character before it would be a space), the split
    points are exactly the maximal space runs that follow a terminator. Tabs,
    newlines and other whitespace never split. */
module SentenceSplit {

  predicate IsTerminator(c: char) {
    c == '.' || c == '!' || c == '?'
  }

  /** A match of the split pattern starts at position `k` of `s`: the
      lookbehind sees a terminator and the first space is at `k`. */
  predicate IsBreak(s: string, k: int) {
    0 < k < |s| && IsTerminator(s[k - 1]) && s[k] == ' '
  }

  /** The leftmost match start at or after `from`, or `|s|` when there is none. */
  function NextBreak(s: string, from: nat): (k: nat)
    requires from <= |s|
    ensures from <= k <= |s|
    ensures k == |s| || IsBreak(s, k)
    ensures forall j :: from <= j < k ==> !IsBreak(s, j)
    decreases |s| - from
  {
    if from == |s| || IsBreak(s, from) then from else NextBreak(s, from + 1)
  }

  /** The end of the run of spaces that starts at `k` (greedy ` +`). */
  function SpaceRunEnd(s: string, k: nat): (e: nat)
    requires k <= |s|
    ensures k <= e <= |s|
    ensures forall j :: k <= j < e ==> s[j] == ' '
    ensures e == |s| || s[e] != ' '
    decreases |s| - k
  {
    if k == |s| || s[k] != ' ' then k else SpaceRunEnd(s, k + 1)
  }

  /** The list `re.split` returns: the pieces between consecutive matches.
      Searching resumes at the end of a match; since the character there is
      not a space, no match starts there, so the search can restart on the
      remaining suffix as if it were a fresh string. */
  function Sentences(s: string): (r: seq<string>)
    ensures |r| >= 1
    decreases |s|
  {
    var k := NextBreak(s, 0);
    if k == |s| then [s]
    else
      var e := SpaceRunEnd(s, k);
      [s[..k]] + Sentences(s[e..])
  }

  /** The widths of the space runs `re.split` removes, in order. */
  function Gaps(s: string): (g: seq<nat>)
    ensures |g| == |Sentences(s)| - 1
    ensures forall i :: 0 <= i < |g| ==> g[i] >= 1
    decreases |s|
  {
    var k := NextBreak(s, 0);
    if k == |s| then []
    else
      var e := SpaceRunEnd(s, k);
      [e - k] + Gaps(s[e..])
  }

  predicate NoBreak(x: string) {
    forall k :: 0 <= k < |x| ==> !IsBreak(x, k)
  }

  predicate EndsSentence(x: string) {
    |x| > 0 && IsTerminator(x[|x| - 1])
  }

  /** The shape of every list the split produces: no piece holds a split
      point, every piece but the last ends with a terminator (so is non-empty),
      and no piece but the first starts with a space. */
  predicate WellFormed(ss: seq<string>) {
    && |ss| >= 1
    && (forall i :: 0 <= i < |ss| ==> NoBreak(ss[i]))
    && (forall i :: 0 <= i < |ss| - 1 ==> EndsSentence(ss[i]))
    && (forall i :: 0 < i < |ss| ==> ss[i] == [] || ss[i][0] != ' ')
  }

  function Spaces(n: nat): (r: string)
    ensures |r| == n
    ensures forall i :: 0 <= i < n ==> r[i] == ' '
  {
    if n == 0 then [] else [' '] + Spaces(n - 1)
  }

  /** The pieces `ss` put back together with `gaps[i]` spaces after piece `i`. */
  function Rejoin(ss: seq<string>, gaps: seq<nat>): string
    requires |ss| >= 1 && |gaps| == |ss| - 1
  {
    if |ss| == 1 then ss[0] else ss[0] + Spaces(gaps[0]) + Rejoin(ss[1..], gaps[1..])
  }

  /** Splitting loses nothing but the separators: putting the sentences back
      with the removed space runs gives the original text. */
  lemma {:induction false} Reassemble(s: string)
    ensures s == Rejoin(Sentences(s), Gaps(s))
    decreases |s|
  {
    var k := NextBreak(s, 0);
    if k < |s| {
      var e := SpaceRunEnd(s, k);
      Reassemble(s[e..]);
      assert Sentences(s)[1..] == Sentences(s[e..]);
      assert Gaps(s)[1..] == Gaps(s[e..]);
      assert s[k..e] == Spaces(e - k);
      assert s == s[..k] + s[k..e] + s[e..];
    }
  }

  /** Every split result has the sentence shape. */
  lemma {:induction false} SentencesWellFormed(s: string)
    ensures WellFormed(Sentences(s))
    decreases |s|
  {
    var k := NextBreak(s, 0);
    if k == |s| {
      assert NoBreak(s);
    } else {
      var e := SpaceRunEnd(s, k);
      var head := s[..k];
      var rest := Sentences(s[e..]);
      SentencesWellFormed(s[e..]);
      assert NoBreak(head) by {
        forall j | 0 <= j < |head|
          ensures !IsBreak(head, j)
        {
          assert !IsBreak(s, j);
        }
      }
      assert EndsSentence(head);
      assert rest[0] == [] || rest[0][0] != ' ' by {
        if rest[0] != [] {
          assert rest[0][0] == s[e..][0];
        }
      }
      var r := [head] + rest;
      assert r == Sentences(s);
      assert forall i :: 0 < i < |r| ==> r[i] == rest[i - 1];
    }
  }

  /** The leftmost split point of `x + t`, when `x` has none of its own, ends
      `x` with a terminator and `t` starts with a space, is at `|x|`. */
  lemma FirstBreakAfterPiece(x: string, t: string)
    requires NoBreak(x) && EndsSentence(x)
    requires t != [] && t[0] == ' '
    ensures NextBreak(x + t, 0) == |x|
  {
    var s := x + t;
    var k := NextBreak(s, 0);
    assert IsBreak(s, |x|);
    if k < |x| {
      assert IsBreak(x, k);
    }
  }

  /** The space run after the piece ends where the next piece begins. */
  lemma RunAfterPiece(x: string, n: nat, rest: string)
    requires n >= 1
    requires rest == [] || rest[0] != ' '
    ensures SpaceRunEnd(x + Spaces(n) + rest, |x|) == |x| + n
  {
    var s := x + Spaces(n) + rest;
    assert rest != [] ==> s[|x| + n] == rest[0];
  }

  /** Splitting a sentence, a positive run of spaces and a remainder that does
      not start with a space yields that sentence followed by the split of the
      remainder. */
  lemma SentencesOfCons(x: string, n: nat, rest: string)
    requires NoBreak(x) && EndsSentence(x)
    requires n >= 1
    requires rest == [] || rest[0] != ' '
    ensures Sentences(x + Spaces(n) + rest) == [x] + Sentences(rest)
  {
    var s := x + Spaces(n) + rest;
    SplitAt(x, Spaces(n), rest);
    FirstBreakAfterPiece(x, Spaces(n) + rest);
    RunAfterPiece(x, n, rest);
    SentencesUnfold(s, |x|, |x| + n);
  }

  /** Where the three parts of `x + y + z` sit: a sequence identity stated
      apart to keep `SentencesOfCons` small for the solver. */
  lemma SplitAt(x: string, y: string, z: string)
    ensures x + y + z == x + (y + z)
    ensures (x + y + z)[..|x|] == x
    ensures (x + y + z)[|x| + |y|..] == z
  {
  }

  /** A string without a split point is one sentence. */
  lemma SentencesOfSentence(x: string)
    requires NoBreak(x)
    ensures Sentences(x) == [x]
  {
    assert NextBreak(x, 0) == |x|;
  }

  /** One step of the split, with the first match and its run end named. */
  lemma SentencesUnfold(s: string, k: nat, e: nat)
    requires k < |s| && k == NextBreak(s, 0)
    requires e == SpaceRunEnd(s, k)
    ensures Sentences(s) == [s[..k]] + Sentences(s[e..])
  {
  }

  /** A rejoined list starts where its first piece starts. */
  lemma RejoinStart(ss: seq<string>, gaps: seq<nat>)
    requires |ss| >= 1 && |gaps| == |ss| - 1
    requires ss[0] == [] || ss[0][0] != ' '
    requires |ss| >= 2 ==> ss[0] != []
    ensures Rejoin(ss, gaps) == [] || Rejoin(ss, gaps)[0] != ' '
  {
  }

  /** Splitting inverts rejoining: a well-formed list of sentences, put
      together with any positive number of spaces between neighbours, splits
      back into exactly that list. */
  lemma {:induction false} SentencesOfRejoin(ss: seq<string>, gaps: seq<nat>)
    requires WellFormed(ss)
    requires |gaps| == |ss| - 1
    requires forall i :: 0 <= i < |gaps| ==> gaps[i] >= 1
    ensures Sentences(Rejoin(ss, gaps)) == ss
    decreases |ss|
  {
    var s := Rejoin(ss, gaps);
    if |ss| == 1 {
      assert NoBreak(s);
    } else {
      var rest := Rejoin(ss[1..], gaps[1..]);
      assert rest == [] || rest[0] != ' ' by {
        assert |ss| > 2 ==> EndsSentence(ss[1]);
        RejoinStart(ss[1..], gaps[1..]);
      }
      assert NoBreak(ss[0]) && EndsSentence(ss[0]);
      SentencesOfCons(ss[0], gaps[0], rest);
      assert WellFormed(ss[1..]) by {
        assert forall i :: 0 <= i < |ss| - 1 ==> ss[1..][i] == ss[i + 1];
      }
      SentencesOfRejoin(ss[1..], gaps[1..]);
    }
  }
}
