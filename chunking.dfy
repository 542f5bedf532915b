/** The packing half of `split_text` (backend/ai_service.py): sentences are
    packed greedily, in order, into a buffer joined by single spaces; a buffer
    is closed when adding the next sentence and a space would exceed
    `max_chars`, and every closed buffer is emitted stripped.

    The specification is a partition of the sentence list into groups
    (`GreedyLayout`), one group per buffer. `Layout` builds it front first;
    `LayoutUnique` shows no other partition has the greedy shape, which is how
    the loop of `SplitText`, that extends the partition at its end (growing or
    replacing the last group) while `Layout` builds it from the front, is tied
    to `Chunks`.

    `GreedyUncons`, `GreedyCons`, `GreedyDrop` and `GreedyRegroup` only
    restate `GreedyLayout` one step down or regroup a concatenation; they
    exist to keep the context of the recursive lemmas small for the solver. */
module Chunking {
  import opened PyStr
  import opened SentenceSplit

  /** The groups concatenated, in order. */
  function Flatten(gs: seq<seq<string>>): seq<string> {
    if gs == [] then [] else gs[0] + Flatten(gs[1..])
  }

  lemma {:induction false} FlattenSnoc(gs: seq<seq<string>>, g: seq<string>)
    ensures Flatten(gs + [g]) == Flatten(gs) + g
    decreases |gs|
  {
    if gs != [] {
      assert (gs + [g])[1..] == gs[1..] + [g];
      FlattenSnoc(gs[1..], g);
    }
  }

  /** `gs` is how the packing loop groups `ss` into buffers for this
      `maxChars`, stated group by group from the front: the first group is a
      non-empty prefix of `ss`; if it holds two or more sentences their join
      fits in `maxChars`; it was closed only because its join, a space and the
      next sentence are longer than `maxChars`; and the remaining groups lay out
      the rest of `ss` the same way. `GreedyLayoutGroups` restates this for
      every group at once. */
  predicate GreedyLayout(ss: seq<string>, gs: seq<seq<string>>, maxChars: int)
    decreases |gs|
  {
    if gs == [] then ss == []
    else
      && gs[0] != [] && |gs[0]| <= |ss| && ss[..|gs[0]|] == gs[0]
      && (|gs[0]| >= 2 ==> |Join(gs[0])| <= maxChars)
      && (|gs| >= 2 && gs[1] != [] ==> |Join(gs[0])| + |gs[1][0]| + 1 > maxChars)
      && GreedyLayout(ss[|gs[0]|..], gs[1..], maxChars)
  }

  /** The group-by-group reading of `GreedyLayout`: the groups cover `ss` in
      order, none is empty, every group of two or more sentences fits, and
      every group was closed only because the next sentence did not fit. */
  lemma {:induction false} GreedyLayoutGroups(ss: seq<string>, gs: seq<seq<string>>, maxChars: int)
    requires GreedyLayout(ss, gs, maxChars)
    ensures Flatten(gs) == ss
    ensures forall k :: 0 <= k < |gs| ==> gs[k] != []
    ensures forall k :: 0 <= k < |gs| && |gs[k]| >= 2 ==> |Join(gs[k])| <= maxChars
    ensures forall k :: 0 < k < |gs| ==> |Join(gs[k - 1])| + |gs[k][0]| + 1 > maxChars
    decreases |gs|
  {
    if gs != [] {
      var tail := gs[1..];
      GreedyLayoutGroups(ss[|gs[0]|..], tail, maxChars);
      assert ss == gs[0] + ss[|gs[0]|..];
      assert forall k :: 0 < k < |gs| ==> gs[k] == tail[k - 1];
    }
  }

  /** What `GreedyLayout` says of a layout with first group `g`, one step down
      (a solver step, as are the next three such lemmas). */
  lemma GreedyUncons(ss: seq<string>, g: seq<string>, rest: seq<seq<string>>, maxChars: int)
    requires GreedyLayout(ss, [g] + rest, maxChars)
    ensures g != [] && |g| <= |ss| && ss[..|g|] == g
    ensures |g| >= 2 ==> |Join(g)| <= maxChars
    ensures rest != [] && rest[0] != [] ==> |Join(g)| + |rest[0][0]| + 1 > maxChars
    ensures GreedyLayout(ss[|g|..], rest, maxChars)
  {
    assert ([g] + rest)[1..] == rest;
  }

  /** A first group and a greedy layout of the rest make a greedy layout. */
  lemma GreedyCons(ss: seq<string>, g: seq<string>, rest: seq<seq<string>>, maxChars: int)
    requires g != [] && |g| <= |ss| && ss[..|g|] == g
    requires |g| >= 2 ==> |Join(g)| <= maxChars
    requires rest != [] && rest[0] != [] ==> |Join(g)| + |rest[0][0]| + 1 > maxChars
    requires GreedyLayout(ss[|g|..], rest, maxChars)
    ensures GreedyLayout(ss, [g] + rest, maxChars)
  {
    assert ([g] + rest)[1..] == rest;
  }

  /** A layout of a single group covers exactly that group. */
  lemma GreedySole(ss: seq<string>, g: seq<string>, maxChars: int)
    requires GreedyLayout(ss, [g], maxChars)
    ensures ss == g
  {
    GreedyUncons(ss, g, [], maxChars);
  }

  /** Appending a sentence behind the first group: when the groups after it,
      relaid over the longer list, still start with the same sentence, the
      first group keeps its place. */
  lemma GreedyLift(ss: seq<string>, x: string, g: seq<string>, rest: seq<seq<string>>, rest2: seq<seq<string>>, maxChars: int)
    requires GreedyLayout(ss, [g] + rest, maxChars)
    requires rest != [] && rest2 != [] && rest[0] != [] && rest2[0] != [] && rest2[0][0] == rest[0][0]
    requires GreedyLayout(ss[|g|..] + [x], rest2, maxChars)
    ensures GreedyLayout(ss + [x], [g] + rest2, maxChars)
  {
    GreedyUncons(ss, g, rest, maxChars);
    assert (ss + [x])[..|g|] == g;
    assert (ss + [x])[|g|..] == ss[|g|..] + [x];
    GreedyCons(ss + [x], g, rest2, maxChars);
  }

  /** Replacing the last group by a greedy layout of that group and one more
      sentence keeps the whole layout greedy, provided the new groups start
      with the same sentence as the group they replace. */
  lemma {:induction false} GreedyReplaceLast(ss: seq<string>, closed: seq<seq<string>>, open: seq<string>, x: string,
                                             last: seq<seq<string>>, maxChars: int)
    requires open != [] && GreedyLayout(ss, closed + [open], maxChars)
    requires GreedyLayout(open + [x], last, maxChars) && last != [] && last[0] != [] && last[0][0] == open[0]
    ensures GreedyLayout(ss + [x], closed + last, maxChars)
    decreases |closed|
  {
    if closed == [] {
      assert ss == open by {
        assert [] + [open] == [open];
        GreedySole(ss, open, maxChars);
      }
      assert closed + last == last;
    } else {
      GreedyDrop(ss, closed, open, maxChars);
      GreedyReplaceLast(ss[|closed[0]|..], closed[1..], open, x, last, maxChars);
      GreedyReplaceStep(ss, closed[0], closed[1..], open, x, last, maxChars);
      GreedyRegroup(ss + [x], closed, last, maxChars);
    }
  }

  /** A layout with several groups, seen as its first group and the rest. */
  lemma GreedyDrop(ss: seq<string>, closed: seq<seq<string>>, open: seq<string>, maxChars: int)
    requires closed != [] && GreedyLayout(ss, closed + [open], maxChars)
    ensures GreedyLayout(ss, [closed[0]] + (closed[1..] + [open]), maxChars)
    ensures |closed[0]| <= |ss| && GreedyLayout(ss[|closed[0]|..], closed[1..] + [open], maxChars)
  {
    assert closed + [open] == [closed[0]] + (closed[1..] + [open]);
    GreedyUncons(ss, closed[0], closed[1..] + [open], maxChars);
  }

  /** The converse regrouping: a first group in front of the rest. */
  lemma GreedyRegroup(ss: seq<string>, closed: seq<seq<string>>, last: seq<seq<string>>, maxChars: int)
    requires closed != [] && GreedyLayout(ss, [closed[0]] + (closed[1..] + last), maxChars)
    ensures GreedyLayout(ss, closed + last, maxChars)
  {
    assert closed + last == [closed[0]] + (closed[1..] + last);
  }

  /** One level of `GreedyReplaceLast`: the first group `c` stays in front of
      the relaid rest. */
  lemma GreedyReplaceStep(ss: seq<string>, c: seq<string>, tail: seq<seq<string>>, open: seq<string>, x: string,
                          last: seq<seq<string>>, maxChars: int)
    requires open != [] && GreedyLayout(ss, [c] + (tail + [open]), maxChars)
    requires GreedyLayout(ss[|c|..] + [x], tail + last, maxChars)
    requires last != [] && last[0] != [] && last[0][0] == open[0]
    ensures GreedyLayout(ss + [x], [c] + (tail + last), maxChars)
  {
    var rest, rest2 := tail + [open], tail + last;
    assert rest[0] != [] && rest2[0] != [] && rest2[0][0] == rest[0][0] by {
      if tail != [] {
        GreedyUncons(ss, c, rest, maxChars);
        assert rest == [tail[0]] + (tail[1..] + [open]);
        GreedyUncons(ss[|c|..], tail[0], tail[1..] + [open], maxChars);
      }
    }
    GreedyLift(ss, x, c, rest, rest2, maxChars);
  }

  /** Extending the open buffer by a sentence that fits keeps the layout greedy. */
  lemma GreedyExtend(ss: seq<string>, closed: seq<seq<string>>, open: seq<string>, x: string, maxChars: int)
    requires open != [] && GreedyLayout(ss, closed + [open], maxChars)
    requires |Join(open)| + |x| + 1 <= maxChars
    ensures GreedyLayout(ss + [x], closed + [open + [x]], maxChars)
  {
    JoinSnoc(open, x);
    GreedyOne(open + [x], maxChars);
    GreedyReplaceLast(ss, closed, open, x, [open + [x]], maxChars);
  }

  /** Closing the open buffer before a sentence that does not fit, and opening
      a new one with it, keeps the layout greedy. */
  lemma GreedyClose(ss: seq<string>, closed: seq<seq<string>>, open: seq<string>, x: string, maxChars: int)
    requires open != [] && GreedyLayout(ss, closed + [open], maxChars)
    requires |Join(open)| + |x| + 1 > maxChars
    ensures GreedyLayout(ss + [x], (closed + [open]) + [[x]], maxChars)
  {
    assert GreedyLayout(open, [open], maxChars) by {
      GreedyLayoutGroups(ss, closed + [open], maxChars);
      assert (closed + [open])[|closed|] == open;
      GreedyOne(open, maxChars);
    }
    GreedyPair(open, x, maxChars);
    GreedyReplaceLast(ss, closed, open, x, [open] + [[x]], maxChars);
    assert (closed + [open]) + [[x]] == closed + ([open] + [[x]]);
  }

  /** A non-empty list whose join fits (or that holds one sentence) is one group. */
  lemma GreedyOne(g: seq<string>, maxChars: int)
    requires g != []
    requires |g| >= 2 ==> |Join(g)| <= maxChars
    ensures GreedyLayout(g, [g], maxChars)
  {
    assert g[..|g|] == g;
    assert g[|g|..] == [];
    GreedyCons(g, g, [], maxChars);
    assert [g] + [] == [g];
  }

  /** A group that fits, closed because `x` does not fit after it, followed
      by `x` alone. */
  lemma GreedyPair(g: seq<string>, x: string, maxChars: int)
    requires GreedyLayout(g, [g], maxChars)
    requires |Join(g)| + |x| + 1 > maxChars
    ensures GreedyLayout(g + [x], [g] + [[x]], maxChars)
  {
    GreedyUncons(g, g, [], maxChars);
    assert (g + [x])[..|g|] == g;
    assert (g + [x])[|g|..] == [x];
    GreedySingle(x, maxChars);
    GreedyCons(g + [x], g, [[x]], maxChars);
  }

  /** A single sentence forms a greedy layout of itself. */
  lemma GreedySingle(x: string, maxChars: int)
    ensures GreedyLayout([x], [[x]], maxChars)
  {
    assert [[x]][1..] == [];
    assert [x][1..] == [];
  }

  /** A prefix of the list longer than the first greedy group does not fit:
      its join is longer than `maxChars`. */
  lemma LongerPrefixOverflows(ss: seq<string>, g: seq<string>, rest: seq<seq<string>>, b: seq<string>, maxChars: int)
    requires GreedyLayout(ss, [g] + rest, maxChars)
    requires |g| < |b| <= |ss| && ss[..|b|] == b
    ensures |Join(b)| > maxChars
  {
    var n := |g|;
    GreedyNext(ss, g, rest, maxChars);
    assert |Join(b[..n + 1])| > maxChars by {
      assert b[..n] == g;
      assert b[..n + 1] == g + [b[n]];
      JoinSnoc(g, b[n]);
    }
    JoinPrefixShorter(b, n + 1);
  }

  /** A first group that does not cover the list is followed by a group that
      starts with the next sentence, which did not fit after it. */
  lemma GreedyNext(ss: seq<string>, g: seq<string>, rest: seq<seq<string>>, maxChars: int)
    requires GreedyLayout(ss, [g] + rest, maxChars) && |g| < |ss|
    ensures |g| <= |ss| && ss[..|g|] == g
    ensures |Join(g)| + |ss[|g|]| + 1 > maxChars
  {
    GreedyUncons(ss, g, rest, maxChars);
    var tail := ss[|g|..];
    assert rest == [rest[0]] + rest[1..];
    GreedyUncons(tail, rest[0], rest[1..], maxChars);
  }

  /** The greedy layout is unique: two partitions of the same list that both
      have the greedy shape are the same partition. */
  lemma {:induction false} LayoutUnique(ss: seq<string>, gs1: seq<seq<string>>, gs2: seq<seq<string>>, maxChars: int)
    requires GreedyLayout(ss, gs1, maxChars) && GreedyLayout(ss, gs2, maxChars)
    ensures gs1 == gs2
    decreases |ss|
  {
    if gs1 != [] && gs2 != [] {
      var a, b := gs1[0], gs2[0];
      var rest1, rest2 := gs1[1..], gs2[1..];
      assert gs1 == [a] + rest1 && gs2 == [b] + rest2;
      if |a| < |b| {
        GreedyUncons(ss, b, rest2, maxChars);
        LongerPrefixOverflows(ss, a, rest1, b, maxChars);
      } else if |b| < |a| {
        GreedyUncons(ss, a, rest1, maxChars);
        LongerPrefixOverflows(ss, b, rest2, a, maxChars);
      } else {
        GreedyUncons(ss, a, rest1, maxChars);
        GreedyUncons(ss, b, rest2, maxChars);
        LayoutUnique(ss[|a|..], rest1, rest2, maxChars);
      }
    }
  }

  /** The size of the first buffer: starting from the first `n` sentences,
      keep adding the next one while the buffer, a space and it fit. */
  function Grow(ss: seq<string>, maxChars: int, n: nat): (r: nat)
    requires 1 <= n <= |ss|
    requires n >= 2 ==> |Join(ss[..n])| <= maxChars
    ensures n <= r <= |ss|
    ensures r >= 2 ==> |Join(ss[..r])| <= maxChars
    ensures r < |ss| ==> |Join(ss[..r])| + |ss[r]| + 1 > maxChars
    decreases |ss| - n
  {
    if n < |ss| && |Join(ss[..n])| + |ss[n]| + 1 <= maxChars then
      assert ss[..n + 1] == ss[..n] + [ss[n]];
      JoinSnoc(ss[..n], ss[n]);
      Grow(ss, maxChars, n + 1)
    else n
  }

  /** The greedy partition of `ss`, built one group at a time from the front. */
  function Layout(ss: seq<string>, maxChars: int): (gs: seq<seq<string>>)
    ensures GreedyLayout(ss, gs, maxChars)
    decreases |ss|
  {
    if ss == [] then []
    else
      var n := Grow(ss, maxChars, 1);
      var rest := Layout(ss[n..], maxChars);
      var gs := [ss[..n]] + rest;
      assert gs[1..] == rest;
      assert ss[n..] == ss[|gs[0]|..];
      gs
  }

  /** What closing a buffer holding the group `g` appends to the chunk list:
      the stripped buffer, or nothing when the buffer is empty. */
  function Piece(g: seq<string>): seq<string> {
    if Join(g) == [] then [] else [Strip(Join(g))]
  }

  function Emit(gs: seq<seq<string>>): seq<string> {
    if gs == [] then [] else Emit(gs[..|gs| - 1]) + Piece(gs[|gs| - 1])
  }

  /** Emitting one more group appends its piece. */
  lemma EmitSnoc(gs: seq<seq<string>>, g: seq<string>)
    ensures Emit(gs + [g]) == Emit(gs) + Piece(g)
  {
    assert (gs + [g])[..|gs|] == gs;
  }

  /** `split_text(text, max_chars)`. */
  function Chunks(text: string, maxChars: int): seq<string> {
    Emit(Layout(Sentences(text), maxChars))
  }

  /** Every sentence but the last is non-empty, so the buffer is non-empty
      whenever it holds a sentence that is not the last. */
  lemma InnerSentencesNonEmpty(text: string)
    ensures forall i :: 0 <= i < |Sentences(text)| - 1 ==> Sentences(text)[i] != []
  {
    SentencesWellFormed(text);
    var ss := Sentences(text);
    forall i | 0 <= i < |ss| - 1
      ensures ss[i] != []
    {
      assert EndsSentence(ss[i]);
    }
  }

  /** Once the loop has laid out every sentence greedily, closing the last
      buffer gives `Chunks`. */
  lemma PackingComplete(text: string, closed: seq<seq<string>>, open: seq<string>, maxChars: int)
    requires GreedyLayout(Sentences(text), closed + [open], maxChars)
    ensures Emit(closed) + Piece(open) == Chunks(text, maxChars)
  {
    var ss := Sentences(text);
    LayoutUnique(ss, closed + [open], Layout(ss, maxChars), maxChars);
    EmitSnoc(closed, open);
  }

  /** What the loop of `split_text` knows after its first `i` sentences:
      the groups behind the closed buffers and the open one lay those
      sentences out greedily, and the open group ends with sentence `i - 1`. */
  predicate Packed(ss: seq<string>, i: nat, closed: seq<seq<string>>, open: seq<string>, maxChars: int) {
    && 0 < i <= |ss|
    && open != [] && open[|open| - 1] == ss[i - 1]
    && GreedyLayout(ss[..i], closed + [open], maxChars)
  }

  lemma PackFirst(ss: seq<string>, maxChars: int)
    requires ss != []
    ensures Packed(ss, 1, [], [ss[0]], maxChars)
  {
    GreedySingle(ss[0], maxChars);
    assert ss[..1] == [ss[0]];
  }

  lemma PackExtend(ss: seq<string>, i: nat, closed: seq<seq<string>>, open: seq<string>, maxChars: int)
    requires Packed(ss, i, closed, open, maxChars) && i < |ss|
    requires |Join(open)| + |ss[i]| + 1 <= maxChars
    ensures Packed(ss, i + 1, closed, open + [ss[i]], maxChars)
    ensures Join(open + [ss[i]]) == Join(open) + " " + ss[i]
  {
    assert ss[..i + 1] == ss[..i] + [ss[i]];
    GreedyExtend(ss[..i], closed, open, ss[i], maxChars);
    JoinSnoc(open, ss[i]);
  }

  lemma PackClose(ss: seq<string>, i: nat, closed: seq<seq<string>>, open: seq<string>, maxChars: int)
    requires Packed(ss, i, closed, open, maxChars) && i < |ss|
    requires |Join(open)| + |ss[i]| + 1 > maxChars
    ensures Packed(ss, i + 1, closed + [open], [ss[i]], maxChars)
  {
    assert ss[..i + 1] == ss[..i] + [ss[i]];
    GreedyClose(ss[..i], closed, open, ss[i], maxChars);
  }

  /** The loop of `split_text`: `current` is the open buffer, `chunks` the
      emitted ones. The ghost `closed` and `open` record the groups of
      sentences behind them. */
  method SplitText(text: string, maxChars: int) returns (chunks: seq<string>)
    ensures chunks == Chunks(text, maxChars)
  {
    var sentences := Sentences(text);
    InnerSentencesNonEmpty(text);
    chunks := [];
    var current := "";
    ghost var closed: seq<seq<string>> := [];
    ghost var open: seq<string> := [];
    for i := 0 to |sentences|
      invariant i == 0 ==> closed == [] && open == [] && current == ""
      invariant i > 0 ==> Packed(sentences, i, closed, open, maxChars)
      invariant current == Join(open)
      invariant chunks == Emit(closed)
    {
      var sentence := sentences[i];
      if i > 0 {
        assert |current| >= |sentences[i - 1]| > 0;
      }
      if |current| + |sentence| + 1 <= maxChars {
        current := current + (if current != "" then " " else "") + sentence;
        if i > 0 {
          PackExtend(sentences, i, closed, open, maxChars);
          open := open + [sentence];
        } else {
          PackFirst(sentences, maxChars);
          open := [sentence];
        }
      } else {
        if current != "" {
          chunks := chunks + [Strip(current)];
          PackClose(sentences, i, closed, open, maxChars);
          EmitSnoc(closed, open);
          closed := closed + [open];
        } else {
          PackFirst(sentences, maxChars);
        }
        current := sentence;
        open := [sentence];
      }
    }
    if current != "" {
      chunks := chunks + [Strip(current)];
    }
    assert sentences[..|sentences|] == sentences;
    PackingComplete(text, closed, open, maxChars);
  }

  /** Every sentence of every group is one of the sentences laid out. */
  lemma {:induction false} FlattenMember(gs: seq<seq<string>>)
    ensures forall k, x :: 0 <= k < |gs| && x in gs[k] ==> x in Flatten(gs)
    decreases |gs|
  {
    if gs != [] {
      FlattenMember(gs[1..]);
      assert forall k :: 0 < k < |gs| ==> gs[k] == gs[1..][k - 1];
    }
  }

  /** Every sentence laid out sits in some group. */
  lemma {:induction false} FlattenLocate(gs: seq<seq<string>>, x: string)
    requires x in Flatten(gs)
    ensures exists k, i :: 0 <= k < |gs| && 0 <= i < |gs[k]| && gs[k][i] == x
    decreases |gs|
  {
    if x in gs[0] {
      var i :| 0 <= i < |gs[0]| && gs[0][i] == x;
      assert gs[0][i] == x;
    } else {
      FlattenLocate(gs[1..], x);
      var k, i :| 0 <= k < |gs[1..]| && 0 <= i < |gs[1..][k]| && gs[1..][k][i] == x;
      assert gs[k + 1][i] == x;
    }
  }

  /** The pieces emitted for groups that fit, or that hold one sentence, are
      either within `maxChars` or the strip of a single sentence of `ss`. */
  lemma {:induction false} EmitFits(gs: seq<seq<string>>, ss: seq<string>, maxChars: int)
    requires forall k :: 0 <= k < |gs| ==> gs[k] != []
    requires forall k :: 0 <= k < |gs| && |gs[k]| >= 2 ==> |Join(gs[k])| <= maxChars
    requires forall k, x :: 0 <= k < |gs| && x in gs[k] ==> x in ss
    ensures forall c :: c in Emit(gs) ==> |c| <= maxChars || exists x :: x in ss && c == Strip(x)
    decreases |gs|
  {
    if gs != [] {
      var init, last := gs[..|gs| - 1], gs[|gs| - 1];
      assert forall k :: 0 <= k < |init| ==> init[k] == gs[k];
      EmitFits(init, ss, maxChars);
      if |last| == 1 {
        assert last == [last[0]] && last[0] in ss;
      }
    }
  }

  /** The groups behind the chunks of `text`: they lay its sentences out
      greedily, so together they are the sentence list in order, none is
      empty, every group of two or more sentences fits, and every group was
      closed only because the next sentence did not fit. */
  lemma ChunkGroups(text: string, maxChars: int)
    ensures var gs := Layout(Sentences(text), maxChars);
      && Chunks(text, maxChars) == Emit(gs)
      && Flatten(gs) == Sentences(text)
      && (forall k :: 0 <= k < |gs| ==> gs[k] != [])
      && (forall k :: 0 <= k < |gs| && |gs[k]| >= 2 ==> |Join(gs[k])| <= maxChars)
      && (forall k :: 0 < k < |gs| ==> |Join(gs[k - 1])| + |gs[k][0]| + 1 > maxChars)
  {
    GreedyLayoutGroups(Sentences(text), Layout(Sentences(text), maxChars), maxChars);
  }

  /** A chunk longer than `maxChars` is a single sentence, stripped: every
      chunk built from two or more sentences fits. */
  lemma LongChunkIsOneSentence(text: string, maxChars: int)
    ensures forall c :: c in Chunks(text, maxChars) && |c| > maxChars ==>
      exists x :: x in Sentences(text) && c == Strip(x)
  {
    var ss := Sentences(text);
    var gs := Layout(ss, maxChars);
    GreedyLayoutGroups(ss, gs, maxChars);
    FlattenMember(gs);
    EmitFits(gs, ss, maxChars);
  }

  /** Emitting never yields more pieces than groups, and a group whose join
      is not empty yields its own piece, the stripped join. */
  lemma {:induction false} EmitCount(gs: seq<seq<string>>, k: nat)
    requires k < |gs|
    ensures |Emit(gs)| <= |gs|
    ensures Join(gs[k]) != [] ==> Strip(Join(gs[k])) in Emit(gs)
    decreases |gs|
  {
    var init := gs[..|gs| - 1];
    assert Emit(gs) == Emit(init) + Piece(gs[|gs| - 1]);
    if k < |gs| - 1 {
      assert init[k] == gs[k];
      EmitCount(init, k);
    } else if init != [] {
      EmitCount(init, 0);
    }
  }

  /** `split_text` returns nothing exactly for the empty text: `re.split`
      gives `[""]` and the empty buffer is never flushed, while any other text
      has a non-empty first sentence. */
  lemma {:induction false} ChunksEmptyIff(text: string, maxChars: int)
    ensures Chunks(text, maxChars) == [] <==> text == []
  {
    var ss := Sentences(text);
    var gs := Layout(ss, maxChars);
    if text == [] {
      assert NextBreak(text, 0) == 0;
      assert ss == [[]];
      LayoutSingle([], maxChars);
      assert Emit(gs) == Emit([]) + Piece([[]]);
    } else {
      assert ss[0] != [] by {
        SentencesWellFormed(text);
        if |ss| == 1 {
          Reassemble(text);
        }
      }
      GreedyLayoutGroups(ss, gs, maxChars);
      assert gs != [] && gs[0][0] == ss[0] by {
        assert Flatten(gs) == gs[0] + Flatten(gs[1..]);
      }
      EmitCount(gs, 0);
    }
  }

  /** One sentence is laid out as one group. */
  lemma LayoutSingle(x: string, maxChars: int)
    ensures Layout([x], maxChars) == [[x]]
  {
    var ss := [x];
    assert Grow(ss, maxChars, 1) == 1;
    assert ss[1..] == [] && ss[..1] == ss;
    assert Layout(ss[1..], maxChars) == [];
  }

  /** Whitespace that holds no split point comes back as one empty chunk: the
      unstripped buffer is not empty, its strip is. */
  lemma BlankTextGivesEmptyChunk(maxChars: int)
    ensures Chunks("   ", maxChars) == [""]
  {
    var text := "   ";
    assert !IsBreak(text, 0) && !IsBreak(text, 1) && !IsBreak(text, 2);
    assert NextBreak(text, 0) == |text|;
    var ss := Sentences(text);
    assert ss == [text];
    LayoutSingle(text, maxChars);
    var gs := Layout(ss, maxChars);
    assert AllSpace(text);
    assert Emit(gs) == Emit([]) + Piece([text]);
  }

  /** Two sentences are laid out apart exactly when the first, a space and
      the second are longer than `maxChars`. */
  lemma LayoutPair(x: string, y: string, maxChars: int)
    ensures |x| + |y| + 1 > maxChars ==> Layout([x, y], maxChars) == [[x], [y]]
    ensures |x| + |y| + 1 <= maxChars ==> Layout([x, y], maxChars) == [[x, y]]
  {
    var ss := [x, y];
    assert ss[..1] == [x] && ss[1..] == [y] && ss[..2] == ss && ss[2..] == [];
    if |x| + |y| + 1 > maxChars {
      assert Grow(ss, maxChars, 1) == 1;
      LayoutSingle(y, maxChars);
    } else {
      assert Grow(ss, maxChars, 2) == 2;
    }
  }

  /** The chunks of two laid-out sentences that are their own strips. */
  lemma EmitPair(x: string, y: string)
    requires x != [] && !IsSpace(x[0]) && !IsSpace(x[|x| - 1])
    requires y != [] && !IsSpace(y[0]) && !IsSpace(y[|y| - 1])
    ensures Emit([[x], [y]]) == [x, y]
    ensures Emit([[x, y]]) == [x + " " + y]
  {
    StripTrimmed(x);
    StripTrimmed(y);
    assert [[x], [y]][..1] == [[x]];
    assert Emit([[x]]) == Emit([]) + Piece([x]);
    JoinSnoc([x], y);
    assert [x] + [y] == [x, y];
    var j := x + " " + y;
    assert j[0] == x[0] && j[|j| - 1] == y[|y| - 1];
    StripTrimmed(j);
    assert Emit([[x, y]]) == Emit([]) + Piece([x, y]);
  }

  /** The chunks of a text made of two sentences, each its own strip, with
      one space between them: one chunk when they fit together, two when not. */
  lemma ChunksOfPair(x: string, y: string, maxChars: int)
    requires NoBreak(x) && EndsSentence(x) && NoBreak(y)
    requires !IsSpace(x[0]) && !IsSpace(x[|x| - 1])
    requires y != [] && !IsSpace(y[0]) && !IsSpace(y[|y| - 1])
    ensures |x| + |y| + 1 > maxChars ==> Chunks(x + " " + y, maxChars) == [x, y]
    ensures |x| + |y| + 1 <= maxChars ==> Chunks(x + " " + y, maxChars) == [x + " " + y]
  {
    assert Sentences(x + " " + y) == [x, y] by {
      assert Spaces(1) == " ";
      assert y[0] != ' ';
      SentencesOfCons(x, 1, y);
      SentencesOfSentence(y);
    }
    LayoutPair(x, y, maxChars);
    EmitPair(x, y);
  }

  /** Two sentences that do not fit together in 10 characters become two
      chunks. */
  lemma ExampleTooLongTogether()
    ensures Chunks("Hello there. Goodbye now.", 10) == ["Hello there.", "Goodbye now."]
  {
    var a, b := "Hello there.", "Goodbye now.";
    assert NoBreak(a) && EndsSentence(a) && NoBreak(b);
    assert !IsSpace(a[0]) && !IsSpace(a[|a| - 1]) && !IsSpace(b[0]) && !IsSpace(b[|b| - 1]);
    assert "Hello there. Goodbye now." == a + " " + b;
    ChunksOfPair(a, b, 10);
  }

  /** Two short sentences share one chunk, joined by a single space. */
  lemma ExampleFitTogether()
    ensures Chunks("Hello. World.", 100) == ["Hello. World."]
  {
    var a, b := "Hello.", "World.";
    assert NoBreak(a) && EndsSentence(a) && NoBreak(b);
    assert !IsSpace(a[0]) && !IsSpace(a[|a| - 1]) && !IsSpace(b[0]) && !IsSpace(b[|b| - 1]);
    assert "Hello. World." == a + " " + b;
    ChunksOfPair(a, b, 100);
  }

  /** A sentence at least `maxChars` long is a group of its own: nothing fits
      beside it, before or after. */
  lemma LongSentenceAlone(text: string, maxChars: int)
    ensures var gs := Layout(Sentences(text), maxChars);
      forall k, i :: 0 <= k < |gs| && 0 <= i < |gs[k]| && |gs[k][i]| >= maxChars ==> gs[k] == [gs[k][i]]
  {
    var gs := Layout(Sentences(text), maxChars);
    GreedyLayoutGroups(Sentences(text), gs, maxChars);
    forall k, i | 0 <= k < |gs| && 0 <= i < |gs[k]| && |gs[k][i]| >= maxChars
      ensures gs[k] == [gs[k][i]]
    {
      if |gs[k]| >= 2 {
        JoinLongerThanPart(gs[k], i);
      } else {
        assert gs[k] == [gs[k][0]];
      }
    }
  }

  /** A non-empty sentence at least `maxChars` long becomes a chunk of its
      own: its strip is one of the chunks of the text. */
  lemma LongSentenceChunk(text: string, maxChars: int, x: string)
    requires x in Sentences(text) && x != [] && |x| >= maxChars
    ensures Strip(x) in Chunks(text, maxChars)
  {
    var gs := Layout(Sentences(text), maxChars);
    GreedyLayoutGroups(Sentences(text), gs, maxChars);
    FlattenLocate(gs, x);
    var k, i :| 0 <= k < |gs| && 0 <= i < |gs[k]| && gs[k][i] == x;
    if |gs[k]| >= 2 {
      JoinLongerThanPart(gs[k], i);
    }
    assert gs[k] == [x];
    EmitCount(gs, k);
  }
}
