/** What a run of draws from the tape yields when the population loops use
    it: which draws give the generator a value, which values they give, and
    the reference outcome `Fill` of filling a number of cells with the retry
    rule of the random fill. */
module DrawRuns {
  import opened RandomValues

  /** The first n draws of the tape all give the generator a value. */
  ghost predicate GoodDraws(lowerBound: int, upperBound: int, power: int, tape: seq<Draw>, n: nat)
    decreases n
  {
    && lowerBound <= upperBound
    && (n == 0
        || (&& |tape| > 0
            && GenerateRandomBigInt(lowerBound, upperBound, power, tape[0]).Ok?
            && GoodDraws(lowerBound, upperBound, power, tape[1..], n - 1)))
  }

  /** The values the first n draws give. */
  ghost function Values(lowerBound: int, upperBound: int, power: int, tape: seq<Draw>, n: nat): (vs: set<int>)
    requires GoodDraws(lowerBound, upperBound, power, tape, n)
    decreases n
  {
    if n == 0 then {}
    else {GenerateRandomBigInt(lowerBound, upperBound, power, tape[0]).value}
         + Values(lowerBound, upperBound, power, tape[1..], n - 1)
  }

  /** The first n draws give n pairwise different values. */
  ghost predicate DistinctDraws(lowerBound: int, upperBound: int, power: int, tape: seq<Draw>, n: nat)
    decreases n
  {
    && GoodDraws(lowerBound, upperBound, power, tape, n)
    && (n == 0
        || (&& GenerateRandomBigInt(lowerBound, upperBound, power, tape[0]).value
                 !in Values(lowerBound, upperBound, power, tape[1..], n - 1)
            && DistinctDraws(lowerBound, upperBound, power, tape[1..], n - 1)))
  }

  /** The values given by the draws before the first one that gives none. */
  ghost function PrefixValues(lowerBound: int, upperBound: int, power: int, tape: seq<Draw>): (vs: set<int>)
    requires lowerBound <= upperBound
  {
    if tape == [] || GenerateRandomBigInt(lowerBound, upperBound, power, tape[0]).Err? then {}
    else {GenerateRandomBigInt(lowerBound, upperBound, power, tape[0]).value}
         + PrefixValues(lowerBound, upperBound, power, tape[1..])
  }

  /** The tape makes n different values before it faults or runs out. */
  ghost predicate Enough(lowerBound: int, upperBound: int, power: int, tape: seq<Draw>, n: nat)
    requires lowerBound <= upperBound
  {
    n <= |PrefixValues(lowerBound, upperBound, power, tape)|
  }

  /** The draw is a sample whose value is among those to avoid: the retry
      loop rejects it and draws again. */
  ghost predicate Rejected(lowerBound: int, upperBound: int, power: int, avoid: set<int>, d: Draw)
    requires lowerBound <= upperBound
  {
    && GenerateRandomBigInt(lowerBound, upperBound, power, d).Ok?
    && GenerateRandomBigInt(lowerBound, upperBound, power, d).value in avoid
  }

  /** The reference outcome of going on with a fill that has placed the
      values `placed` so far and has `count` cells left, drawing from the
      tape at position `from` on: each cell takes draws until one gives a
      value, provided, when `avoiding`, that the value is not among those
      placed; a draw the generator fails on ends the fill with its error, and
      so does the end of the tape.  On success it is every value placed, in
      order. */
  ghost function Fill(lowerBound: int, upperBound: int, power: int, avoiding: bool,
                      tape: seq<Draw>, from: nat, count: nat, placed: seq<int>): (r: Result<seq<int>>)
    requires lowerBound <= upperBound && from <= |tape|
    ensures r.Ok? ==> |r.value| == |placed| + count
    decreases |tape| - from
  {
    if count == 0 then Ok(placed)
    else if from == |tape| then Err(EntropyExhausted)
    else
      var g := GenerateRandomBigInt(lowerBound, upperBound, power, tape[from]);
      if g.Err? then Err(g.error)
      else if avoiding && g.value in placed then
        Fill(lowerBound, upperBound, power, avoiding, tape, from + 1, count, placed)
      else
        Fill(lowerBound, upperBound, power, avoiding, tape, from + 1, count - 1, placed + [g.value])
  }

  /** The values of a sequence, as a set. */
  function Elements(s: seq<int>): (e: set<int>)
  {
    set x | x in s
  }

  /** A fill only adds values: those placed before it stay in front. */
  lemma {:induction false} FillExtends(lowerBound: int, upperBound: int, power: int, avoiding: bool,
                                       tape: seq<Draw>, from: nat, count: nat, placed: seq<int>)
    requires lowerBound <= upperBound && from <= |tape|
    requires Fill(lowerBound, upperBound, power, avoiding, tape, from, count, placed).Ok?
    ensures Fill(lowerBound, upperBound, power, avoiding, tape, from, count, placed).value[..|placed|] == placed
    decreases |tape| - from
  {
    if count > 0 {
      var g := GenerateRandomBigInt(lowerBound, upperBound, power, tape[from]);
      if avoiding && g.value in placed {
        FillExtends(lowerBound, upperBound, power, avoiding, tape, from + 1, count, placed);
      } else {
        var placed' := placed + [g.value];
        FillExtends(lowerBound, upperBound, power, avoiding, tape, from + 1, count - 1, placed');
        var vs := Fill(lowerBound, upperBound, power, avoiding, tape, from + 1, count - 1, placed').value;
        assert vs[..|placed|] == vs[..|placed'|][..|placed|];
      }
    }
  }

  /** Every value the fill adds satisfies the generator's contract, and when
      avoiding, values placed pairwise different stay pairwise different. */
  lemma {:induction false} FillValues(lowerBound: int, upperBound: int, power: int, avoiding: bool,
                                      tape: seq<Draw>, from: nat, count: nat, placed: seq<int>)
    requires lowerBound <= upperBound && from <= |tape|
    requires Fill(lowerBound, upperBound, power, avoiding, tape, from, count, placed).Ok?
    ensures var vs := Fill(lowerBound, upperBound, power, avoiding, tape, from, count, placed).value;
            && (forall k :: |placed| <= k < |vs| ==> Generable(vs[k], lowerBound, upperBound, power))
            && (avoiding && (forall k, l :: 0 <= k < l < |placed| ==> placed[k] != placed[l]) ==>
                  forall k, l :: 0 <= k < l < |vs| ==> vs[k] != vs[l])
    decreases |tape| - from
  {
    if count > 0 {
      var g := GenerateRandomBigInt(lowerBound, upperBound, power, tape[from]);
      if avoiding && g.value in placed {
        FillValues(lowerBound, upperBound, power, avoiding, tape, from + 1, count, placed);
      } else {
        var placed' := placed + [g.value];
        FillValues(lowerBound, upperBound, power, avoiding, tape, from + 1, count - 1, placed');
        FillExtends(lowerBound, upperBound, power, avoiding, tape, from + 1, count - 1, placed');
        var vs := Fill(lowerBound, upperBound, power, avoiding, tape, from + 1, count - 1, placed').value;
        assert vs[|placed|] == placed'[|placed|] == g.value;
        assert forall k :: 0 <= k < |placed| ==> vs[k] == placed'[k] == placed[k];
      }
    }
  }

  /** Without avoiding, the fill succeeds exactly when the next `count`
      draws all give a value: each of them fills the next cell. */
  lemma {:induction false} FillPlain(lowerBound: int, upperBound: int, power: int,
                                     tape: seq<Draw>, from: nat, count: nat, placed: seq<int>)
    requires lowerBound <= upperBound && from <= |tape|
    ensures Fill(lowerBound, upperBound, power, false, tape, from, count, placed).Ok?
            <==> GoodDraws(lowerBound, upperBound, power, tape[from..], count)
    decreases count
  {
    if count > 0 && from < |tape| {
      assert tape[from..][0] == tape[from] && tape[from..][1..] == tape[from + 1..];
      var g := GenerateRandomBigInt(lowerBound, upperBound, power, tape[from]);
      if g.Ok? {
        FillPlain(lowerBound, upperBound, power, tape, from + 1, count - 1, placed + [g.value]);
      }
    }
  }

  /** When avoiding, the fill succeeds exactly when the draws before the
      first failing one bring at least `count` values not placed yet:
      skipped draws repeat a placed value, and each value placed is then
      avoided. */
  lemma {:induction false} FillAvoiding(lowerBound: int, upperBound: int, power: int,
                                        tape: seq<Draw>, from: nat, count: nat, placed: seq<int>)
    requires lowerBound <= upperBound && from <= |tape|
    ensures Fill(lowerBound, upperBound, power, true, tape, from, count, placed).Ok?
            <==> count <= |PrefixValues(lowerBound, upperBound, power, tape[from..]) - Elements(placed)|
    decreases |tape| - from
  {
    if from == |tape| {
      assert tape[from..] == [];
    } else {
      assert tape[from..][0] == tape[from] && tape[from..][1..] == tape[from + 1..];
      var g := GenerateRandomBigInt(lowerBound, upperBound, power, tape[from]);
      if g.Ok? {
        var rest := PrefixValues(lowerBound, upperBound, power, tape[from + 1..]);
        var seen := Elements(placed);
        assert PrefixValues(lowerBound, upperBound, power, tape[from..]) == {g.value} + rest;
        if g.value in placed {
          FreshAbsorbsSeen(g.value, rest, seen);
          assert Fill(lowerBound, upperBound, power, true, tape, from, count, placed)
              == Fill(lowerBound, upperBound, power, true, tape, from + 1, count, placed);
          FillAvoiding(lowerBound, upperBound, power, tape, from + 1, count, placed);
        } else if count > 0 {
          FreshCountsNew(g.value, rest, seen);
          ElementsAppend(placed, g.value);
          assert Fill(lowerBound, upperBound, power, true, tape, from, count, placed)
              == Fill(lowerBound, upperBound, power, true, tape, from + 1, count - 1, placed + [g.value]);
          FillAvoiding(lowerBound, upperBound, power, tape, from + 1, count - 1, placed + [g.value]);
        }
      }
    }
  }

  /** A value already seen brings nothing new. */
  lemma FreshAbsorbsSeen(v: int, rest: set<int>, seen: set<int>)
    requires v in seen
    ensures ({v} + rest) - seen == rest - seen
  {
  }

  /** A value not seen yet brings exactly one new value, and is then seen. */
  lemma FreshCountsNew(v: int, rest: set<int>, seen: set<int>)
    requires v !in seen
    ensures |({v} + rest) - seen| == 1 + |rest - (seen + {v})|
  {
    var unseen := rest - (seen + {v});
    assert ({v} + rest) - seen == {v} + unseen;
    assert v !in unseen;
  }

  /** Appending a value to a sequence adds it to the sequence's values. */
  lemma ElementsAppend(s: seq<int>, v: int)
    ensures Elements(s + [v]) == Elements(s) + {v}
  {
  }

  /** Taken together: a fill from an empty start succeeds exactly when the
      draws before the first failure bring `count` different values. */
  lemma FillAvoidingFromEmpty(lowerBound: int, upperBound: int, power: int, tape: seq<Draw>, count: nat)
    requires lowerBound <= upperBound
    ensures Fill(lowerBound, upperBound, power, true, tape, 0, count, []).Ok?
            <==> Enough(lowerBound, upperBound, power, tape, count)
  {
    var pv := PrefixValues(lowerBound, upperBound, power, tape);
    assert tape[0..] == tape;
    assert Elements([]) == {};
    assert pv - {} == pv;
    FillAvoiding(lowerBound, upperBound, power, tape, 0, count, []);
  }

  /** What the outcome of a fill from an empty start says about the tape:
      without avoiding it succeeds exactly when the first `count` draws are
      good, with it exactly when the tape brings `count` different values,
      and either way it succeeds when the first `count` draws are pairwise
      different. */
  lemma FillVerdict(lowerBound: int, upperBound: int, power: int, avoiding: bool, tape: seq<Draw>, count: nat)
    requires lowerBound <= upperBound
    ensures var ok := Fill(lowerBound, upperBound, power, avoiding, tape, 0, count, []).Ok?;
            && (!avoiding ==> (ok <==> GoodDraws(lowerBound, upperBound, power, tape, count)))
            && (avoiding ==> (ok <==> Enough(lowerBound, upperBound, power, tape, count)))
            && (DistinctDraws(lowerBound, upperBound, power, tape, count) ==> ok)
  {
    assert tape[0..] == tape;
    FillPlain(lowerBound, upperBound, power, tape, 0, count, []);
    FillAvoidingFromEmpty(lowerBound, upperBound, power, tape, count);
    if DistinctDraws(lowerBound, upperBound, power, tape, count) {
      DistinctIsEnough(lowerBound, upperBound, power, tape, count);
    }
  }

  /** Draws that the retry loop rejects, because their value is already
      placed, leave the outcome of the fill as it is: it goes on with the
      draw after them. */
  lemma {:induction false} SkipRejected(lowerBound: int, upperBound: int, power: int, placed: seq<int>,
                                        tape: seq<Draw>, c: nat, d: nat, count: nat)
    requires lowerBound <= upperBound
    requires c <= d <= |tape| && count > 0
    requires forall m :: c <= m < d ==> Rejected(lowerBound, upperBound, power, Elements(placed), tape[m])
    ensures Fill(lowerBound, upperBound, power, true, tape, c, count, placed)
            == Fill(lowerBound, upperBound, power, true, tape, d, count, placed)
    decreases d - c
  {
    if c < d {
      SkipRejected(lowerBound, upperBound, power, placed, tape, c + 1, d, count);
    }
  }

  /** The first n draws give at most the values the whole good prefix gives. */
  lemma {:induction false} ValuesInPrefix(lowerBound: int, upperBound: int, power: int, tape: seq<Draw>, n: nat)
    requires GoodDraws(lowerBound, upperBound, power, tape, n)
    ensures Values(lowerBound, upperBound, power, tape, n) <= PrefixValues(lowerBound, upperBound, power, tape)
    decreases n
  {
    if n > 0 {
      ValuesInPrefix(lowerBound, upperBound, power, tape[1..], n - 1);
    }
  }

  /** n pairwise different draws give exactly n values. */
  lemma {:induction false} DistinctCount(lowerBound: int, upperBound: int, power: int, tape: seq<Draw>, n: nat)
    requires DistinctDraws(lowerBound, upperBound, power, tape, n)
    ensures |Values(lowerBound, upperBound, power, tape, n)| == n
    decreases n
  {
    if n > 0 {
      DistinctCount(lowerBound, upperBound, power, tape[1..], n - 1);
    }
  }

  lemma SubsetNoLarger(a: set<int>, b: set<int>)
    requires a <= b
    ensures |a| <= |b|
  {
    assert b == a + (b - a);
    assert a * (b - a) == {};
  }

  /** When the first n draws give pairwise different values, the tape brings
      enough values for n cells. */
  lemma DistinctIsEnough(lowerBound: int, upperBound: int, power: int, tape: seq<Draw>, n: nat)
    requires DistinctDraws(lowerBound, upperBound, power, tape, n)
    ensures Enough(lowerBound, upperBound, power, tape, n)
  {
    ValuesInPrefix(lowerBound, upperBound, power, tape, n);
    DistinctCount(lowerBound, upperBound, power, tape, n);
    SubsetNoLarger(Values(lowerBound, upperBound, power, tape, n),
                   PrefixValues(lowerBound, upperBound, power, tape));
  }

  /** The tape of samples from, from + 1, ..., from + n - 1. */
  function Counting(from: nat, n: nat): (tape: seq<Draw>)
    ensures |tape| == n
    ensures forall k :: 0 <= k < n ==> tape[k] == Sample(from + k)
  {
    seq(n, (k: nat) => Sample(from + k))
  }

  /** With no power applied, the samples from, ..., from + n - 1 of a range
      that holds them give the values lowerBound + from, ... in order: all
      good, pairwise different, and none below lowerBound + from. */
  lemma {:induction false} CountingValues(lowerBound: int, upperBound: int, power: int, from: nat, n: nat)
    requires lowerBound <= upperBound && power <= 1
    requires from + n <= Width(lowerBound, upperBound)
    ensures DistinctDraws(lowerBound, upperBound, power, Counting(from, n), n)
    ensures forall x :: x in Values(lowerBound, upperBound, power, Counting(from, n), n)
              ==> lowerBound + from <= x
    decreases n
  {
    if n > 0 {
      var tape := Counting(from, n);
      assert tape[1..] == Counting(from + 1, n - 1);
      GenerateCoversRange(lowerBound, upperBound, power, lowerBound + from);
      CountingValues(lowerBound, upperBound, power, from + 1, n - 1);
    }
  }

  /** With no power applied, the tape of samples 0, 1, ..., n-1 makes n
      different values whenever the range holds n of them, so a fill of n
      cells can succeed. */
  lemma CountingDrawsAreDistinct(lowerBound: int, upperBound: int, power: int, n: nat)
    requires lowerBound <= upperBound && power <= 1
    requires n <= Width(lowerBound, upperBound)
    ensures DistinctDraws(lowerBound, upperBound, power, Counting(0, n), n)
    ensures Enough(lowerBound, upperBound, power, Counting(0, n), n)
  {
    CountingValues(lowerBound, upperBound, power, 0, n);
    DistinctIsEnough(lowerBound, upperBound, power, Counting(0, n), n);
  }

  /** A tape on which the second cell needs a redraw: with bounds 0..9 and
      no power, samples 0, 0, 1 fill two distinct cells with 0 and 1; the
      repeated 0 is drawn again. */
  lemma RedrawExample()
    ensures Fill(0, 9, 1, true, [Sample(0), Sample(0), Sample(1)], 0, 2, []) == Ok([0, 1])
    ensures !DistinctDraws(0, 9, 1, [Sample(0), Sample(0), Sample(1)], 2)
    ensures Enough(0, 9, 1, [Sample(0), Sample(0), Sample(1)], 2)
  {
    var tape := [Sample(0), Sample(0), Sample(1)];
    assert tape[1..] == [Sample(0), Sample(1)];
    assert tape[1..][1..] == [Sample(1)];
    assert tape[1..][1..][1..] == [];
    assert GenerateRandomBigInt(0, 9, 1, Sample(0)) == Ok(0);
    assert GenerateRandomBigInt(0, 9, 1, Sample(1)) == Ok(1);
    assert [] + [0] == [0] && [0] + [1] == [0, 1];
    assert Fill(0, 9, 1, true, tape, 3, 0, [0, 1]) == Ok([0, 1]);
    assert Fill(0, 9, 1, true, tape, 2, 1, [0]) == Ok([0, 1]);
    assert Fill(0, 9, 1, true, tape, 1, 1, [0]) == Ok([0, 1]);
    assert Values(0, 9, 1, tape[1..], 1) == {0};
    assert PrefixValues(0, 9, 1, [Sample(1)]) == {1};
    assert PrefixValues(0, 9, 1, tape) == {0, 1};
  }
}
