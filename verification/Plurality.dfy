/** Strict plurality over the surviving proposers (`programs/oracles/src/plurality.rs`). */
module Plurality {
  import opened Options
  import opened Arith

  const TWO_32 := 0x1_0000_0000

  datatype Outcome = Winner(option: u8) | Tie | NoSurvivors

  function Count(votes: seq<u8>, o: u8): nat {
    if votes == [] then 0 else (if votes[0] == o then 1 else 0) + Count(votes[1..], o)
  }

  // ---- what the outcome means ----

  ghost predicate StrictlyBeatsAll(votes: seq<u8>, o: u8) {
    forall p: u8 :: p != o ==> Count(votes, p) < Count(votes, o)
  }

  ghost predicate SharedMaximum(votes: seq<u8>) {
    exists o: u8, p: u8 ::
      && o != p && Count(votes, o) == Count(votes, p) > 0
      && forall q: u8 :: Count(votes, q) <= Count(votes, o)
  }

  ghost predicate IsPlurality(votes: seq<u8>, r: Outcome) {
    match r
    case NoSurvivors => votes == []
    case Winner(o) => StrictlyBeatsAll(votes, o)
    case Tie => SharedMaximum(votes)
  }

  lemma {:induction false} CountInPrefix(votes: seq<u8>, n: nat, o: u8)
    requires n < |votes|
    ensures Count(votes[..n + 1], o) == Count(votes[..n], o) + (if votes[n] == o then 1 else 0)
  {
    if n > 0 {
      CountInPrefix(votes[1..], n - 1, o);
      assert votes[..n + 1][1..] == votes[1..][..n];
      assert votes[..n][1..] == votes[1..][..n - 1];
    } else {
      assert votes[..1][1..] == [];
    }
  }

  lemma {:induction false} CountConcat(xs: seq<u8>, ys: seq<u8>, o: u8)
    ensures Count(xs + ys, o) == Count(xs, o) + Count(ys, o)
  {
    if xs == [] {
      assert xs + ys == ys;
    } else {
      assert (xs + ys)[1..] == xs[1..] + ys;
      CountConcat(xs[1..], ys, o);
    }
  }

  /** The counting loop's array type is `u32`, and the workspace builds with overflow checks: a full counter aborts. */
  ghost predicate CounterOverflows(votes: seq<u8>) {
    exists o: u8 :: Count(votes, o) >= TWO_32
  }

  /** `plurality`; `None` is the abort of an overflowing counter. */
  method Plurality(votes: seq<u8>) returns (r: Option<Outcome>)
    ensures r.None? <==> CounterOverflows(votes)
    ensures r.Some? ==> IsPlurality(votes, r.value)
  {
    if votes == [] {
      return Some(NoSurvivors);
    }
    var counts := new nat[256](_ => 0);
    var i := 0;
    while i < |votes|
      invariant 0 <= i <= |votes|
      invariant forall o: u8 :: counts[o] == Count(votes[..i], o) < TWO_32
    {
      var v := votes[i];
      forall o: u8 ensures Count(votes[..i + 1], o) == Count(votes[..i], o) + (if votes[i] == o then 1 else 0) {
        CountInPrefix(votes, i, o);
      }
      if counts[v] + 1 == TWO_32 {
        CountConcat(votes[..i + 1], votes[i + 1..], v);
        assert votes[..i + 1] + votes[i + 1..] == votes;
        assert Count(votes, v) >= TWO_32;
        return None;
      }
      counts[v] := counts[v] + 1;
      i := i + 1;
    }
    assert votes[..i] == votes;

    var bestOption, bestCount, tied := 0, 0, false;
    var option := 0;
    while option < 256
      invariant 0 <= option <= 256
      invariant forall o: u8 :: counts[o] == Count(votes, o) < TWO_32
      invariant 0 <= bestOption < 256
      invariant forall p: u8 :: p < option ==> counts[p] <= bestCount
      invariant bestCount > 0 ==> bestOption < option && counts[bestOption] == bestCount
      invariant tied <==> bestCount > 0 && exists p: u8 :: p < option && p != bestOption && counts[p] == bestCount
    {
      var count := counts[option];
      if count > bestCount {
        bestCount := count;
        bestOption := option;
        tied := false;
      } else if count == bestCount && count != 0 {
        tied := true;
      }
      option := option + 1;
    }
    assert Count(votes, votes[0]) > 0;
    if tied {
      var p: u8 :| p != bestOption && counts[p] == bestCount;
      assert Count(votes, bestOption) == Count(votes, p) > 0;
      return Some(Tie);
    } else {
      return Some(Winner(bestOption));
    }
  }

  // ---- the specification has exactly one answer ----

  lemma {:induction false} LargestCount(votes: seq<u8>, bound: nat) returns (o: u8)
    requires 0 < bound <= 256
    ensures forall p: u8 :: p < bound ==> Count(votes, p) <= Count(votes, o)
  {
    o := 0;
    if bound > 1 {
      o := LargestCount(votes, bound - 1);
      if Count(votes, bound - 1) > Count(votes, o) {
        o := bound - 1;
      }
    }
  }

  /** A strict winner leaves no room for an empty slice or a shared maximum. */
  lemma WinnerExcludesTheRest(votes: seq<u8>, o: u8)
    requires StrictlyBeatsAll(votes, o)
    ensures votes != [] && !SharedMaximum(votes)
  {
    var other: u8 := if o == 0 then 1 else 0;
    assert Count(votes, other) < Count(votes, o);
    forall p: u8, q: u8 | p != q && Count(votes, p) == Count(votes, q)
      ensures Count(votes, p) < Count(votes, o)
    {
      var notO := if p == o then q else p;
      assert Count(votes, notO) < Count(votes, o);
    }
  }

  /** Every vote slice has exactly one outcome, so the specification determines the scan's answer. */
  lemma OutcomeExistsAndIsUnique(votes: seq<u8>) returns (r: Outcome)
    ensures IsPlurality(votes, r)
    ensures forall r' :: IsPlurality(votes, r') ==> r' == r
  {
    if votes == [] {
      r := NoSurvivors;
    } else if SharedMaximum(votes) {
      r := Tie;
    } else {
      var best := LargestCount(votes, 256);
      r := Winner(best);
      assert Count(votes, votes[0]) > 0;
      forall p: u8 | p != best ensures Count(votes, p) < Count(votes, best) {
        if Count(votes, p) == Count(votes, best) {
          assert SharedMaximum(votes);
        }
      }
    }
    forall r' | IsPlurality(votes, r') ensures r' == r {
      if r'.Winner? {
        WinnerExcludesTheRest(votes, r'.option);
      }
    }
  }

  // ---- order does not matter, and a winner does not need the losers ----

  lemma {:induction false} CountIsMultiplicity(votes: seq<u8>, o: u8)
    ensures Count(votes, o) == multiset(votes)[o]
  {
    if votes != [] {
      CountIsMultiplicity(votes[1..], o);
      assert votes == [votes[0]] + votes[1..];
    }
  }

  /** The outcome depends only on how often each option was chosen. */
  lemma PermutationInvariant(votes: seq<u8>, shuffled: seq<u8>, r: Outcome)
    requires multiset(votes) == multiset(shuffled)
    ensures IsPlurality(votes, r) <==> IsPlurality(shuffled, r)
  {
    forall o: u8 ensures Count(votes, o) == Count(shuffled, o) {
      CountIsMultiplicity(votes, o);
      CountIsMultiplicity(shuffled, o);
    }
    assert |multiset(votes)| == |votes| && |multiset(shuffled)| == |shuffled|;
  }

  /** A winner survives the removal of any vote that was not cast for it. */
  lemma WinnerSurvivesRemoval(votes: seq<u8>, o: u8, i: nat)
    requires i < |votes| && IsPlurality(votes, Winner(o)) && votes[i] != o
    ensures IsPlurality(votes[..i] + votes[i + 1..], Winner(o))
  {
    var fewer := votes[..i] + votes[i + 1..];
    forall p: u8 ensures Count(fewer, p) == Count(votes, p) - (if votes[i] == p then 1 else 0) {
      assert votes == votes[..i + 1] + votes[i + 1..];
      CountConcat(votes[..i + 1], votes[i + 1..], p);
      CountConcat(votes[..i], votes[i + 1..], p);
      CountInPrefix(votes, i, p);
    }
  }

  /** With two options tied at the top, one more vote for either of them decides the outcome. */
  lemma ExtraVoteBreaksTie(votes: seq<u8>, o: u8)
    requires forall q: u8 :: Count(votes, q) <= Count(votes, o)
    ensures IsPlurality(votes + [o], Winner(o))
  {
    forall p: u8 ensures Count(votes + [o], p) == Count(votes, p) + (if o == p then 1 else 0) {
      CountConcat(votes, [o], p);
    }
  }
}
