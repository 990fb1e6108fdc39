/** What a promotion tick saw (`indexer/src/main.rs`, lines 241-257): the frontier over a whole run of the process. */
module CrawlTicks {
  import opened Arith
  import opened Options
  import opened CrawlCursor

  /** A process started by step `s` is still running before step `j`. */
  ghost predicate SameProcess(states: seq<State>, steps: seq<Step>, s: nat, j: nat) {
    && IsRun(states, steps) && s < j <= |steps| && steps[s] == Start
    && forall k :: s < k < j ==> steps[k] != Start && steps[k] != Crash
  }

  /** The last tick of the process before step `j`, or its start. */
  function LastTick(steps: seq<Step>, s: nat, j: nat): (p: nat)
    requires s < j <= |steps|
    ensures s <= p < j
    ensures p == s || steps[p] == TickReads
    ensures forall k :: p < k < j ==> steps[k] != TickReads
    decreases j
  {
    if j == s + 1 then s
    else if steps[j - 1] == TickReads then j - 1
    else LastTick(steps, s, j - 1)
  }

  /** The slot that a recording step records. */
  ghost function RecordedSlot(st: State): int
    requires st.run.Some? && st.run.value.pending.Some? && InLedger(st.ledger, st.run.value.pending.value)
  {
    st.ledger[st.run.value.pending.value.pos].slot
  }

  ghost predicate Records(states: seq<State>, steps: seq<Step>, r: nat) {
    && r < |steps| && r < |states| && steps[r] == Record && states[r].run.Some?
    && states[r].run.value.pending.Some? && InLedger(states[r].ledger, states[r].run.value.pending.value)
  }

  lemma ProcessStep(states: seq<State>, steps: seq<Step>, k: nat)
    requires IsRun(states, steps) && k < |steps| && states[k].run.Some?
    requires steps[k] != Start && steps[k] != Crash
    ensures states[k + 1].run.Some?
    ensures
      var r, r' := states[k].run.value, states[k + 1].run.value;
      && r'.lastMin == (if steps[k] == TickReads then r.minSlot else r.lastMin)
      && (steps[k] == Record ==> Records(states, steps, k))
      && r'.minSlot == (if steps[k] != Record then r.minSlot
                        else if RecordedSlot(states[k]) <= r.minSlot then RecordedSlot(states[k]) else r.minSlot)
      && (steps[k] != Record ==> r'.head == r.head)
      && (steps[k] != TickReads && r.promoting.None? ==> r'.promoting.None? && states[k + 1].cursor == states[k].cursor)
      && (steps[k] == TickReads ==> r.promoting.None? && states[k + 1].cursor == states[k].cursor)
  {
    assert Next(states[k], steps[k], states[k + 1]);
  }

  /** The minimum is the least slot recorded in this run, and none before the first is recorded. */
  ghost predicate MinIsLeast(states: seq<State>, steps: seq<Step>, s: nat, j: nat, min: int) {
    && (forall r :: s < r < j && Records(states, steps, r) ==> min <= RecordedSlot(states[r]))
    && (min == I64_MAX || exists r :: s < r < j && Records(states, steps, r) && RecordedSlot(states[r]) == min)
  }

  /** At every point of a process the minimum is the least slot recorded, and the other value what the last tick saw. */
  lemma {:induction false} ProcessKeepsMinima(states: seq<State>, steps: seq<Step>, s: nat, j: nat)
    requires SameProcess(states, steps, s, j)
    ensures states[j].run.Some? && MinIsLeast(states, steps, s, j, states[j].run.value.minSlot)
    ensures
      var p := LastTick(steps, s, j);
      if p == s then states[j].run.value.lastMin == I64_MAX
      else states[p].run.Some? && states[j].run.value.lastMin == states[p].run.value.minSlot
    decreases j
  {
    if j == s + 1 {
      assert Next(states[s], steps[s], states[s + 1]);
    } else {
      var k := j - 1;
      ProcessKeepsMinima(states, steps, s, k);
      ProcessStep(states, steps, k);
      MinimumStaysLeast(states, steps, s, k);
    }
  }

  lemma MinimumStaysLeast(states: seq<State>, steps: seq<Step>, s: nat, k: nat)
    requires SameProcess(states, steps, s, k + 1) && s < k && states[k].run.Some?
    requires MinIsLeast(states, steps, s, k, states[k].run.value.minSlot)
    ensures states[k + 1].run.Some? && MinIsLeast(states, steps, s, k + 1, states[k + 1].run.value.minSlot)
  {
    ProcessStep(states, steps, k);
    var min, min' := states[k].run.value.minSlot, states[k + 1].run.value.minSlot;
    if steps[k] == Record && min' != min {
      assert RecordedSlot(states[k]) == min';
    } else if min != I64_MAX {
      var r :| s < r < k && Records(states, steps, r) && RecordedSlot(states[r]) == min;
      assert s < r < k + 1;
    }
  }

  /**
    A tick sets out to promote if and only if something was recorded and has a head, and the least slot recorded is the
    one that the tick before it in this process saw.
   */
  lemma TickPromotesIff(states: seq<State>, steps: seq<Step>, s: nat, j: nat)
    requires j < |steps| && SameProcess(states, steps, s, j) && steps[j] == TickReads
    ensures states[j].run.Some? && states[j + 1].run.Some?
    ensures
      var p, r := LastTick(steps, s, j), states[j].run.value;
      states[j + 1].run.value.promoting.Some?
      <==> && p != s && states[p].run.Some? && r.minSlot == states[p].run.value.minSlot
           && r.minSlot != 0x7FFF_FFFF_FFFF_FFFF && r.head.Some?
    ensures states[j + 1].run.value.promoting.Some? ==>
      states[j + 1].run.value.promoting == states[j].run.value.head
  {
    ProcessKeepsMinima(states, steps, s, j);
    assert Next(states[j], steps[j], states[j + 1]);
  }

  /** When a tick sets out to promote, nothing recorded since the tick before it went below what that one saw. */
  lemma PromotionSawNoDescent(states: seq<State>, steps: seq<Step>, s: nat, j: nat, r: nat)
    requires j < |steps| && SameProcess(states, steps, s, j) && steps[j] == TickReads
    requires states[j + 1].run.Some? && states[j + 1].run.value.promoting.Some?
    requires LastTick(steps, s, j) < r < j && Records(states, steps, r)
    ensures
      var p := LastTick(steps, s, j);
      p != s && states[p].run.Some? && RecordedSlot(states[r]) >= states[p].run.value.minSlot
  {
    TickPromotesIff(states, steps, s, j);
    ProcessKeepsMinima(states, steps, s, j);
  }

  /** Each tick of the process up to step `j` finds a lower minimum than the tick before it saw. */
  ghost predicate StillDescending(states: seq<State>, steps: seq<Step>, s: nat, j: nat)
    requires SameProcess(states, steps, s, j)
  {
    forall t :: s < t < j && steps[t] == TickReads && LastTick(steps, s, t) != s ==>
      && states[t].run.Some? && states[LastTick(steps, s, t)].run.Some?
      && states[t].run.value.minSlot < states[LastTick(steps, s, t)].run.value.minSlot
  }

  /** While each interval between ticks lowers the minimum, no tick promotes and the durable cursor stays. */
  lemma {:induction false} DescendingBackfillNeverPromotes(states: seq<State>, steps: seq<Step>, s: nat, j: nat)
    requires SameProcess(states, steps, s, j) && StillDescending(states, steps, s, j)
    ensures states[j].run.Some? && states[j].run.value.promoting.None? && states[j].cursor == states[s].cursor
    decreases j
  {
    if j == s + 1 {
      assert Next(states[s], steps[s], states[s + 1]);
    } else {
      var k := j - 1;
      DescendingBackfillNeverPromotes(states, steps, s, k);
      ProcessStep(states, steps, k);
      if steps[k] == TickReads {
        TickPromotesIff(states, steps, s, k);
      }
    }
  }

  // ---- the head ----

  /** The head is what the process started with or what it recorded, and no recorded slot is newer. */
  lemma {:induction false} HeadIsNewest(states: seq<State>, steps: seq<Step>, s: nat, j: nat)
    requires SameProcess(states, steps, s, j)
    ensures states[j].run.Some?
    ensures
      var head := states[j].run.value.head;
      && (states[s].cursor.Some? ==> head.Some? && states[s].cursor.value.slot <= head.value.slot)
      && (forall r :: s < r < j && Records(states, steps, r) ==>
            head.Some? && RecordedSlot(states[r]) <= head.value.slot)
      && (head == states[s].cursor
          || exists r :: s < r < j && Records(states, steps, r)
                         && head == Some(MarkOf(states[r].ledger[states[r].run.value.pending.value.pos])))
    decreases j
  {
    if j == s + 1 {
      assert Next(states[s], steps[s], states[s + 1]);
    } else {
      var k := j - 1;
      HeadIsNewest(states, steps, s, k);
      ProcessStep(states, steps, k);
      HeadAfterStep(states, steps, k);
      if steps[k] == Record && states[j].run.value.head != states[k].run.value.head {
        assert Records(states, steps, k);
      } else if states[k].run.value.head != states[s].cursor {
        var r :| s < r < k && Records(states, steps, r)
                 && states[k].run.value.head == Some(MarkOf(states[r].ledger[states[r].run.value.pending.value.pos]));
        assert s < r < j;
      }
    }
  }

  lemma HeadAfterStep(states: seq<State>, steps: seq<Step>, k: nat)
    requires IsRun(states, steps) && k < |steps| && (steps[k] == Record ==> Records(states, steps, k))
    requires states[k].run.Some? && steps[k] != Start && steps[k] != Crash
    ensures states[k + 1].run.Some?
    ensures
      var head, head' := states[k].run.value.head, states[k + 1].run.value.head;
      if steps[k] != Record then head' == head
      else
        var m := MarkOf(states[k].ledger[states[k].run.value.pending.value.pos]);
        if head.Some? && RecordedSlot(states[k]) <= head.value.slot then head' == head else head' == Some(m)
  {
    assert Next(states[k], steps[k], states[k + 1]);
  }
}
