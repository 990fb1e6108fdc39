/**
  The account mirror as a protocol: a chain that moves on, a live tail that loses, repeats and reorders, and a reconcile
  whose queries interleave with both (`indexer/src/oracle_accounts.rs`, lines 112-255; `indexer/src/reconcile.rs`).
 */
module MirrorProtocol {
  import opened Arith
  import opened Bytes
  import opened Options
  import opened AccountMirror

  type Chain = map<Key, Account>

  /** A delivery to `process`: an account as it was at slot `at`, stamped with a label that is no later. */
  datatype Message = Message(key: Key, account: Account, slotLabel: nat, at: nat)

  /** Where the reconcile task is. `at` is the slot whose state the snapshot observed. */
  datatype Phase =
    | Idle
    | GotSlot(slot: nat)
    | Upserting(slot: nat, at: nat, pending: Chain, present: set<Key>)

  /** `history[s]` is the chain at slot `s`; `lastSlot` is the latest `get_slot` answer. */
  datatype State = State(history: seq<Chain>, inflight: set<Message>, rows: Table, phase: Phase, lastSlot: nat)

  function Owned(p: Program, chain: Chain): Chain {
    map k | k in chain && chain[k].owner == p.id :: chain[k]
  }

  function DecodableKeys(p: Program, chain: Chain): set<Key> {
    set k | k in chain && Decodable(p, k, chain[k])
  }

  // ---- steps ----

  datatype Step =
    | ChainAdvances(next: Chain)
    | TailEmits(m: Message)
    | TailDelivers(m: Message, up: bool)
    | TailDrops(m: Message)
    | AnswerSlot(slot: nat)
    | AnswerSnapshot(at: nat)
    | UpsertOne(key: Key, up: bool)
    | PruneClosed
    | Abort

  ghost predicate Init(st: State) {
    |st.history| == 1 && st.inflight == {} && st.rows == map[] && st.phase == Idle && st.lastSlot == 0
  }

  /** A message tells the truth about the slot it was read at. */
  ghost predicate Truthful(st: State, m: Message) {
    && m.slotLabel <= m.at < |st.history|
    && m.key in st.history[m.at] && st.history[m.at][m.key] == m.account
  }

  /**
    One step. The environment is assumed in three places only: a delivered account is one the chain really held,
    `get_slot` answers lie within the chain and do not decrease, and a snapshot observes some slot from the answer on.
    A delivery leaves the message in flight, so it may be repeated; TailDrops loses it. Abort is a failed RPC call, a
    failed prune, or a restart of the process.
   */
  ghost predicate Next(p: Program, st: State, step: Step, st': State) {
    match step
    case ChainAdvances(next) => st' == st.(history := st.history + [next])
    case TailEmits(m) => Truthful(st, m) && st' == st.(inflight := st.inflight + {m})
    case TailDelivers(m, up) =>
      m in st.inflight && st' == st.(rows := Persisted(p, st.rows, m.key, m.account, m.slotLabel, up))
    case TailDrops(m) => st' == st.(inflight := st.inflight - {m})
    case AnswerSlot(slot) =>
      && st.phase == Idle && st.lastSlot <= slot < |st.history|
      && st' == st.(phase := GotSlot(slot), lastSlot := slot)
    case AnswerSnapshot(at) =>
      && st.phase.GotSlot? && st.phase.slot <= at < |st.history|
      && st' == st.(phase := Upserting(st.phase.slot, at, Owned(p, st.history[at]), {}))
    case UpsertOne(key, up) =>
      && st.phase.Upserting? && key in st.phase.pending
      && var a := st.phase.pending[key];
         st' == st.(
           rows := Persisted(p, st.rows, key, a, st.phase.slot, up),
           phase := st.phase.(
             pending := st.phase.pending - {key},
             present := st.phase.present + if Decodable(p, key, a) then {key} else {}))
    case PruneClosed =>
      && st.phase.Upserting? && st.phase.pending == map[]
      && st' == st.(rows := Pruned(st.rows, st.phase.slot, st.phase.present), phase := Idle)
    case Abort => st' == st.(phase := Idle)
  }

  /** A run: each state follows from the one before it by the step between them. */
  ghost predicate IsRun(p: Program, states: seq<State>, steps: seq<Step>) {
    && |states| == |steps| + 1
    && forall i :: 0 <= i < |steps| ==> Next(p, states[i], steps[i], states[i + 1])
  }

  // ---- the invariant ----

  /** A row holds the bytes, and the columns decoded from them, that its account had at some slot from its label on. */
  ghost predicate Fresh(p: Program, history: seq<Chain>, key: Key, row: Row) {
    exists at: nat :: row.slot <= at < |history| && HeldAt(p, history[at], key, row)
  }

  ghost predicate HeldAt(p: Program, chain: Chain, key: Key, row: Row) {
    && key in chain && chain[key].data == row.data
    && DecodeColumns(p, key, chain[key]) == Some(row.columns)
  }

  ghost predicate PhaseOk(p: Program, st: State) {
    match st.phase
    case Idle => true
    case GotSlot(slot) => slot < |st.history|
    case Upserting(slot, at, pending, present) =>
      && slot <= at < |st.history|
      && (forall k :: k in pending ==> k in st.history[at] && st.history[at][k] == pending[k])
      && present == DecodableKeys(p, st.history[at]) - pending.Keys
  }

  ghost predicate Inv(p: Program, st: State) {
    && st.lastSlot < |st.history|
    && (forall m :: m in st.inflight ==> Truthful(st, m))
    && (forall k :: k in st.rows ==> Fresh(p, st.history, k, st.rows[k]))
    && PhaseOk(p, st)
  }

  /** A longer history keeps a row fresh. */
  lemma FreshLasts(p: Program, history: seq<Chain>, next: Chain, key: Key, row: Row)
    requires Fresh(p, history, key, row)
    ensures Fresh(p, history + [next], key, row)
  {
    var at: nat :| row.slot <= at < |history| && HeldAt(p, history[at], key, row);
    assert (history + [next])[at] == history[at];
  }

  /** Writing an account that the chain held at `at`, under a label no later, keeps every row fresh. */
  lemma PersistKeepsFresh(p: Program, history: seq<Chain>, t: Table, key: Key, a: Account, slot: nat, at: nat, up: bool)
    requires forall k :: k in t ==> Fresh(p, history, k, t[k])
    requires slot <= at < |history| && key in history[at] && history[at][key] == a
    ensures var t' := Persisted(p, t, key, a, slot, up); forall k :: k in t' ==> Fresh(p, history, k, t'[k])
  {
    if Decodable(p, key, a) {
      assert HeldAt(p, history[at], key, RowOf(p, key, a, slot));
    }
  }

  lemma NextKeepsInv(p: Program, st: State, step: Step, st': State)
    requires Inv(p, st) && Next(p, st, step, st')
    ensures Inv(p, st')
  {
    match step
    case ChainAdvances(next) =>
      forall k | k in st'.rows ensures Fresh(p, st'.history, k, st'.rows[k]) {
        FreshLasts(p, st.history, next, k, st.rows[k]);
      }
      assert forall i :: 0 <= i < |st.history| ==> st'.history[i] == st.history[i];
    case TailDelivers(m, up) =>
      PersistKeepsFresh(p, st.history, st.rows, m.key, m.account, m.slotLabel, m.at, up);
      assert st'.history == st.history && st'.inflight == st.inflight && st'.phase == st.phase;
    case AnswerSnapshot(at) =>
      SnapshotStartsOk(p, st, at, st');
    case UpsertOne(key, up) =>
      PersistKeepsFresh(p, st.history, st.rows, key, st.phase.pending[key], st.phase.slot, st.phase.at, up);
      UpsertKeepsPhase(p, st, key, up, st');
    case _ =>
  }

  lemma SnapshotStartsOk(p: Program, st: State, at: nat, st': State)
    requires Next(p, st, AnswerSnapshot(at), st')
    ensures PhaseOk(p, st')
  {
    forall k | k in DecodableKeys(p, st.history[at]) ensures k in Owned(p, st.history[at]) {
      DecodableIsOwned(p, k, st.history[at][k]);
    }
    assert DecodableKeys(p, st.history[at]) - Owned(p, st.history[at]).Keys == {};
  }

  lemma UpsertKeepsPhase(p: Program, st: State, key: Key, up: bool, st': State)
    requires PhaseOk(p, st) && Next(p, st, UpsertOne(key, up), st')
    ensures PhaseOk(p, st')
  {
    var chain := st.history[st.phase.at];
    assert st'.phase.pending.Keys == st.phase.pending.Keys - {key};
    assert (key in DecodableKeys(p, chain)) == Decodable(p, key, st.phase.pending[key]);
    assert st'.phase.present == DecodableKeys(p, chain) - st'.phase.pending.Keys;
  }

  /** Every state of every run satisfies the invariant: in particular every row is fresh in every interleaving. */
  lemma {:induction false} RunKeepsInv(p: Program, states: seq<State>, steps: seq<Step>, i: nat)
    requires IsRun(p, states, steps) && Init(states[0]) && i < |states|
    ensures Inv(p, states[i])
  {
    if i > 0 {
      RunKeepsInv(p, states, steps, i - 1);
      NextKeepsInv(p, states[i - 1], steps[i - 1], states[i]);
    }
  }

  /** Freshness, read off the invariant. */
  lemma RowsAreFresh(p: Program, states: seq<State>, steps: seq<Step>, i: nat, k: Key)
    requires IsRun(p, states, steps) && Init(states[0]) && i < |states| && k in states[i].rows
    ensures Fresh(p, states[i].history, k, states[i].rows[k])
  {
    RunKeepsInv(p, states, steps, i);
  }

  /** The index over the parent column agrees with a scan of the stored bytes in every reachable state. */
  lemma ReachableIsCoherent(p: Program, states: seq<State>, steps: seq<Step>, i: nat)
    requires IsRun(p, states, steps) && Init(states[0]) && i < |states|
    ensures Coherent(p, states[i].rows)
    ensures forall tag: u8 ::
      ListByType(states[i].rows, tag)
      == map k | k in states[i].rows && states[i].rows[k].data != [] && states[i].rows[k].data[0] == tag
           :: states[i].rows[k]
    ensures forall o: Key :: p.Oracles? ==>
      ListByOracle(states[i].rows, o)
      == map k | k in states[i].rows && BytesNameOracle(k, states[i].rows[k].data, o) :: states[i].rows[k]
    ensures forall m: Key :: p.Markets? ==>
      ContributionsFor(states[i].rows, m)
      == map k | k in states[i].rows && BytesNameMarket(states[i].rows[k].data, m) :: states[i].rows[k]
  {
    RunKeepsInv(p, states, steps, i);
    var st := states[i];
    forall k | k in st.rows ensures DecodeColumns(p, k, Account(p.id, st.rows[k].data)) == Some(st.rows[k].columns) {
      var at: nat :| st.rows[k].slot <= at < |st.history| && HeldAt(p, st.history[at], k, st.rows[k]);
      DecodableIsOwned(p, k, st.history[at][k]);
      assert st.history[at][k] == Account(p.id, st.rows[k].data);
    }
    forall tag: u8 ensures
      ListByType(st.rows, tag)
      == map k | k in st.rows && st.rows[k].data != [] && st.rows[k].data[0] == tag :: st.rows[k]
    {
      ListByTypeIsScan(p, st.rows, tag);
    }
    forall o: Key | p.Oracles? ensures
      ListByOracle(st.rows, o) == map k | k in st.rows && BytesNameOracle(k, st.rows[k].data, o) :: st.rows[k]
    {
      ListByOracleIsScan(p.id, st.rows, o);
    }
    forall m: Key | p.Markets? ensures
      ContributionsFor(st.rows, m) == map k | k in st.rows && BytesNameMarket(st.rows[k].data, m) :: st.rows[k]
    {
      ContributionsForIsScan(p.id, st.rows, m);
    }
  }

  /** In every reachable state, on both sides, the columns of every row are what its own bytes name. */
  lemma ReachableColumnsNameBytes(p: Program, states: seq<State>, steps: seq<Step>, i: nat, k: Key)
    requires IsRun(p, states, steps) && Init(states[0]) && i < |states| && k in states[i].rows
    ensures ColumnsNameBytes(p, k, states[i].rows[k].columns, states[i].rows[k].data)
  {
    ReachableIsCoherent(p, states, steps, i);
    DecodedColumnsNameBytes(p, k, Account(p.id, states[i].rows[k].data));
  }

  // ---- labels and deletions ----

  /** While a row survives, its label never decreases. */
  lemma LabelNeverDecreases(p: Program, st: State, step: Step, st': State, k: Key)
    requires Next(p, st, step, st') && k in st.rows && k in st'.rows
    ensures st.rows[k].slot <= st'.rows[k].slot
  {
  }

  /** The same over any stretch of a run in which the row is never deleted. */
  lemma {:induction false} LabelsGrowWhileRowSurvives(
    p: Program, states: seq<State>, steps: seq<Step>, i: nat, j: nat, k: Key)
    requires IsRun(p, states, steps) && i <= j < |states|
    requires forall n :: i <= n <= j ==> k in states[n].rows
    ensures states[i].rows[k].slot <= states[j].rows[k].slot
    decreases j - i
  {
    if i < j {
      LabelsGrowWhileRowSurvives(p, states, steps, i, j - 1, k);
      assert k in states[j - 1].rows && k in states[j].rows;
      assert Next(p, states[j - 1], steps[j - 1], states[(j - 1) + 1]);
      LabelNeverDecreases(p, states[j - 1], steps[j - 1], states[j], k);
    }
  }

  /**
    A row disappears only by a prune, only if its label is at most the snapshot's slot, and only if the chain state the
    snapshot observed held no decodable account there - also when upserts of that reconcile failed.
   */
  lemma OnlyClosedRowsAreDeleted(p: Program, states: seq<State>, steps: seq<Step>, i: nat, k: Key)
    requires IsRun(p, states, steps) && Init(states[0]) && i < |steps|
    requires k in states[i].rows && k !in states[i + 1].rows
    ensures
      var st := states[i];
      && steps[i].PruneClosed? && st.phase.Upserting?
      && st.rows[k].slot <= st.phase.slot <= st.phase.at < |st.history|
      && !(k in st.history[st.phase.at] && Decodable(p, k, st.history[st.phase.at][k]))
  {
    RunKeepsInv(p, states, steps, i);
    assert Next(p, states[i], steps[i], states[i + 1]);
  }

  // ---- convergence ----

  /** From slot `c` on the chain does not change, and nothing is in flight. */
  ghost predicate Settled(st: State, c: nat) {
    && c < |st.history| && st.inflight == {}
    && forall i :: c <= i < |st.history| ==> st.history[i] == st.history[c]
  }

  /** The steps of a reconcile that goes through, next to a chain that produces slots without changing an account. */
  ghost predicate IsSureStep(chain: Chain, step: Step) {
    match step
    case ChainAdvances(next) => next == chain
    case AnswerSnapshot(_) => true
    case UpsertOne(_, up) => up
    case _ => false
  }

  /** A whole reconcile: the slot answer, then sure steps, then the prune. */
  ghost predicate IsReconcile(p: Program, states: seq<State>, steps: seq<Step>, slot: nat, chain: Chain) {
    && IsRun(p, states, steps) && |steps| >= 2
    && steps[0] == AnswerSlot(slot) && steps[|steps| - 1] == PruneClosed
    && forall i :: 0 < i < |steps| - 1 ==> IsSureStep(chain, steps[i])
  }

  /** How far a reconcile of `chain` at `slot` has got, starting from table `t`. */
  ghost predicate Halfway(p: Program, t: Table, slot: nat, c: nat, chain: Chain, st: State) {
    && Settled(st, c) && st.history[c] == chain && c <= slot == st.lastSlot
    && match st.phase
       case Idle => false
       case GotSlot(s) => s == slot && st.rows == t
       case Upserting(s, at, pending, present) =>
         && s == slot && c <= at < |st.history|
         && (forall k :: k in pending ==> k in chain && chain[k] == pending[k])
         && (forall k: Key :: HalfwayRow(p, t, slot, chain, pending, st.rows, k))
  }

  /** A key still pending has its old row; a key already handled has its reconciled row, a closed one its old row. */
  ghost predicate HalfwayRow(p: Program, t: Table, slot: nat, chain: Chain, pending: Chain, rows: Table, k: Key) {
    if k in chain && Decodable(p, k, chain[k]) && k !in pending
    then k in rows && Some(rows[k]) == Reconciled(p, t, slot, chain, k)
    else (k in rows <==> k in t) && (k in t ==> rows[k] == t[k])
  }

  lemma SureStepAdvances(p: Program, t: Table, slot: nat, c: nat, chain: Chain, st: State, step: Step, st': State)
    requires Inv(p, st) && Halfway(p, t, slot, c, chain, st)
    requires Next(p, st, step, st') && IsSureStep(chain, step)
    ensures Halfway(p, t, slot, c, chain, st')
  {
    match step
    case ChainAdvances(next) =>
      assert forall i :: 0 <= i < |st.history| ==> st'.history[i] == st.history[i];
    case AnswerSnapshot(at) =>
      forall k: Key ensures HalfwayRow(p, t, slot, chain, st'.phase.pending, st'.rows, k) {
        if k in chain && Decodable(p, k, chain[k]) {
          DecodableIsOwned(p, k, chain[k]);
        }
      }
    case UpsertOne(key, up) =>
      forall k: Key ensures HalfwayRow(p, t, slot, chain, st'.phase.pending, st'.rows, k) {
        assert HalfwayRow(p, t, slot, chain, st.phase.pending, st.rows, k);
      }
  }

  lemma {:induction false} HalfwayThroughout(
    p: Program, states: seq<State>, steps: seq<Step>, slot: nat, c: nat, chain: Chain, i: nat)
    requires IsReconcile(p, states, steps, slot, chain) && Inv(p, states[0])
    requires Settled(states[0], c) && states[0].history[c] == chain && c <= slot
    requires 0 < i < |steps|
    ensures Inv(p, states[i]) && Halfway(p, states[0].rows, slot, c, chain, states[i])
  {
    assert Next(p, states[i - 1], steps[i - 1], states[(i - 1) + 1]);
    if i == 1 {
      NextKeepsInv(p, states[0], steps[0], states[1]);
    } else {
      HalfwayThroughout(p, states, steps, slot, c, chain, i - 1);
      assert IsSureStep(chain, steps[i - 1]);
      NextKeepsInv(p, states[i - 1], steps[i - 1], states[i]);
      SureStepAdvances(p, states[0].rows, slot, c, chain, states[i - 1], steps[i - 1], states[i]);
    }
  }

  /**
    Convergence, exactly: once the chain has settled with nothing in flight, a reconcile in which every upsert succeeds
    leaves the table saying exactly what the chain says - no missing, stale or closed row - if and only if the rows
    labelled later than its slot already did. What happened before does not matter.
   */
  lemma ReconcileConvergesIff(p: Program, states: seq<State>, steps: seq<Step>, slot: nat, c: nat)
    requires |states| > 0 && Inv(p, states[0]) && Settled(states[0], c) && c <= slot
    requires IsReconcile(p, states, steps, slot, states[0].history[c])
    ensures
      var chain := states[0].history[c];
      Contents(states[|steps|].rows) == ChainContents(p, chain) <==> NewerRowsAgree(p, states[0].rows, slot, chain)
    ensures
      var last := states[|steps|];
      Settled(last, c) && last.history[c] == states[0].history[c] && last.phase == Idle && last.lastSlot == slot
  {
    var chain, t, n := states[0].history[c], states[0].rows, |steps| - 1;
    HalfwayThroughout(p, states, steps, slot, c, chain, n);
    assert Next(p, states[n], steps[n], states[n + 1]);
    PruneFinishes(p, t, slot, c, chain, states[n], states[n + 1]);
    ReconciledExactIff(p, t, slot, chain, states[n + 1].rows);
  }

  lemma PruneFinishes(p: Program, t: Table, slot: nat, c: nat, chain: Chain, st: State, st': State)
    requires Inv(p, st) && Halfway(p, t, slot, c, chain, st) && Next(p, st, PruneClosed, st')
    ensures IsReconciled(p, t, slot, chain, st'.rows)
  {
    assert st.phase.present == DecodableKeys(p, chain);
    forall k: Key
      ensures (k in st'.rows <==> Reconciled(p, t, slot, chain, k).Some?)
              && (k in st'.rows ==> Some(st'.rows[k]) == Reconciled(p, t, slot, chain, k))
    {
      assert HalfwayRow(p, t, slot, chain, st.phase.pending, st.rows, k);
      assert k in DecodableKeys(p, chain) <==> k in chain && Decodable(p, k, chain[k]);
    }
  }

  /** Convergence in its usual form, over whole runs from an empty database: no stored label is later than the slot. */
  lemma RunConverges(p: Program, states: seq<State>, steps: seq<Step>, from: nat, to: nat, slot: nat, c: nat)
    requires IsRun(p, states, steps) && Init(states[0]) && from < to < |states|
    requires Settled(states[from], c) && c <= slot
    requires IsReconcile(p, states[from..to + 1], steps[from..to], slot, states[from].history[c])
    requires forall k :: k in states[from].rows ==> states[from].rows[k].slot <= slot
    ensures Converged(p, states[to], c) && states[to].history[c] == states[from].history[c]
  {
    RunKeepsInv(p, states, steps, from);
    ReconcileConvergesIff(p, states[from..to + 1], steps[from..to], slot, c);
  }

  // ---- and it stays converged ----

  /**
    The chain has settled from slot `c` on, the table says what it says, and what is still on its way - messages, a slot
    answer, a snapshot - was read from the settled chain.
   */
  ghost predicate Converged(p: Program, st: State, c: nat) {
    && c < |st.history| && (forall i :: c <= i < |st.history| ==> st.history[i] == st.history[c])
    && (forall m :: m in st.inflight ==> c <= m.at)
    && Contents(st.rows) == ChainContents(p, st.history[c]) && c <= st.lastSlot
    && (st.phase.Upserting? ==> c <= st.phase.at < |st.history|)
    && (st.phase.GotSlot? ==> c <= st.phase.slot)
  }

  /**
    Further steps of a chain that changes no account any more. The tail may go on delivering what it reads from it,
    upserts may fail and reconciles may be cut short.
   */
  ghost predicate IsQuietStep(c: nat, chain: Chain, step: Step) {
    match step
    case ChainAdvances(next) => next == chain
    case TailEmits(m) => c <= m.at
    case _ => true
  }

  lemma QuietStepKeepsConverged(p: Program, st: State, c: nat, step: Step, st': State)
    requires Inv(p, st) && Converged(p, st, c) && Next(p, st, step, st') && IsQuietStep(c, st.history[c], step)
    ensures Converged(p, st', c) && st'.history[c] == st.history[c]
  {
    match step
    case ChainAdvances(next) =>
      assert forall i :: 0 <= i < |st.history| ==> st'.history[i] == st.history[i];
    case TailDelivers(m, up) =>
      assert st.history[m.at] == st.history[c];
      SettledWriteKeepsContents(p, st.rows, st.history[c], m.key, m.account, m.slotLabel, up);
    case UpsertOne(key, up) =>
      assert st.history[st.phase.at] == st.history[c];
      SettledWriteKeepsContents(p, st.rows, st.history[c], key, st.phase.pending[key], st.phase.slot, up);
    case PruneClosed =>
      PruneKeepsRows(p, st, c, st');
    case _ =>
  }

  /**
    After any run and a settled reconcile the mirror stays converged for as long as the chain is quiet, whatever the
    tail repeats of it, whichever later upserts fail and whichever later reconciles are cut short.
   */
  lemma {:induction false} ConvergedStays(
    p: Program, states: seq<State>, steps: seq<Step>, from: nat, to: nat, slot: nat, c: nat, later: nat)
    requires IsRun(p, states, steps) && Init(states[0]) && from < to <= later < |states|
    requires Settled(states[from], c) && c <= slot
    requires IsReconcile(p, states[from..to + 1], steps[from..to], slot, states[from].history[c])
    requires forall k :: k in states[from].rows ==> states[from].rows[k].slot <= slot
    requires forall i :: to <= i < later ==> IsQuietStep(c, states[from].history[c], steps[i])
    ensures Converged(p, states[later], c) && states[later].history[c] == states[from].history[c]
    decreases later
  {
    if to == later {
      RunConverges(p, states, steps, from, to, slot, c);
    } else {
      var i := later - 1;
      ConvergedStays(p, states, steps, from, to, slot, c, i);
      RunKeepsInv(p, states, steps, i);
      assert Next(p, states[i], steps[i], states[i + 1]);
      QuietStepKeepsConverged(p, states[i], c, steps[i], states[i + 1]);
    }
  }

  /** Writing an account as the settled chain has it rewrites what is there. */
  lemma SettledWriteKeepsContents(p: Program, rows: Table, chain: Chain, key: Key, a: Account, slot: nat, up: bool)
    requires Contents(rows) == ChainContents(p, chain) && key in chain && chain[key] == a
    ensures Contents(Persisted(p, rows, key, a, slot, up)) == Contents(rows)
  {
    if Decodable(p, key, a) {
      assert key in ChainContents(p, chain);
      assert key in Contents(rows);
      assert Contents(rows)[key] == Content(DecodeColumns(p, key, a).value, a.data);
    }
  }

  /** A prune after a settled snapshot deletes nothing. */
  lemma PruneKeepsRows(p: Program, st: State, c: nat, st': State)
    requires Inv(p, st) && Converged(p, st, c) && Next(p, st, PruneClosed, st')
    ensures st'.rows == st.rows
  {
    assert st.phase.present == DecodableKeys(p, st.history[c]);
    forall k | k in st.rows ensures k in st.phase.present {
      assert k in Contents(st.rows);
      assert k in ChainContents(p, st.history[c]);
    }
  }

  // ---- why nothing may be in flight ----

  /**
    A repeated message brings a closed account's row back after a reconcile has pruned it, so convergence needs the
    tail to be quiet: a run of eight steps that ends with such a row.
   */
  lemma RepeatedMessageResurrects(p: Program, k: Key, a: Account) returns (states: seq<State>, steps: seq<Step>)
    requires Decodable(p, k, a)
    ensures IsRun(p, states, steps) && Init(states[0]) && |steps| == 8
    ensures steps[6] == PruneClosed && states[7].rows == map[] && states[7].phase == Idle
    ensures
      var last := states[8];
      last.history != [] && k !in last.history[|last.history| - 1]
      && k in last.rows && last.rows[k].slot < last.lastSlot
  {
    var m := Message(k, a, 1, 1);
    var h1: seq<Chain> := [map[]];
    var h2: seq<Chain> := h1 + [map[k := a]];
    var h3: seq<Chain> := h2 + [map[]];
    var s0 := State(h1, {}, map[], Idle, 0);
    var s1 := s0.(history := h2);
    var s2 := s1.(inflight := {m});
    var s3 := s2.(history := h3);
    var s4 := Delivered(p, s3, m);
    var s5, s6, s7 := EmptyReconcile(p, s4, 2);
    var s8 := Delivered(p, s7, m);
    states := [s0, s1, s2, s3, s4, s5, s6, s7, s8];
    steps := [ChainAdvances(map[k := a]), TailEmits(m), ChainAdvances(map[]), TailDelivers(m, true), AnswerSlot(2),
              AnswerSnapshot(2), PruneClosed, TailDelivers(m, true)];
    assert {} + {m} == {m};
    assert Next(p, s0, steps[0], s1) && Next(p, s1, steps[1], s2) && Next(p, s2, steps[2], s3);
  }

  /** A message in flight is delivered into an empty table. */
  lemma Delivered(p: Program, st: State, m: Message) returns (st': State)
    requires m in st.inflight && st.rows == map[] && Decodable(p, m.key, m.account)
    ensures Next(p, st, TailDelivers(m, true), st')
    ensures st' == st.(rows := map[m.key := RowOf(p, m.key, m.account, m.slotLabel)])
  {
    st' := st.(rows := map[m.key := RowOf(p, m.key, m.account, m.slotLabel)]);
  }

  /** A reconcile that observes an empty chain deletes every row up to its slot. */
  lemma EmptyReconcile(p: Program, st: State, slot: nat) returns (asked: State, observed: State, st': State)
    requires st.phase == Idle && st.lastSlot <= slot < |st.history| && st.history[slot] == map[]
    requires forall k :: k in st.rows ==> st.rows[k].slot <= slot
    ensures Next(p, st, AnswerSlot(slot), asked) && Next(p, asked, AnswerSnapshot(slot), observed)
    ensures Next(p, observed, PruneClosed, st') && st' == st.(rows := map[], lastSlot := slot)
  {
    asked := st.(phase := GotSlot(slot), lastSlot := slot);
    observed := asked.(phase := Upserting(slot, slot, Owned(p, st.history[slot]), {}));
    assert Owned(p, st.history[slot]) == map[];
    st' := observed.(rows := Pruned(st.rows, slot, {}), phase := Idle);
    assert Pruned(st.rows, slot, {}) == map[];
  }
}
