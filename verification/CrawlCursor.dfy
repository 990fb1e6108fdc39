/**
  The transaction crawl with its durable cursor (`indexer/src/processor.rs`, `indexer/src/main.rs`,
  `indexer/src/state.rs`, `indexer/src/db/cursor.rs`, `indexer/src/db/events.rs`), over runs, crashes and restarts.
 */
module CrawlCursor {
  import opened Arith
  import opened Bytes
  import opened Options

  /** The key of an event row: a signature and an instruction index. */
  datatype EventKey = EventKey(signature: bytes, ixIndex: nat)

  datatype Event = Event(slot: int, data: bytes)

  type Events = map<EventKey, Event>

  /** A position of the crawl: the newest signature and its slot. */
  datatype Mark = Mark(signature: bytes, slot: int)

  // ---- the pieces of the source ----

  /** `INSERT ... ON CONFLICT (signature, ix_index) DO NOTHING`. */
  function Inserted(events: Events, key: EventKey, e: Event): Events {
    if key in events then events else events[key := e]
  }

  /** `session.head` after one instruction. */
  function NewHead(head: Option<Mark>, m: Mark): Option<Mark> {
    if head.None? || m.slot > head.value.slot then Some(m) else head
  }

  /** `frontier_stable`. */
  predicate FrontierStable(prevMin: int, curMin: int) {
    curMin != I64_MAX && curMin == prevMin
  }

  /** The indexer process and its database. */
  class Indexer {
    var events: Events
    var cursor: Option<Mark>
    var head: Option<Mark>
    var minSlot: int
    var lastMin: int

    /** A process over an existing database resumes from the durable cursor. */
    constructor Resume(events: Events, cursor: Option<Mark>)
      ensures this.events == events && this.cursor == cursor
      ensures head == cursor && minSlot == I64_MAX && lastMin == I64_MAX
    {
      this.events, this.cursor := events, cursor;
      head, minSlot, lastMin := cursor, I64_MAX, I64_MAX;
    }

    /** `insert_event`. */
    method InsertEvent(key: EventKey, e: Event)
      modifies this`events
      ensures events == Inserted(old(events), key, e)
    {
      if key !in events {
        events := events[key := e];
      }
    }

    /** `KassandraProcessor::process`; `up` is whether the insert succeeds, and a failed insert returns early. */
    method Process(key: EventKey, e: Event, up: bool)
      modifies this`events, this`head, this`minSlot
      ensures events == if up then Inserted(old(events), key, e) else old(events)
      ensures head == if up then NewHead(old(head), Mark(key.signature, e.slot)) else old(head)
      ensures minSlot == if up then Min(e.slot, old(minSlot)) else old(minSlot)
    {
      if !up {
        return;
      }
      InsertEvent(key, e);
      if head.None? || e.slot > head.value.slot {
        head := Some(Mark(key.signature, e.slot));
      }
      if e.slot < minSlot {
        minSlot := e.slot;
      }
    }

    /** One tick of the promotion task; `up` is whether `set_cursor` succeeds. */
    method PromoteTick(up: bool) returns (promoted: bool)
      modifies this`cursor, this`lastMin
      ensures promoted <==> minSlot == old(lastMin) && minSlot != 0x7FFF_FFFF_FFFF_FFFF && head.Some? && up
      ensures cursor == if promoted then head else old(cursor)
      ensures lastMin == minSlot
    {
      promoted := false;
      if FrontierStable(lastMin, minSlot) {
        if head.Some? {
          if up {
            cursor := head;
            promoted := true;
          }
        }
      }
      lastMin := minSlot;
    }
  }

  // ---- the protocol ----

  /** A transaction of the program with its instructions; the ledger only grows. */
  datatype Tx = Tx(signature: bytes, slot: int, ixs: seq<bytes>)

  /** One instruction of the ledger. */
  datatype Item = Item(pos: nat, ix: nat)

  /**
    A running process. `backlog` is what the crawler still owes: everything newer than the cursor it resumed from, plus
    what the chain added since; an instruction whose insert fails is not tried again. `pending` was inserted but not
    yet recorded in the session; `promoting` was read by a tick that has not written it yet; `recorded` counts the
    instructions recorded in this run.
   */
  datatype Run = Run(
    head: Option<Mark>, minSlot: int, lastMin: int, backlog: set<Item>, pending: Option<Item>,
    promoting: Option<Mark>, recorded: nat)

  datatype State = State(ledger: seq<Tx>, events: Events, cursor: Option<Mark>, run: Option<Run>)

  datatype Step =
    | LedgerGrows(tx: Tx)
    | Start
    | Insert(item: Item, up: bool)
    | Record
    | TickReads
    | TickWrites(up: bool)
    | Crash

  predicate InLedger(ledger: seq<Tx>, item: Item) {
    item.pos < |ledger| && item.ix < |ledger[item.pos].ixs|
  }

  function KeyOf(ledger: seq<Tx>, item: Item): EventKey
    requires InLedger(ledger, item)
  {
    EventKey(ledger[item.pos].signature, item.ix)
  }

  function EventOf(ledger: seq<Tx>, item: Item): Event
    requires InLedger(ledger, item)
  {
    Event(ledger[item.pos].slot, ledger[item.pos].ixs[item.ix])
  }

  function MarkOf(tx: Tx): Mark {
    Mark(tx.signature, tx.slot)
  }

  /** The position comes after the transaction with this signature: `getSignaturesForAddress(until)` returns it. */
  predicate Newer(ledger: seq<Tx>, signature: bytes, pos: nat) {
    forall q :: 0 <= q < |ledger| && ledger[q].signature == signature ==> q < pos
  }

  function ItemsAt(ledger: seq<Tx>, pos: nat): set<Item>
    requires pos < |ledger|
  {
    set ix | 0 <= ix < |ledger[pos].ixs| :: Item(pos, ix)
  }

  /** What a crawl started at this cursor returns. */
  function NewerItems(ledger: seq<Tx>, cursor: Option<Mark>): set<Item> {
    set pos, ix | 0 <= pos < |ledger| && 0 <= ix < |ledger[pos].ixs|
                  && (cursor.Some? ==> Newer(ledger, cursor.value.signature, pos)) :: Item(pos, ix)
  }

  function Init(): State {
    State([], map[], None, None)
  }

  ghost predicate Next(st: State, step: Step, st': State) {
    match step
    case LedgerGrows(tx) =>
      && (forall q :: 0 <= q < |st.ledger| ==> st.ledger[q].signature != tx.signature && st.ledger[q].slot <= tx.slot)
      && tx.slot < I64_MAX
      && var ledger := st.ledger + [tx];
         st' == st.(ledger := ledger, run :=
           match st.run
           case None => None
           case Some(r) => Some(r.(backlog := r.backlog + ItemsAt(ledger, |st.ledger|))))
    case Start =>
      && st.run.None?
      && st' == st.(run := Some(Run(st.cursor, I64_MAX, I64_MAX, NewerItems(st.ledger, st.cursor), None, None, 0)))
    case Insert(item, up) =>
      && st.run.Some? && st.run.value.pending.None? && item in st.run.value.backlog && InLedger(st.ledger, item)
      && st' ==
         if up then st.(
           events := Inserted(st.events, KeyOf(st.ledger, item), EventOf(st.ledger, item)),
           run := Some(st.run.value.(pending := Some(item))))
         else st.(run := Some(st.run.value.(backlog := st.run.value.backlog - {item})))
    case Record =>
      && st.run.Some? && st.run.value.pending.Some? && InLedger(st.ledger, st.run.value.pending.value)
      && var r, item := st.run.value, st.run.value.pending.value;
         var m := MarkOf(st.ledger[item.pos]);
         st' == st.(run := Some(r.(
           head := NewHead(r.head, m), minSlot := Min(m.slot, r.minSlot), backlog := r.backlog - {item},
           pending := None, recorded := r.recorded + 1)))
    case TickReads =>
      && st.run.Some? && st.run.value.promoting.None?
      && var r := st.run.value;
         st' == st.(run := Some(
           if FrontierStable(r.lastMin, r.minSlot) then r.(promoting := r.head) else r.(lastMin := r.minSlot)))
    case TickWrites(up) =>
      && st.run.Some? && st.run.value.promoting.Some?
      && st' == st.(
           cursor := if up then st.run.value.promoting else st.cursor,
           run := Some(st.run.value.(promoting := None)))
    case Crash => st' == st.(run := None)
  }

  ghost predicate IsRun(states: seq<State>, steps: seq<Step>) {
    && |states| == |steps| + 1 && states[0] == Init()
    && forall i :: 0 <= i < |steps| ==> Next(states[i], steps[i], states[i + 1])
  }

  // ---- positions ----

  /** Signatures differ and slots do not decrease along the ledger. */
  ghost predicate Ordered(ledger: seq<Tx>) {
    forall q, q' :: 0 <= q < q' < |ledger| ==>
      ledger[q].signature != ledger[q'].signature && ledger[q].slot <= ledger[q'].slot
  }

  /** Where a mark's transaction stands in the ledger, or -1. */
  ghost function Position(ledger: seq<Tx>, m: Option<Mark>): (p: int)
    ensures -1 <= p < |ledger|
    ensures p >= 0 ==> m.Some? && MarkOf(ledger[p]) == m.value
    decreases |ledger|
  {
    if ledger == [] || m.None? then -1
    else if MarkOf(ledger[|ledger| - 1]) == m.value then |ledger| - 1
    else Position(ledger[..|ledger| - 1], m)
  }

  lemma {:induction false} PositionOf(ledger: seq<Tx>, q: nat)
    requires Ordered(ledger) && q < |ledger|
    ensures Position(ledger, Some(MarkOf(ledger[q]))) == q
    decreases |ledger|
  {
    if q < |ledger| - 1 {
      PositionOf(ledger[..|ledger| - 1], q);
    }
  }

  lemma PositionStays(ledger: seq<Tx>, tx: Tx, m: Option<Mark>)
    requires Ordered(ledger + [tx]) && (m.Some? ==> Position(ledger, m) >= 0)
    ensures Position(ledger + [tx], m) == Position(ledger, m)
  {
    assert (ledger + [tx])[..|ledger|] == ledger;
    if m.Some? {
      var p := Position(ledger, m);
      assert (ledger + [tx])[p] == ledger[p] && (ledger + [tx])[|ledger|] == tx;
    }
  }

  /** For a transaction of the ledger, what a crawl from it returns is what stands after it. */
  lemma NewerIsAfter(ledger: seq<Tx>, m: Mark, pos: nat)
    requires Ordered(ledger) && Position(ledger, Some(m)) >= 0
    ensures Newer(ledger, m.signature, pos) <==> Position(ledger, Some(m)) < pos
  {
  }

  /** The head only ever moves on along the ledger. */
  lemma HeadMovesOn(ledger: seq<Tx>, head: Option<Mark>, q: nat)
    requires Ordered(ledger) && q < |ledger| && (head.Some? ==> Position(ledger, head) >= 0)
    ensures Position(ledger, head) <= Position(ledger, NewHead(head, MarkOf(ledger[q])))
    ensures 0 <= Position(ledger, NewHead(head, MarkOf(ledger[q])))
  {
    PositionOf(ledger, q);
    if head.Some? {
      var p := Position(ledger, head);
      assert q < p ==> ledger[q].slot <= ledger[p].slot;
    }
  }

  // ---- the invariant ----

  /** A mark's transaction has a row in `events`, with the mark's slot. */
  ghost predicate HasRow(events: Events, m: Mark) {
    exists ix: nat :: EventKey(m.signature, ix) in events && events[EventKey(m.signature, ix)].slot == m.slot
  }

  ghost predicate Known(st: State, m: Option<Mark>) {
    m.Some? ==> Position(st.ledger, m) >= 0 && HasRow(st.events, m.value)
  }

  ghost predicate RunOk(st: State, r: Run) {
    && Known(st, r.head) && Known(st, r.promoting)
    && Position(st.ledger, st.cursor) <= Position(st.ledger, r.head)
    && (r.promoting.Some? ==>
          Position(st.ledger, st.cursor) <= Position(st.ledger, r.promoting) <= Position(st.ledger, r.head))
    && (forall item :: item in r.backlog ==> InLedger(st.ledger, item))
    && (r.pending.Some? ==> InLedger(st.ledger, r.pending.value) && KeyOf(st.ledger, r.pending.value) in st.events)
    && (r.recorded == 0 ==> r.minSlot == I64_MAX && r.promoting.None?)
  }

  /** Every event row is an instruction of the ledger. */
  ghost predicate RowsFromLedger(ledger: seq<Tx>, events: Events) {
    forall key :: key in events ==>
      exists item: Item :: InLedger(ledger, item) && KeyOf(ledger, item) == key && EventOf(ledger, item) == events[key]
  }

  ghost predicate Inv(st: State) {
    && Ordered(st.ledger) && RowsFromLedger(st.ledger, st.events) && Known(st, st.cursor)
    && (st.run.Some? ==> RunOk(st, st.run.value))
  }

  lemma KeysDiffer(ledger: seq<Tx>, a: Item, b: Item)
    requires Ordered(ledger) && InLedger(ledger, a) && InLedger(ledger, b) && a != b
    ensures KeyOf(ledger, a) != KeyOf(ledger, b)
  {
    assert a.pos < b.pos ==> ledger[a.pos].signature != ledger[b.pos].signature;
    assert b.pos < a.pos ==> ledger[b.pos].signature != ledger[a.pos].signature;
  }

  /** The row of an inserted instruction carries its transaction's slot, whether it was written now or before. */
  lemma RowHasLedgerSlot(st: State, item: Item)
    requires Inv(st) && InLedger(st.ledger, item) && KeyOf(st.ledger, item) in st.events
    ensures st.events[KeyOf(st.ledger, item)] == EventOf(st.ledger, item)
    ensures HasRow(st.events, MarkOf(st.ledger[item.pos]))
  {
    var key := KeyOf(st.ledger, item);
    var other: Item :| InLedger(st.ledger, other) && KeyOf(st.ledger, other) == key
                       && EventOf(st.ledger, other) == st.events[key];
    if other != item {
      KeysDiffer(st.ledger, other, item);
    }
    assert EventKey(st.ledger[item.pos].signature, item.ix) in st.events;
  }

  lemma HasRowLasts(events: Events, key: EventKey, e: Event, m: Mark)
    requires HasRow(events, m)
    ensures HasRow(Inserted(events, key, e), m)
  {
    var ix: nat :| EventKey(m.signature, ix) in events && events[EventKey(m.signature, ix)].slot == m.slot;
    assert EventKey(m.signature, ix) in Inserted(events, key, e);
  }

  lemma InsertKeepsInv(st: State, item: Item, up: bool, st': State)
    requires Inv(st) && Next(st, Insert(item, up), st')
    ensures Inv(st')
  {
    if up {
      var key, e := KeyOf(st.ledger, item), EventOf(st.ledger, item);
      forall m | HasRow(st.events, m) ensures HasRow(st'.events, m) {
        HasRowLasts(st.events, key, e, m);
      }
    }
  }

  lemma RecordKeepsInv(st: State, st': State)
    requires Inv(st) && Next(st, Record, st')
    ensures Inv(st')
  {
    var r, item := st.run.value, st.run.value.pending.value;
    RowHasLedgerSlot(st, item);
    HeadMovesOn(st.ledger, r.head, item.pos);
    assert forall i :: i in st'.run.value.backlog ==> i in r.backlog;
  }

  lemma OrderedGrows(st: State, tx: Tx, st': State)
    requires Ordered(st.ledger) && Next(st, LedgerGrows(tx), st')
    ensures Ordered(st.ledger + [tx])
  {
  }

  lemma RowsFromLongerLedger(ledger: seq<Tx>, tx: Tx, events: Events)
    requires RowsFromLedger(ledger, events)
    ensures RowsFromLedger(ledger + [tx], events)
  {
    forall item: Item | InLedger(ledger, item)
      ensures InLedger(ledger + [tx], item) && KeyOf(ledger + [tx], item) == KeyOf(ledger, item)
              && EventOf(ledger + [tx], item) == EventOf(ledger, item)
    {
    }
  }

  lemma LedgerKeepsInv(st: State, tx: Tx, st': State)
    requires Inv(st) && Next(st, LedgerGrows(tx), st')
    ensures Inv(st')
  {
    OrderedGrows(st, tx, st');
    RowsFromLongerLedger(st.ledger, tx, st.events);
    PositionStays(st.ledger, tx, st.cursor);
    if st.run.Some? {
      PositionStays(st.ledger, tx, st.run.value.head);
      PositionStays(st.ledger, tx, st.run.value.promoting);
    }
  }

  lemma TickKeepsInv(st: State, step: Step, st': State)
    requires Inv(st) && Next(st, step, st')
    requires step.TickReads? || step.TickWrites? || step.Start? || step.Crash?
    ensures Inv(st')
  {
    assert st'.ledger == st.ledger && st'.events == st.events;
  }

  lemma NextKeepsInv(st: State, step: Step, st': State)
    requires Inv(st) && Next(st, step, st')
    ensures Inv(st')
  {
    match step
    case LedgerGrows(tx) => LedgerKeepsInv(st, tx, st');
    case Insert(item, up) => InsertKeepsInv(st, item, up, st');
    case Record => RecordKeepsInv(st, st');
    case _ => TickKeepsInv(st, step, st');
  }

  lemma {:induction false} RunKeepsInv(states: seq<State>, steps: seq<Step>, i: nat)
    requires IsRun(states, steps) && i < |states|
    ensures Inv(states[i])
  {
    if i > 0 {
      RunKeepsInv(states, steps, i - 1);
      NextKeepsInv(states[i - 1], steps[i - 1], states[i]);
    }
  }

  // ---- what holds over every sequence of runs, crashes and restarts ----

  /** The first mark is none or a transaction of the ledger, and does not stand after the second. */
  ghost predicate AtMost(ledger: seq<Tx>, a: Option<Mark>, b: Option<Mark>) {
    (a.Some? ==> Position(ledger, a) >= 0) && Position(ledger, a) <= Position(ledger, b)
  }

  lemma AtMostStays(ledger: seq<Tx>, tx: Tx, a: Option<Mark>, b: Option<Mark>)
    requires Ordered(ledger + [tx]) && AtMost(ledger, a, b) && (b.Some? ==> Position(ledger, b) >= 0)
    ensures AtMost(ledger + [tx], a, b)
  {
    PositionStays(ledger, tx, a);
    PositionStays(ledger, tx, b);
  }

  lemma StepKeepsCursorAhead(st: State, step: Step, st': State, m: Option<Mark>)
    requires Inv(st) && Next(st, step, st') && AtMost(st.ledger, m, st.cursor)
    ensures AtMost(st'.ledger, m, st'.cursor)
  {
    match step
    case LedgerGrows(tx) =>
      OrderedGrows(st, tx, st');
      AtMostStays(st.ledger, tx, m, st.cursor);
    case _ =>
  }

  /** One step of a run, between two states that satisfy the invariant. */
  lemma RunStep(states: seq<State>, steps: seq<Step>, i: nat)
    requires IsRun(states, steps) && i < |steps|
    ensures Inv(states[i]) && Next(states[i], steps[i], states[i + 1]) && Inv(states[i + 1])
  {
    RunKeepsInv(states, steps, i);
    NextKeepsInv(states[i], steps[i], states[i + 1]);
  }

  lemma {:induction false} CursorMovesOn(states: seq<State>, steps: seq<Step>, i: nat, j: nat)
    requires IsRun(states, steps) && i <= j < |states|
    ensures AtMost(states[j].ledger, states[i].cursor, states[j].cursor)
    decreases j - i
  {
    if i == j {
      RunKeepsInv(states, steps, i);
    } else {
      var k := j - 1;
      CursorMovesOn(states, steps, i, k);
      RunStep(states, steps, k);
      StepKeepsCursorAhead(states[k], steps[k], states[k + 1], states[i].cursor);
    }
  }

  /** The durable cursor is never lost, and neither its place in the ledger nor its slot ever goes back. */
  lemma CursorNeverGoesBack(states: seq<State>, steps: seq<Step>, i: nat, j: nat)
    requires IsRun(states, steps) && i <= j < |states| && states[i].cursor.Some?
    ensures states[j].cursor.Some? && states[i].cursor.value.slot <= states[j].cursor.value.slot
    ensures 0 <= Position(states[j].ledger, states[i].cursor) <= Position(states[j].ledger, states[j].cursor)
  {
    CursorMovesOn(states, steps, i, j);
    RunKeepsInv(states, steps, j);
  }

  /** The cursor's signature always has a row in `events`, at the cursor's slot. */
  lemma CursorHasRow(states: seq<State>, steps: seq<Step>, i: nat)
    requires IsRun(states, steps) && i < |states| && states[i].cursor.Some?
    ensures HasRow(states[i].events, states[i].cursor.value)
  {
    RunKeepsInv(states, steps, i);
  }

  /** A run that has recorded nothing never promotes. */
  lemma IdleRunNeverPromotes(states: seq<State>, steps: seq<Step>, i: nat)
    requires IsRun(states, steps) && i < |steps| && states[i + 1].cursor != states[i].cursor
    ensures steps[i] == TickWrites(true) && states[i].run.Some? && states[i].run.value.recorded > 0
  {
    RunKeepsInv(states, steps, i);
    assert Next(states[i], steps[i], states[i + 1]);
  }

  /** Event rows are write-once: none is ever changed or removed. */
  lemma {:induction false} EventsStay(states: seq<State>, steps: seq<Step>, i: nat, j: nat, key: EventKey)
    requires IsRun(states, steps) && i <= j < |states| && key in states[i].events
    ensures key in states[j].events && states[j].events[key] == states[i].events[key]
    decreases j - i
  {
    if i < j {
      EventsStay(states, steps, i, j - 1, key);
      assert Next(states[j - 1], steps[j - 1], states[(j - 1) + 1]);
    }
  }

  /** Inserting a list of ledger instructions, in the order given. */
  function Crawl(ledger: seq<Tx>, events: Events, items: seq<Item>): Events
    requires forall i :: 0 <= i < |items| ==> InLedger(ledger, items[i])
    decreases |items|
  {
    if items == [] then events
    else Crawl(ledger, Inserted(events, KeyOf(ledger, items[0]), EventOf(ledger, items[0])), items[1..])
  }

  /** Re-crawling any range, in any order and with repetitions, changes nothing once its instructions have rows. */
  lemma {:induction false} RecrawlChangesNothing(ledger: seq<Tx>, events: Events, items: seq<Item>)
    requires forall i :: 0 <= i < |items| ==> InLedger(ledger, items[i]) && KeyOf(ledger, items[i]) in events
    ensures Crawl(ledger, events, items) == events
  {
    if items != [] {
      assert KeyOf(ledger, items[0]) in events;
      RecrawlChangesNothing(ledger, events, items[1..]);
    }
  }

  lemma {:induction false} CrawlHolds(ledger: seq<Tx>, events: Events, items: seq<Item>, key: EventKey)
    requires forall i :: 0 <= i < |items| ==> InLedger(ledger, items[i])
    ensures
      key in Crawl(ledger, events, items)
      <==> key in events || exists i :: 0 <= i < |items| && KeyOf(ledger, items[i]) == key
    ensures key in events ==> key in Crawl(ledger, events, items) && Crawl(ledger, events, items)[key] == events[key]
    decreases |items|
  {
    if items != [] {
      CrawlHolds(ledger, Inserted(events, KeyOf(ledger, items[0]), EventOf(ledger, items[0])), items[1..], key);
      if exists i :: 0 < i < |items| && KeyOf(ledger, items[i]) == key {
        var i :| 0 < i < |items| && KeyOf(ledger, items[i]) == key;
        assert items[1..][i - 1] == items[i];
      }
    }
  }

  /** Crawling a range twice is crawling it once: the second pass, in any order, is absorbed. */
  lemma CrawlIsIdempotent(ledger: seq<Tx>, events: Events, items: seq<Item>, again: seq<Item>)
    requires forall i :: 0 <= i < |items| ==> InLedger(ledger, items[i])
    requires forall i :: 0 <= i < |again| ==> again[i] in items
    ensures
      (forall i :: 0 <= i < |again| ==> InLedger(ledger, again[i]))
      && Crawl(ledger, Crawl(ledger, events, items), again) == Crawl(ledger, events, items)
  {
    forall i | 0 <= i < |again|
      ensures InLedger(ledger, again[i]) && KeyOf(ledger, again[i]) in Crawl(ledger, events, items)
    {
      var n :| 0 <= n < |items| && items[n] == again[i];
      CrawlHolds(ledger, events, items, KeyOf(ledger, again[i]));
    }
    RecrawlChangesNothing(ledger, Crawl(ledger, events, items), again);
  }

  // ---- losing an instruction ----

  /** A path of the protocol from a given state. */
  ghost predicate IsPath(st: State, states: seq<State>, steps: seq<Step>) {
    && |states| == |steps| + 1 && states[0] == st
    && forall i :: 0 <= i < |steps| ==> Next(states[i], steps[i], states[i + 1])
  }

  /** However the protocol goes on, crashes and restarts included, this key never gets an event row. */
  ghost predicate Lost(st: State, key: EventKey) {
    forall states: seq<State>, steps: seq<Step> :: IsPath(st, states, steps) ==> key !in states[|steps|].events
  }

  /** What decides that now: no row, the cursor at or past the transaction, and no running crawl that still owes it. */
  ghost predicate Skipped(st: State, item: Item) {
    && InLedger(st.ledger, item) && KeyOf(st.ledger, item) !in st.events
    && item.pos <= Position(st.ledger, st.cursor)
    && (st.run.Some? ==> item !in st.run.value.backlog)
  }

  lemma LedgerKeepsItem(st: State, step: Step, st': State, item: Item)
    requires Next(st, step, st') && InLedger(st.ledger, item)
    ensures InLedger(st'.ledger, item) && KeyOf(st'.ledger, item) == KeyOf(st.ledger, item)
  {
  }

  lemma SkippedStaysOnInsert(st: State, other: Item, up: bool, st': State, item: Item)
    requires Inv(st) && Skipped(st, item) && Next(st, Insert(other, up), st')
    ensures Skipped(st', item)
  {
    assert st'.ledger == st.ledger && st'.cursor == st.cursor;
    KeysDiffer(st.ledger, other, item);
  }

  lemma SkippedStaysOnGrowth(st: State, tx: Tx, st': State, item: Item)
    requires Inv(st) && Skipped(st, item) && Next(st, LedgerGrows(tx), st')
    ensures Skipped(st', item)
  {
    OrderedGrows(st, tx, st');
    PositionStays(st.ledger, tx, st.cursor);
    LedgerKeepsItem(st, LedgerGrows(tx), st', item);
    assert item !in ItemsAt(st'.ledger, |st.ledger|);
  }

  lemma SkippedStaysOnStart(st: State, st': State, item: Item)
    requires Inv(st) && Skipped(st, item) && Next(st, Start, st')
    ensures Skipped(st', item)
  {
    NewerIsAfter(st.ledger, st.cursor.value, item.pos);
    assert item !in NewerItems(st.ledger, st.cursor);
  }

  lemma SkippedStays(st: State, step: Step, st': State, item: Item)
    requires Inv(st) && Skipped(st, item) && Next(st, step, st')
    ensures Skipped(st', item)
  {
    match step
    case LedgerGrows(tx) => SkippedStaysOnGrowth(st, tx, st', item);
    case Start => SkippedStaysOnStart(st, st', item);
    case Insert(other, up) => SkippedStaysOnInsert(st, other, up, st', item);
    case _ =>
      assert st'.ledger == st.ledger && st'.events == st.events;
  }

  lemma {:induction false} SkippedIsLost(st: State, states: seq<State>, steps: seq<Step>, item: Item, i: nat)
    requires Inv(st) && Skipped(st, item) && IsPath(st, states, steps) && i < |states|
    ensures Inv(states[i]) && Skipped(states[i], item) && KeyOf(states[i].ledger, item) == KeyOf(st.ledger, item)
  {
    if i > 0 {
      var k := i - 1;
      SkippedIsLost(st, states, steps, item, k);
      assert Next(states[k], steps[k], states[k + 1]);
      LedgerKeepsItem(states[k], steps[k], states[k + 1], item);
      SkippedStays(states[k], steps[k], states[k + 1], item);
      NextKeepsInv(states[k], steps[k], states[k + 1]);
    }
  }

  lemma PathExtends(st: State, states: seq<State>, steps: seq<Step>, step: Step, st': State)
    requires IsPath(st, states, steps) && Next(states[|steps|], step, st')
    ensures IsPath(st, states + [st'], steps + [step])
  {
  }

  /** An owed instruction can still get its row: the crawler records what is pending and inserts it. */
  lemma OwedCanGetRow(st: State, states: seq<State>, steps: seq<Step>, item: Item)
    requires IsPath(st, states, steps)
    requires
      var now := states[|steps|];
      Inv(now) && InLedger(now.ledger, item) && now.run.Some? && item in now.run.value.backlog
      && KeyOf(now.ledger, item) !in now.events
    ensures !Lost(st, KeyOf(states[|steps|].ledger, item))
  {
    var now, path, done := states[|steps|], states, steps;
    var key := KeyOf(now.ledger, item);
    if now.run.value.pending.Some? {
      var r, p := now.run.value, now.run.value.pending.value;
      var m := MarkOf(now.ledger[p.pos]);
      now := now.(run := Some(r.(
        head := NewHead(r.head, m), minSlot := Min(m.slot, r.minSlot), backlog := r.backlog - {p}, pending := None,
        recorded := r.recorded + 1)));
      PathExtends(st, path, done, Record, now);
      path, done := path + [now], done + [Record];
    }
    var last := now.(
      events := Inserted(now.events, key, EventOf(now.ledger, item)),
      run := Some(now.run.value.(pending := Some(item))));
    PathExtends(st, path, done, Insert(item, true), last);
    path, done := path + [last], done + [Insert(item, true)];
    assert key in path[|done|].events;
  }

  /** What a crawl from the cursor would return can still get its row: after a restart, if need be. */
  lemma AfterCursorCanGetRow(st: State, item: Item)
    requires Inv(st) && InLedger(st.ledger, item) && KeyOf(st.ledger, item) !in st.events
    requires Position(st.ledger, st.cursor) < item.pos
    ensures !Lost(st, KeyOf(st.ledger, item))
  {
    var s1 := st.(run := None);
    var s2 := s1.(run := Some(Run(s1.cursor, I64_MAX, I64_MAX, NewerItems(s1.ledger, s1.cursor), None, None, 0)));
    if st.cursor.Some? {
      NewerIsAfter(st.ledger, st.cursor.value, item.pos);
    }
    assert item == Item(item.pos, item.ix) && item in s2.run.value.backlog;
    NextKeepsInv(st, Crash, s1);
    NextKeepsInv(s1, Start, s2);
    var states, steps := [st, s1, s2], [Crash, Start];
    assert IsPath(st, states, steps);
    OwedCanGetRow(st, states, steps, item);
  }

  /**
    In every reachable state an instruction will never get a row, whatever happens, if and only if it has none, the
    cursor is at or past its transaction, and no running crawl still owes it.
   */
  lemma LostIff(states: seq<State>, steps: seq<Step>, i: nat, item: Item)
    requires IsRun(states, steps) && i < |states| && InLedger(states[i].ledger, item)
    ensures Lost(states[i], KeyOf(states[i].ledger, item)) <==> Skipped(states[i], item)
  {
    RunKeepsInv(states, steps, i);
    LostIffSkipped(states[i], item);
  }

  lemma LostIffSkipped(st: State, item: Item)
    requires Inv(st) && InLedger(st.ledger, item)
    ensures Lost(st, KeyOf(st.ledger, item)) <==> Skipped(st, item)
  {
    var key := KeyOf(st.ledger, item);
    var none: seq<Step> := [];
    assert IsPath(st, [st], none);
    if Skipped(st, item) {
      forall states: seq<State>, steps: seq<Step> | IsPath(st, states, steps) ensures key !in states[|steps|].events {
        SkippedIsLost(st, states, steps, item, |steps|);
      }
    } else if key in st.events {
      assert key in [st][|none|].events;
    } else if Position(st.ledger, st.cursor) < item.pos {
      AfterCursorCanGetRow(st, item);
    } else {
      OwedCanGetRow(st, [st], none, item);
    }
  }

  /**
    The three ways in which a step can lose an instruction without a row: the process dies while it owes one that the
    cursor has passed, the insert of such a one fails, or the cursor is written past one whose insert had failed.
   */
  ghost predicate Loses(st: State, step: Step, item: Item) {
    && st.run.Some? && InLedger(st.ledger, item) && KeyOf(st.ledger, item) !in st.events
    && var r, cursorAt := st.run.value, Position(st.ledger, st.cursor);
       match step
       case Crash => item in r.backlog && item.pos <= cursorAt
       case Insert(other, up) => !up && other == item && item.pos <= cursorAt
       case TickWrites(up) => up && item !in r.backlog && cursorAt < item.pos <= Position(st.ledger, r.promoting)
       case _ => false
  }

  /** A step of a reachable state loses an instruction exactly in those three ways. */
  lemma StepLosesIff(states: seq<State>, steps: seq<Step>, i: nat, item: Item)
    requires IsRun(states, steps) && i < |steps| && InLedger(states[i].ledger, item)
    ensures
      var key := KeyOf(states[i].ledger, item);
      !Lost(states[i], key) && Lost(states[i + 1], key) <==> Loses(states[i], steps[i], item)
  {
    RunStep(states, steps, i);
    LedgerKeepsItem(states[i], steps[i], states[i + 1], item);
    LostIffSkipped(states[i], item);
    LostIffSkipped(states[i + 1], item);
    StepSkipsIff(states[i], steps[i], states[i + 1], item);
  }

  lemma InsertSkipsIff(st: State, other: Item, up: bool, st': State, item: Item)
    requires Inv(st) && Next(st, Insert(other, up), st') && InLedger(st.ledger, item)
    ensures !Skipped(st, item) && Skipped(st', item) <==> Loses(st, Insert(other, up), item)
  {
    assert st'.ledger == st.ledger && st'.cursor == st.cursor;
    if other != item {
      KeysDiffer(st.ledger, other, item);
      assert KeyOf(st.ledger, item) in st'.events <==> KeyOf(st.ledger, item) in st.events;
      assert item in st'.run.value.backlog <==> item in st.run.value.backlog;
    }
  }

  lemma RecordSkipsNothing(st: State, st': State, item: Item)
    requires Inv(st) && Next(st, Record, st')
    ensures Skipped(st', item) ==> Skipped(st, item)
  {
    assert st'.ledger == st.ledger && st'.cursor == st.cursor && st'.events == st.events;
    if item in st.run.value.backlog && item !in st'.run.value.backlog {
      assert item == st.run.value.pending.value;
    }
  }

  lemma StartSkipsNothing(st: State, st': State, item: Item)
    requires Inv(st) && Next(st, Start, st')
    ensures Skipped(st', item) ==> Skipped(st, item)
  {
    assert st'.ledger == st.ledger && st'.cursor == st.cursor && st'.events == st.events;
  }

  lemma LedgerSkipsNothing(st: State, tx: Tx, st': State, item: Item)
    requires Inv(st) && Inv(st') && Next(st, LedgerGrows(tx), st')
    ensures InLedger(st.ledger, item) && Skipped(st', item) ==> Skipped(st, item)
  {
    PositionStays(st.ledger, tx, st.cursor);
    if InLedger(st.ledger, item) {
      LedgerKeepsItem(st, LedgerGrows(tx), st', item);
    }
  }

  lemma StepSkipsIff(st: State, step: Step, st': State, item: Item)
    requires Inv(st) && Inv(st') && Next(st, step, st') && InLedger(st.ledger, item)
    ensures !Skipped(st, item) && Skipped(st', item) <==> Loses(st, step, item)
  {
    match step
    case LedgerGrows(tx) => LedgerSkipsNothing(st, tx, st', item);
    case Start => StartSkipsNothing(st, st', item);
    case Insert(other, up) => InsertSkipsIff(st, other, up, st', item);
    case Record => RecordSkipsNothing(st, st', item);
    case _ =>
      assert st'.ledger == st.ledger && st'.events == st.events;
  }

  /** No instruction of the ledger is lost. */
  ghost predicate NothingLost(st: State) {
    forall item: Item :: InLedger(st.ledger, item) ==> !Lost(st, KeyOf(st.ledger, item))
  }

  /** Over all crashes and restarts, a run loses nothing if and only if none of its steps loses in one of those ways. */
  lemma RunLosesNothingIff(states: seq<State>, steps: seq<Step>)
    requires IsRun(states, steps)
    ensures
      (forall i :: 0 <= i < |states| ==> NothingLost(states[i]))
      <==> forall i, item :: 0 <= i < |steps| ==> !Loses(states[i], steps[i], item)
  {
    if forall i, item :: 0 <= i < |steps| ==> !Loses(states[i], steps[i], item) {
      forall i | 0 <= i < |states| ensures NothingLost(states[i]) {
        LosslessPrefix(states, steps, i);
      }
    }
    if forall i :: 0 <= i < |states| ==> NothingLost(states[i]) {
      forall i, item | 0 <= i < |steps| ensures !Loses(states[i], steps[i], item) {
        if Loses(states[i], steps[i], item) {
          StepLosesIff(states, steps, i, item);
          assert Next(states[i], steps[i], states[i + 1]);
          LedgerKeepsItem(states[i], steps[i], states[i + 1], item);
        }
      }
    }
  }

  /** A step that loses nothing in those ways loses nothing, what it adds to the ledger included. */
  lemma LosslessStep(states: seq<State>, steps: seq<Step>, i: nat, item: Item)
    requires IsRun(states, steps) && i < |steps| && NothingLost(states[i]) && !Loses(states[i], steps[i], item)
    requires InLedger(states[i + 1].ledger, item)
    ensures !Lost(states[i + 1], KeyOf(states[i + 1].ledger, item))
  {
    RunStep(states, steps, i);
    if item.pos < |states[i].ledger| {
      LedgerKeepsItem(states[i], steps[i], states[i + 1], item);
      StepLosesIff(states, steps, i, item);
    } else {
      LostIff(states, steps, i + 1, item);
      NewIsNotSkipped(states[i], steps[i], states[i + 1], item);
    }
  }

  lemma NewIsNotSkipped(st: State, step: Step, st': State, item: Item)
    requires Inv(st) && Next(st, step, st') && InLedger(st'.ledger, item) && item.pos >= |st.ledger|
    ensures !Skipped(st', item)
  {
    OrderedGrows(st, step.tx, st');
    PositionStays(st.ledger, step.tx, st.cursor);
  }

  lemma {:induction false} LosslessPrefix(states: seq<State>, steps: seq<Step>, i: nat)
    requires IsRun(states, steps) && i < |states|
    requires forall k, item :: 0 <= k < |steps| ==> !Loses(states[k], steps[k], item)
    ensures NothingLost(states[i])
  {
    if i > 0 {
      LosslessPrefix(states, steps, i - 1);
      forall item: Item | InLedger(states[i].ledger, item) ensures !Lost(states[i], KeyOf(states[i].ledger, item)) {
        LosslessStep(states, steps, i - 1, item);
      }
    }
  }

  // ---- what the frontier test lets through ----

  /** The tick finds a stable frontier and a head to promote. */
  ghost predicate TestPasses(st: State) {
    && st.run.Some? && st.run.value.promoting.None?
    && FrontierStable(st.run.value.lastMin, st.run.value.minSlot) && st.run.value.head.Some?
  }

  /** The state after the tick read a passing frontier, wrote the cursor, and the process died. */
  function PromotedThenCrashed(st: State): State
    requires st.run.Some?
  {
    st.(cursor := st.run.value.head, run := None)
  }

  /**
    When the frontier test passes, the promotion and a crash may follow, and after them an instruction is lost for good
    if and only if it has no row and stands at or before the head.
   */
  lemma PassedTestLosesIff(states: seq<State>, steps: seq<Step>, i: nat, item: Item)
    requires IsRun(states, steps) && i < |states| && TestPasses(states[i])
    requires InLedger(states[i].ledger, item)
    ensures exists path ::
      IsPath(states[i], path, [TickReads, TickWrites(true), Crash]) && path[3] == PromotedThenCrashed(states[i])
    ensures
      Lost(PromotedThenCrashed(states[i]), KeyOf(states[i].ledger, item))
      <==> KeyOf(states[i].ledger, item) !in states[i].events
           && !Newer(states[i].ledger, states[i].run.value.head.value.signature, item.pos)
  {
    var st := states[i];
    var r := st.run.value;
    var s1 := st.(run := Some(r.(promoting := r.head)));
    var s2 := st.(cursor := r.head);
    var s3 := PromotedThenCrashed(st);
    RunKeepsInv(states, steps, i);
    assert s2.run.value == r.(promoting := None);
    assert Next(st, TickReads, s1) && Next(s1, TickWrites(true), s2) && Next(s2, Crash, s3);
    assert IsPath(st, [st, s1, s2, s3], [TickReads, TickWrites(true), Crash]);
    NextKeepsInv(st, TickReads, s1);
    NextKeepsInv(s1, TickWrites(true), s2);
    NextKeepsInv(s2, Crash, s3);
    NewerIsAfter(st.ledger, r.head.value, item.pos);
    LostIffSkipped(s3, item);
  }

  /** Every instruction at or before a mark's transaction has a row. */
  ghost predicate IndexedUpTo(st: State, m: Option<Mark>) {
    forall item: Item :: InLedger(st.ledger, item) && item.pos <= Position(st.ledger, m) ==>
      KeyOf(st.ledger, item) in st.events
  }

  /**
    That is the exact test: after promoting a head and dying nothing is lost if and only if every instruction up to the
    head has a row.
   */
  lemma PassedTestIsSafeIff(states: seq<State>, steps: seq<Step>, i: nat)
    requires IsRun(states, steps) && i < |states| && TestPasses(states[i])
    ensures NothingLost(PromotedThenCrashed(states[i])) <==> IndexedUpTo(states[i], states[i].run.value.head)
  {
    var st := states[i];
    RunKeepsInv(states, steps, i);
    forall item: Item | InLedger(st.ledger, item)
      ensures Lost(PromotedThenCrashed(st), KeyOf(st.ledger, item))
              <==> KeyOf(st.ledger, item) !in st.events && item.pos <= Position(st.ledger, st.run.value.head)
    {
      PassedTestLosesIff(states, steps, i, item);
      NewerIsAfter(st.ledger, st.run.value.head.value, item.pos);
    }
  }

  /** The test that would be enough: a tick promotes only a head up to which everything has a row. */
  ghost predicate TicksAreGuarded(states: seq<State>, steps: seq<Step>)
    requires IsRun(states, steps)
  {
    forall i :: 0 <= i < |steps| && steps[i] == TickReads && TestPasses(states[i]) ==>
      IndexedUpTo(states[i], states[i].run.value.head)
  }

  ghost predicate IndexedUpToCursor(st: State) {
    IndexedUpTo(st, st.cursor) && (st.run.Some? ==> IndexedUpTo(st, st.run.value.promoting))
  }

  lemma IndexedStaysOnGrowth(st: State, tx: Tx, st': State, m: Option<Mark>)
    requires Inv(st) && Next(st, LedgerGrows(tx), st') && Known(st, m) && IndexedUpTo(st, m)
    ensures IndexedUpTo(st', m)
  {
    OrderedGrows(st, tx, st');
    PositionStays(st.ledger, tx, m);
    forall item: Item | InLedger(st'.ledger, item) && item.pos <= Position(st'.ledger, m)
      ensures KeyOf(st'.ledger, item) in st'.events
    {
      assert InLedger(st.ledger, item);
      LedgerKeepsItem(st, LedgerGrows(tx), st', item);
    }
  }

  lemma StepKeepsIndexed(st: State, step: Step, st': State)
    requires Inv(st) && Next(st, step, st') && IndexedUpToCursor(st)
    requires step == TickReads && TestPasses(st) ==> IndexedUpTo(st, st.run.value.head)
    ensures IndexedUpToCursor(st')
  {
    match step
    case LedgerGrows(tx) =>
      IndexedStaysOnGrowth(st, tx, st', st.cursor);
      if st.run.Some? {
        IndexedStaysOnGrowth(st, tx, st', st.run.value.promoting);
      }
    case _ =>
      assert st'.ledger == st.ledger;
      assert forall key :: key in st.events ==> key in st'.events;
  }

  /** With that test no run ever loses anything, whatever fails, crashes or restarts. */
  lemma {:induction false} GuardedRunsLoseNothing(states: seq<State>, steps: seq<Step>, i: nat)
    requires IsRun(states, steps) && TicksAreGuarded(states, steps) && i < |states|
    ensures NothingLost(states[i]) && IndexedUpToCursor(states[i])
  {
    if i > 0 {
      GuardedRunsLoseNothing(states, steps, i - 1);
      RunStep(states, steps, i - 1);
      StepKeepsIndexed(states[i - 1], steps[i - 1], states[i]);
    }
    forall item: Item | InLedger(states[i].ledger, item) ensures !Lost(states[i], KeyOf(states[i].ledger, item)) {
      LostIff(states, steps, i, item);
    }
  }

  // ---- a run that loses a transaction ----

  /** The first catch-up of the example, and the two transactions that follow it. */
  lemma LossExampleCatchesUp(x: Tx, y: Tx, z: Tx) returns (states: seq<State>, steps: seq<Step>)
    requires x.ixs == y.ixs == z.ixs == [[]] && x.slot == 1 && y.slot == 2 && z.slot == 3
    requires x.signature != y.signature && y.signature != z.signature && x.signature != z.signature
    ensures IsRun(states, steps) && |steps| == 7
    ensures states[7] == State(
      [x, y, z], map[EventKey(x.signature, 0) := Event(1, [])], None,
      Some(Run(Some(Mark(x.signature, 1)), 1, 1, {Item(1, 0), Item(2, 0)}, None, None, 1)))
  {
    var i0, i1, i2 := Item(0, 0), Item(1, 0), Item(2, 0);
    var r2 := Run(None, I64_MAX, I64_MAX, {i0}, None, None, 0);
    var r4 := Run(Some(Mark(x.signature, 1)), 1, I64_MAX, {}, None, None, 1);
    var r5 := r4.(lastMin := 1);
    var s1 := State([x], map[], None, None);
    var s2 := s1.(run := Some(r2));
    var s3 := s2.(events := map[EventKey(x.signature, 0) := Event(1, [])], run := Some(r2.(pending := Some(i0))));
    var s4 := s3.(run := Some(r4));
    var s5 := s4.(run := Some(r5));
    var s6 := s5.(ledger := [x, y], run := Some(r5.(backlog := {i1})));
    var s7 := s6.(ledger := [x, y, z], run := Some(r5.(backlog := {i1, i2})));
    states := [Init(), s1, s2, s3, s4, s5, s6, s7];
    steps := [LedgerGrows(x), Start, Insert(i0, true), Record, TickReads, LedgerGrows(y), LedgerGrows(z)];
    assert Next(Init(), steps[0], s1) by { assert [] + [x] == [x]; }
    assert Next(s1, steps[1], s2) by { assert NewerItems([x], None) == {i0}; }
    assert Next(s2, steps[2], s3);
    assert Next(s3, steps[3], s4) by { assert {i0} - {i0} == {}; }
    assert Next(s4, steps[4], s5);
    assert Next(s5, steps[5], s6) by { assert [x] + [y] == [x, y]; assert {} + ItemsAt([x, y], 1) == {i1}; }
    assert Next(s6, steps[6], s7) by {
      assert [x, y] + [z] == [x, y, z];
      assert ItemsAt([x, y, z], 2) == {i2};
      assert {i1} + {i2} == {i1, i2};
    }
  }

  /** The rest of the example: the newest transaction is processed and promoted, and the process restarts. */
  lemma LossExampleSkips(x: Tx, y: Tx, z: Tx, s7: State) returns (states: seq<State>, steps: seq<Step>)
    requires x.ixs == y.ixs == z.ixs == [[]] && x.slot == 1 && y.slot == 2 && z.slot == 3
    requires x.signature != y.signature && y.signature != z.signature && x.signature != z.signature
    requires s7 == State(
      [x, y, z], map[EventKey(x.signature, 0) := Event(1, [])], None,
      Some(Run(Some(Mark(x.signature, 1)), 1, 1, {Item(1, 0), Item(2, 0)}, None, None, 1)))
    ensures |steps| == 6 && |states| == 7 && states[0] == s7
    ensures forall i :: 0 <= i < 6 ==> Next(states[i], steps[i], states[i + 1])
    ensures TestPasses(states[2])
    ensures
      var last := states[6];
      && InLedger(last.ledger, Item(1, 0)) && KeyOf(last.ledger, Item(1, 0)) !in last.events
      && last.run.Some? && last.run.value.backlog == {} && Position(last.ledger, last.cursor) == 2
  {
    var i1, i2, mz := Item(1, 0), Item(2, 0), Mark(z.signature, 3);
    var r7 := s7.run.value;
    var r9 := r7.(head := Some(mz), backlog := {i1}, recorded := 2);
    var s8 := s7.(events := s7.events[EventKey(z.signature, 0) := Event(3, [])], run := Some(r7.(pending := Some(i2))));
    var s9 := s8.(run := Some(r9));
    var s10 := s9.(run := Some(r9.(promoting := Some(mz))));
    var s11 := s10.(cursor := Some(mz), run := Some(r9));
    var s12 := s11.(run := None);
    var s13 := s12.(run := Some(Run(Some(mz), I64_MAX, I64_MAX, {}, None, None, 0)));
    states := [s7, s8, s9, s10, s11, s12, s13];
    steps := [Insert(i2, true), Record, TickReads, TickWrites(true), Crash, Start];
    assert Next(s7, steps[0], s8);
    assert Next(s8, steps[1], s9) by { assert {i1, i2} - {i2} == {i1}; }
    assert Next(s9, steps[2], s10);
    assert Next(s10, steps[3], s11) && Next(s11, steps[4], s12);
    assert Next(s12, steps[5], s13) by { NothingNewer(x, y, z, mz); }
  }

  /**
    The index is not gap-free: a run in which the oldest slot stays fixed after the first catch-up, so a tick promotes
    the newest of two later transactions while the older is still owed. After a restart the crawl owes nothing and the
    older transaction never gets a row, however the protocol goes on.
   */
  lemma PromotionLosesTransaction(a: bytes, b: bytes, c: bytes) returns (states: seq<State>, steps: seq<Step>)
    requires a != b && b != c && a != c
    ensures IsRun(states, steps) && |steps| == 13
    ensures TestPasses(states[9]) && !TicksAreGuarded(states, steps)
    ensures
      var last := states[13];
      && InLedger(last.ledger, Item(1, 0)) && Lost(last, KeyOf(last.ledger, Item(1, 0)))
      && last.run.Some? && last.run.value.backlog == {}
  {
    var x, y, z := Tx(a, 1, [[]]), Tx(b, 2, [[]]), Tx(c, 3, [[]]);
    var before, beforeSteps := LossExampleCatchesUp(x, y, z);
    var after, afterSteps := LossExampleSkips(x, y, z, before[7]);
    states, steps := before[..7] + after, beforeSteps + afterSteps;
    forall i | 0 <= i < 13 ensures Next(states[i], steps[i], states[i + 1]) {
      if i < 7 {
        assert Next(before[i], beforeSteps[i], before[i + 1]);
      } else {
        assert Next(after[i - 7], afterSteps[i - 7], after[i - 7 + 1]);
      }
    }
    LostIff(states, steps, 13, Item(1, 0));
    if TicksAreGuarded(states, steps) {
      GuardedRunsLoseNothing(states, steps, 13);
    }
  }

  lemma NothingNewer(x: Tx, y: Tx, z: Tx, m: Mark)
    requires m.signature == z.signature
    ensures NewerItems([x, y, z], Some(m)) == {}
  {
    forall pos | 0 <= pos < 3 ensures !Newer([x, y, z], m.signature, pos) {
      assert [x, y, z][2].signature == m.signature;
    }
  }
}
