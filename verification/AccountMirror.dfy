/**
  The indexer's account tables (`indexer/src/oracle_accounts.rs`, `indexer/src/market/db.rs`): which accounts are kept,
  the slot-gated upsert, the slot-aware prune, one reconcile, and the queries over the parent column.
 */
module AccountMirror {
  import opened Arith
  import opened Bytes
  import opened Options

  /** A public key; the source stores its base58 text. */
  type Key = Hash

  datatype Account = Account(owner: Key, data: bytes)

  /** The mirrored program: each has its own table and decoder. */
  datatype Program = Oracles(id: Key) | Markets(id: Key)

  /** The columns derived from an account's bytes. */
  datatype Columns = Columns(accountType: u8, parent: Option<Key>)

  datatype Row = Row(columns: Columns, slot: nat, data: bytes)

  type Table = map<Key, Row>

  // ---- the decoders ----

  const TAG_ORACLE: u8 := 1
  const CHILD_TAGS: set<u8> := {2, 3, 4, 5, 6}
  const CHILD_ORACLE_OFFSET := 8

  const TYPE_CONFIG: u8 := 1
  const TYPE_MARKET: u8 := 2
  const TYPE_CONTRIBUTION: u8 := 3
  const CONFIG_LEN := 120
  const MARKET_LEN := 424
  const CONTRIBUTION_LEN := 96

  /** The minimal decode of an oracle-program account: its tag, and its parent if it is a child. */
  datatype RawOracleAccount = RawOracleAccount(tag: u8, childOracle: Option<Key>)

  /** `OracleAccountDecoder::decode_account`. */
  function DecodeOracleAccount(programId: Key, a: Account): Option<RawOracleAccount> {
    if a.owner != programId then None
    else if a.data == [] then None
    else
      var tag := a.data[0];
      if tag == TAG_ORACLE then Some(RawOracleAccount(tag, None))
      else if tag in CHILD_TAGS then
        if |a.data| < CHILD_ORACLE_OFFSET + 32 then None
        else Some(RawOracleAccount(tag, Some(a.data[CHILD_ORACLE_OFFSET..CHILD_ORACLE_OFFSET + 32])))
      else None
  }

  datatype MarketAccount = Config | Market | Contribution(market: Key)

  /** `KassandraAccountDecoder::decode_account`: the tag, then an exact length. */
  function DecodeMarketAccount(programId: Key, a: Account): Option<MarketAccount> {
    if a.owner != programId then None
    else if a.data == [] then None
    else if a.data[0] == TYPE_CONFIG then (if |a.data| == CONFIG_LEN then Some(Config) else None)
    else if a.data[0] == TYPE_MARKET then (if |a.data| == MARKET_LEN then Some(Market) else None)
    else if a.data[0] == TYPE_CONTRIBUTION then
      if |a.data| == CONTRIBUTION_LEN then Some(Contribution(a.data[8..40])) else None
    else None
  }

  /** Decode, and the part of `persist` that derives the columns: an oracle is its own parent. */
  function DecodeColumns(p: Program, key: Key, a: Account): Option<Columns> {
    match p
    case Oracles(id) =>
      (match DecodeOracleAccount(id, a)
       case None => None
       case Some(raw) =>
         Some(Columns(raw.tag, Some(match raw.childOracle case Some(o) => o case None => key))))
    case Markets(id) =>
      match DecodeMarketAccount(id, a)
      case None => None
      case Some(Config) => Some(Columns(TYPE_CONFIG, None))
      case Some(Market) => Some(Columns(TYPE_MARKET, None))
      case Some(Contribution(m)) => Some(Columns(TYPE_CONTRIBUTION, Some(m)))
  }

  predicate Decodable(p: Program, key: Key, a: Account) {
    DecodeColumns(p, key, a).Some?
  }

  function RowOf(p: Program, key: Key, a: Account, slot: nat): Row
    requires Decodable(p, key, a)
  {
    Row(DecodeColumns(p, key, a).value, slot, a.data)
  }

  // ---- the decoders on the bytes ----

  /** An oracle-program account is kept if it is an oracle, or a child long enough to name its oracle. */
  lemma OracleDecodableIff(id: Key, key: Key, a: Account)
    ensures
      Decodable(Oracles(id), key, a)
      <==> a.owner == id && |a.data| >= 1 && (a.data[0] == 1 || (2 <= a.data[0] <= 6 && |a.data| >= 40))
  {
  }

  /** A market-program account is kept if its length is the one of its tag. */
  lemma MarketDecodableIff(id: Key, key: Key, a: Account)
    ensures
      Decodable(Markets(id), key, a)
      <==> && a.owner == id && |a.data| >= 1
           && ((a.data[0] == 1 && |a.data| == 120) || (a.data[0] == 2 && |a.data| == 424)
               || (a.data[0] == 3 && |a.data| == 96))
  {
  }

  /** The columns are what the bytes name: the tag, and the account itself, the key at offset 8, or nothing. */
  ghost predicate ColumnsNameBytes(p: Program, key: Key, columns: Columns, data: bytes) {
    && data != [] && columns.accountType == data[0]
    && match p
       case Oracles(_) =>
         if data[0] == 1 then columns.parent == Some(key)
         else |data| >= 40 && columns.parent.Some? && columns.parent.value == data[8..40]
       case Markets(_) =>
         if data[0] == 3 then |data| >= 40 && columns.parent.Some? && columns.parent.value == data[8..40]
         else columns.parent == None
  }

  lemma DecodedColumnsNameBytes(p: Program, key: Key, a: Account)
    requires Decodable(p, key, a)
    ensures ColumnsNameBytes(p, key, DecodeColumns(p, key, a).value, a.data)
  {
  }

  // ---- the two SQL statements ----

  /** `INSERT ... ON CONFLICT (pubkey) DO UPDATE ... WHERE slot <= EXCLUDED.slot`. */
  function Upserted(t: Table, key: Key, row: Row): Table {
    if key in t && t[key].slot > row.slot then t else t[key := row]
  }

  predicate IsClosed(row: Row, key: Key, snapshotSlot: nat, present: set<Key>) {
    row.slot <= snapshotSlot && key !in present
  }

  /** `DELETE ... WHERE slot <= $1 AND NOT (pubkey = ANY($2))`. */
  function Pruned(t: Table, snapshotSlot: nat, present: set<Key>): Table {
    map k | k in t && !IsClosed(t[k], k, snapshotSlot, present) :: t[k]
  }

  /** One decoded account written with its slot; a failed statement is logged and changes nothing. */
  function Persisted(p: Program, t: Table, key: Key, a: Account, slot: nat, up: bool): Table {
    if up && Decodable(p, key, a) then Upserted(t, key, RowOf(p, key, a, slot)) else t
  }

  // ---- one reconcile over a snapshot ----

  /** The accounts of a snapshot in the order they were returned; `up[i]` says whether the i-th upsert succeeds. */
  function UpsertAll(p: Program, t: Table, slot: nat, accounts: seq<(Key, Account)>, up: seq<bool>): Table
    requires |up| == |accounts|
  {
    if accounts == [] then t
    else
      var last := |accounts| - 1;
      var before := UpsertAll(p, t, slot, accounts[..last], up[..last]);
      Persisted(p, before, accounts[last].0, accounts[last].1, slot, up[last])
  }

  function DecodableCount(p: Program, accounts: seq<(Key, Account)>): nat {
    if accounts == [] then 0
    else
      var last := |accounts| - 1;
      DecodableCount(p, accounts[..last]) + if Decodable(p, accounts[last].0, accounts[last].1) then 1 else 0
  }

  function PresentKeys(p: Program, accounts: seq<(Key, Account)>): set<Key> {
    set i | 0 <= i < |accounts| && Decodable(p, accounts[i].0, accounts[i].1) :: accounts[i].0
  }

  class AccountTable {
    const program: Program
    var rows: Table

    constructor (program: Program)
      ensures rows == map[] && this.program == program
    {
      this.program := program;
      rows := map[];
    }

    /** `upsert_account`. */
    method UpsertAccount(key: Key, columns: Columns, slot: nat, data: bytes)
      modifies this
      ensures rows == Upserted(old(rows), key, Row(columns, slot, data))
      ensures
        if key in old(rows) && slot < old(rows)[key].slot then rows == old(rows)
        else rows == old(rows)[key := Row(columns, slot, data)]
    {
      if key !in rows || rows[key].slot <= slot {
        rows := rows[key := Row(columns, slot, data)];
      }
    }

    /** `persist`, with the decode in front of it; `up` is whether the database takes the statement. */
    method Persist(key: Key, a: Account, slot: nat, up: bool) returns (decoded: bool)
      modifies this
      ensures decoded == Decodable(program, key, a)
      ensures rows == Persisted(program, old(rows), key, a, slot, up)
    {
      var columns := DecodeColumns(program, key, a);
      decoded := columns.Some?;
      if decoded && up {
        UpsertAccount(key, columns.value, slot, a.data);
      }
    }

    /** `prune`: returns how many rows were deleted. */
    method Prune(snapshotSlot: nat, present: set<Key>) returns (n: nat)
      modifies this
      ensures rows == Pruned(old(rows), snapshotSlot, present)
      ensures forall k ::
        k in rows <==> k in old(rows) && (snapshotSlot < old(rows)[k].slot || k in present)
      ensures forall k :: k in rows ==> rows[k] == old(rows)[k]
      ensures n == |set k | k in old(rows) && k !in rows|
    {
      var closed := set k | k in rows && IsClosed(rows[k], k, snapshotSlot, present);
      n := |closed|;
      rows := rows - closed;
      assert closed == set k | k in old(rows) && k !in rows;
      assert rows == Pruned(old(rows), snapshotSlot, present);
    }

    /**
      `reconcile_once` and `market_reconcile_once` after their two RPC answers. An account whose upsert failed still
      counts as present. `None` is a failed prune, which leaves the upserts in place.
     */
    method ReconcileOnce(slot: nat, accounts: seq<(Key, Account)>, up: seq<bool>, pruneUp: bool)
      returns (n: Option<nat>)
      requires |up| == |accounts|
      modifies this
      ensures
        var upserted := UpsertAll(program, old(rows), slot, accounts, up);
        rows == if pruneUp then Pruned(upserted, slot, PresentKeys(program, accounts)) else upserted
      ensures n == if pruneUp then Some(DecodableCount(program, accounts)) else None
    {
      var present: set<Key> := {};
      var count := 0;
      var i := 0;
      while i < |accounts|
        invariant 0 <= i <= |accounts|
        invariant rows == UpsertAll(program, old(rows), slot, accounts[..i], up[..i])
        invariant present == PresentKeys(program, accounts[..i])
        invariant count == DecodableCount(program, accounts[..i])
      {
        assert accounts[..i + 1][..i] == accounts[..i] && up[..i + 1][..i] == up[..i];
        var decoded := Persist(accounts[i].0, accounts[i].1, slot, up[i]);
        assert PresentKeys(program, accounts[..i + 1])
            == PresentKeys(program, accounts[..i]) + if decoded then {accounts[i].0} else {} by {
          PresentKeysGrows(program, accounts, i);
        }
        if decoded {
          present := present + {accounts[i].0};
          count := count + 1;
        }
        i := i + 1;
      }
      assert accounts[..i] == accounts && up[..i] == up;
      if !pruneUp {
        return None;
      }
      var _ := Prune(slot, present);
      return Some(count);
    }
  }

  lemma PresentKeysGrows(p: Program, accounts: seq<(Key, Account)>, i: nat)
    requires i < |accounts|
    ensures PresentKeys(p, accounts[..i + 1])
         == PresentKeys(p, accounts[..i]) + if Decodable(p, accounts[i].0, accounts[i].1) then {accounts[i].0} else {}
  {
    var now, before := accounts[..i + 1], accounts[..i];
    forall k | k in PresentKeys(p, now)
      ensures k in PresentKeys(p, before) + if Decodable(p, accounts[i].0, accounts[i].1) then {accounts[i].0} else {}
    {
      var j :| 0 <= j < |now| && Decodable(p, now[j].0, now[j].1) && now[j].0 == k;
      if j < i {
        assert before[j] == now[j];
      }
    }
    forall k | k in PresentKeys(p, before) ensures k in PresentKeys(p, now) {
      var j :| 0 <= j < |before| && Decodable(p, before[j].0, before[j].1) && before[j].0 == k;
      assert now[j] == before[j];
    }
    assert now[i] == accounts[i];
  }

  /** The count that a reconcile reports is the number of accounts it counted as present. */
  lemma {:induction false} CountIsPresent(p: Program, accounts: seq<(Key, Account)>)
    requires forall i, j :: 0 <= i < j < |accounts| ==> accounts[i].0 != accounts[j].0
    ensures DecodableCount(p, accounts) == |PresentKeys(p, accounts)|
    decreases |accounts|
  {
    if accounts != [] {
      var last := |accounts| - 1;
      CountIsPresent(p, accounts[..last]);
      PresentKeysGrows(p, accounts, last);
      assert accounts[..last + 1] == accounts;
      assert accounts[last].0 !in PresentKeys(p, accounts[..last]);
    }
  }

  // ---- what a table says, without its labels ----

  datatype Content = Content(columns: Columns, data: bytes)

  function Contents(t: Table): map<Key, Content> {
    map k | k in t :: Content(t[k].columns, t[k].data)
  }

  /** What the table should say about a chain state: its decodable accounts and nothing else. */
  function ChainContents(p: Program, chain: map<Key, Account>): map<Key, Content> {
    map k | k in chain && Decodable(p, k, chain[k]) :: Content(DecodeColumns(p, k, chain[k]).value, chain[k].data)
  }

  /** The rows that a snapshot cannot touch, because they carry a newer label, already agree with it. */
  ghost predicate NewerRowsAgree(p: Program, t: Table, slot: nat, chain: map<Key, Account>) {
    forall k :: k in t && t[k].slot > slot ==>
      k in ChainContents(p, chain) && ChainContents(p, chain)[k] == Content(t[k].columns, t[k].data)
  }

  /** The row of one key after a reconcile in which every upsert succeeded. */
  function Reconciled(p: Program, t: Table, slot: nat, chain: map<Key, Account>, k: Key): Option<Row> {
    if k in t && t[k].slot > slot then Some(t[k])
    else if k in chain && Decodable(p, k, chain[k]) then Some(RowOf(p, k, chain[k], slot))
    else None
  }

  ghost predicate IsReconciled(p: Program, t: Table, slot: nat, chain: map<Key, Account>, t': Table) {
    forall k: Key :: (k in t' <==> Reconciled(p, t, slot, chain, k).Some?)
                     && (k in t' ==> Some(t'[k]) == Reconciled(p, t, slot, chain, k))
  }

  /** A reconciled table says exactly what the chain says if and only if its newer-labelled rows already did. */
  lemma ReconciledExactIff(p: Program, t: Table, slot: nat, chain: map<Key, Account>, t': Table)
    requires IsReconciled(p, t, slot, chain, t')
    ensures Contents(t') == ChainContents(p, chain) <==> NewerRowsAgree(p, t, slot, chain)
  {
    var c, d := Contents(t'), ChainContents(p, chain);
    if NewerRowsAgree(p, t, slot, chain) {
      forall k: Key ensures (k in c <==> k in d) && (k in c ==> c[k] == d[k]) {
        assert k in t' <==> Reconciled(p, t, slot, chain, k).Some?;
        assert k in t && t[k].slot > slot ==> k in d && d[k] == Content(t[k].columns, t[k].data);
      }
      assert c == d;
    }
    if c == d {
      forall k | k in t && t[k].slot > slot ensures k in d && d[k] == Content(t[k].columns, t[k].data) {
        assert Some(t'[k]) == Reconciled(p, t, slot, chain, k);
        assert k in c;
      }
    }
  }

  /** A snapshot lists every account of a chain state that the program owns, each key once. */
  ghost predicate IsSnapshot(p: Program, chain: map<Key, Account>, accounts: seq<(Key, Account)>) {
    && (forall i :: 0 <= i < |accounts| ==> accounts[i].0 in chain && chain[accounts[i].0] == accounts[i].1)
    && (forall i, j :: 0 <= i < j < |accounts| ==> accounts[i].0 != accounts[j].0)
    && (forall k :: k in chain && chain[k].owner == p.id ==> (k, chain[k]) in accounts)
  }

  lemma DecodableIsOwned(p: Program, k: Key, a: Account)
    requires Decodable(p, k, a)
    ensures a.owner == p.id
  {
  }

  lemma {:induction false} UpsertAllEffect(
    p: Program, t: Table, slot: nat, accounts: seq<(Key, Account)>, chain: map<Key, Account>, k: Key)
    requires forall i :: 0 <= i < |accounts| ==> accounts[i].0 in chain && chain[accounts[i].0] == accounts[i].1
    requires forall i, j :: 0 <= i < j < |accounts| ==> accounts[i].0 != accounts[j].0
    ensures
      var t' := UpsertAll(p, t, slot, accounts, seq(|accounts|, _ => true));
      if k in chain && Decodable(p, k, chain[k]) && (k, chain[k]) in accounts && !(k in t && t[k].slot > slot)
      then k in t' && t'[k] == RowOf(p, k, chain[k], slot)
      else (k in t' <==> k in t) && (k in t ==> t'[k] == t[k])
  {
    if accounts != [] {
      var last := |accounts| - 1;
      var ups := seq(|accounts|, _ => true);
      assert ups[..last] == seq(last, _ => true);
      UpsertAllEffect(p, t, slot, accounts[..last], chain, k);
      assert accounts == accounts[..last] + [accounts[last]];
      var before := UpsertAll(p, t, slot, accounts[..last], ups[..last]);
      assert UpsertAll(p, t, slot, accounts, ups)
          == Persisted(p, before, accounts[last].0, accounts[last].1, slot, true);
      if k == accounts[last].0 {
        assert (k, chain[k]) !in accounts[..last];
      }
    }
  }

  /** The method's result over a snapshot with every statement succeeding is the reconciled table. */
  lemma ReconcileOfSnapshot(p: Program, t: Table, slot: nat, chain: map<Key, Account>, accounts: seq<(Key, Account)>)
    requires IsSnapshot(p, chain, accounts)
    ensures
      var up := seq(|accounts|, _ => true);
      IsReconciled(p, t, slot, chain, Pruned(UpsertAll(p, t, slot, accounts, up), slot, PresentKeys(p, accounts)))
  {
    var upserted := UpsertAll(p, t, slot, accounts, seq(|accounts|, _ => true));
    var present := PresentKeys(p, accounts);
    forall k: Key
      ensures
        var t' := Pruned(upserted, slot, present);
        (k in t' <==> Reconciled(p, t, slot, chain, k).Some?)
        && (k in t' ==> Some(t'[k]) == Reconciled(p, t, slot, chain, k))
    {
      UpsertAllEffect(p, t, slot, accounts, chain, k);
      PresentIsDecodable(p, chain, accounts, k);
    }
  }

  lemma PresentIsDecodable(p: Program, chain: map<Key, Account>, accounts: seq<(Key, Account)>, k: Key)
    requires IsSnapshot(p, chain, accounts)
    ensures k in PresentKeys(p, accounts) <==> k in chain && Decodable(p, k, chain[k])
    ensures k in PresentKeys(p, accounts) ==> (k, chain[k]) in accounts
  {
    if k in chain && Decodable(p, k, chain[k]) {
      DecodableIsOwned(p, k, chain[k]);
      var i :| 0 <= i < |accounts| && accounts[i] == (k, chain[k]);
    }
  }

  /**
    One reconcile over any snapshot, every statement succeeding, leaves the table saying exactly what the chain says if
    and only if the rows with a label newer than the snapshot's slot already did.
   */
  lemma ReconcileExactIff(p: Program, t: Table, slot: nat, chain: map<Key, Account>, accounts: seq<(Key, Account)>)
    requires IsSnapshot(p, chain, accounts)
    ensures
      var t' := Pruned(UpsertAll(p, t, slot, accounts, seq(|accounts|, _ => true)), slot, PresentKeys(p, accounts));
      Contents(t') == ChainContents(p, chain) <==> NewerRowsAgree(p, t, slot, chain)
  {
    ReconcileOfSnapshot(p, t, slot, chain, accounts);
    var upserted := UpsertAll(p, t, slot, accounts, seq(|accounts|, _ => true));
    ReconciledExactIff(p, t, slot, chain, Pruned(upserted, slot, PresentKeys(p, accounts)));
  }

  // ---- the parent column against a scan of the bytes ----

  /** `list_by_oracle`: the indexed lookup. */
  function ListByOracle(t: Table, oracle: Key): Table {
    map k | k in t && t[k].columns.parent == Some(oracle) :: t[k]
  }

  /** `WHERE account_type = ...`: the rows of one type. */
  function ListByType(t: Table, tag: u8): Table {
    map k | k in t && t[k].columns.accountType == tag :: t[k]
  }

  /** `list_oracles`, without its order. */
  function ListOracles(t: Table): Table {
    ListByType(t, TAG_ORACLE)
  }

  /** `get_markets`. Rows too short to decode are dropped. */
  function GetMarkets(t: Table): Table {
    map k | k in ListByType(t, TYPE_MARKET) && |t[k].data| >= MARKET_LEN :: t[k]
  }

  /** `contributions_for`, without its order. Rows too short to decode are dropped. */
  function ContributionsFor(t: Table, market: Key): Table {
    map k | k in t && t[k].columns == Columns(TYPE_CONTRIBUTION, Some(market))
            && |t[k].data| >= CONTRIBUTION_LEN :: t[k]
  }

  /** The bytes of a row name this oracle: it is the oracle itself, or a child with the key at offset 8. */
  predicate BytesNameOracle(key: Key, data: bytes, oracle: Key) {
    && data != []
    && ((data[0] == 1 && key == oracle) || (2 <= data[0] <= 6 && |data| >= 40 && data[8..40] == oracle))
  }

  predicate BytesNameMarket(data: bytes, market: Key) {
    |data| == 96 && data[0] == 3 && data[8..40] == market
  }

  /** Every row's columns were derived from its own bytes. */
  ghost predicate Coherent(p: Program, t: Table) {
    forall k :: k in t ==> DecodeColumns(p, k, Account(p.id, t[k].data)) == Some(t[k].columns)
  }

  /** In a coherent table a listing by type is a scan of the tag byte. */
  lemma ListByTypeIsScan(p: Program, t: Table, tag: u8)
    requires Coherent(p, t)
    ensures ListByType(t, tag) == map k | k in t && t[k].data != [] && t[k].data[0] == tag :: t[k]
  {
    forall k | k in t ensures t[k].columns.accountType == tag <==> t[k].data != [] && t[k].data[0] == tag {
      DecodedColumnsNameBytes(p, k, Account(p.id, t[k].data));
    }
  }

  /** So every stored market is found, by the tag 2 that its bytes begin with. */
  lemma GetMarketsIsScan(id: Key, t: Table)
    requires Coherent(Markets(id), t)
    ensures GetMarkets(t) == map k | k in t && t[k].data != [] && t[k].data[0] == 2 :: t[k]
  {
    ListByTypeIsScan(Markets(id), t, 2);
    forall k | k in t && t[k].data != [] && t[k].data[0] == 2 ensures |t[k].data| >= MARKET_LEN {
      MarketDecodableIff(id, k, Account(id, t[k].data));
    }
  }

  /** In a coherent oracle table the index returns exactly the rows that a scan of all bytes would. */
  lemma ListByOracleIsScan(id: Key, t: Table, oracle: Key)
    requires Coherent(Oracles(id), t)
    ensures ListByOracle(t, oracle) == map k | k in t && BytesNameOracle(k, t[k].data, oracle) :: t[k]
    ensures ListOracles(t) == map k | k in t && t[k].data != [] && t[k].data[0] == 1 :: t[k]
  {
    ListByTypeIsScan(Oracles(id), t, 1);
    forall k | k in t
      ensures t[k].columns.parent == Some(oracle) <==> BytesNameOracle(k, t[k].data, oracle)
    {
      assert DecodeColumns(Oracles(id), k, Account(id, t[k].data)) == Some(t[k].columns);
    }
  }

  /** The same for the contributions of a market. */
  lemma ContributionsForIsScan(id: Key, t: Table, market: Key)
    requires Coherent(Markets(id), t)
    ensures ContributionsFor(t, market) == map k | k in t && BytesNameMarket(t[k].data, market) :: t[k]
  {
    forall k | k in t
      ensures
        t[k].columns == Columns(TYPE_CONTRIBUTION, Some(market)) && |t[k].data| >= CONTRIBUTION_LEN
        <==> BytesNameMarket(t[k].data, market)
    {
      assert DecodeColumns(Markets(id), k, Account(id, t[k].data)) == Some(t[k].columns);
    }
  }
}
