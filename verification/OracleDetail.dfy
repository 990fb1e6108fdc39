/**
  The detail view of an oracle (`app/src/data/oracles.ts`): built from the mirror's rows, or by a direct scan of the
  program's accounts, with the same result once the mirror equals the chain.
 */
module OracleDetail {
  import opened Arith
  import opened Bytes
  import opened Options
  import opened AccountMirror
  import MirrorProtocol

  const TAG_PROPOSER: u8 := 2
  const TAG_FACT: u8 := 3
  const TAG_AI_CLAIM: u8 := 5
  const TAG_MARKET: u8 := 6
  const ORACLE_SIZE := 368
  const PROPOSER_SIZE := 96
  const FACT_SIZE := 336
  const AI_CLAIM_SIZE := 208
  const MARKET_SIZE := 416

  /** A served row of the mirror. */
  datatype IndexedChild = IndexedChild(pubkey: Key, accountType: u8, data: bytes)

  /** A decoded account. Its fields are a function of the bytes, so the bytes stand for them. */
  datatype Entry = Entry(pubkey: Key, data: bytes)

  datatype Detail = Detail(
    pubkey: Key, oracle: bytes, facts: seq<Entry>, proposers: seq<Entry>, aiClaims: seq<Entry>, market: Option<Entry>)

  /** The SDK decoders accept exactly one size and one tag and throw otherwise. */
  predicate Decodes(data: bytes, tag: u8, size: nat) {
    |data| == size && data != [] && data[0] == tag
  }

  // ---- what both loops collect ----

  /** The accounts that a loop dispatching on `tags` pushes for one tag, in list order. */
  function Collect(tags: seq<u8>, accounts: seq<Entry>, tag: u8, size: nat): seq<Entry>
    requires |tags| == |accounts|
  {
    if accounts == [] then []
    else
      var last := |accounts| - 1;
      Collect(tags[..last], accounts[..last], tag, size)
      + if tags[last] == tag && Decodes(accounts[last].data, tag, size) then [accounts[last]] else []
  }

  function First(es: seq<Entry>): Option<Entry> {
    if es == [] then None else Some(es[0])
  }

  /** The dispatch both functions share, over accounts already paired with the tag they dispatch on. */
  method Partition(tags: seq<u8>, accounts: seq<Entry>)
    returns (facts: seq<Entry>, proposers: seq<Entry>, aiClaims: seq<Entry>, market: Option<Entry>)
    requires |tags| == |accounts|
    ensures facts == Collect(tags, accounts, TAG_FACT, FACT_SIZE)
    ensures proposers == Collect(tags, accounts, TAG_PROPOSER, PROPOSER_SIZE)
    ensures aiClaims == Collect(tags, accounts, TAG_AI_CLAIM, AI_CLAIM_SIZE)
    ensures market == First(Collect(tags, accounts, TAG_MARKET, MARKET_SIZE))
  {
    facts, proposers, aiClaims, market := [], [], [], None;
    var i := 0;
    while i < |accounts|
      invariant 0 <= i <= |accounts|
      invariant facts == Collect(tags[..i], accounts[..i], TAG_FACT, FACT_SIZE)
      invariant proposers == Collect(tags[..i], accounts[..i], TAG_PROPOSER, PROPOSER_SIZE)
      invariant aiClaims == Collect(tags[..i], accounts[..i], TAG_AI_CLAIM, AI_CLAIM_SIZE)
      invariant market == First(Collect(tags[..i], accounts[..i], TAG_MARKET, MARKET_SIZE))
    {
      assert tags[..i + 1][..i] == tags[..i] && accounts[..i + 1][..i] == accounts[..i];
      var a := accounts[i];
      if tags[i] == TAG_FACT {
        if Decodes(a.data, TAG_FACT, FACT_SIZE) { facts := facts + [a]; }
      } else if tags[i] == TAG_PROPOSER {
        if Decodes(a.data, TAG_PROPOSER, PROPOSER_SIZE) { proposers := proposers + [a]; }
      } else if tags[i] == TAG_AI_CLAIM {
        if Decodes(a.data, TAG_AI_CLAIM, AI_CLAIM_SIZE) { aiClaims := aiClaims + [a]; }
      } else if tags[i] == TAG_MARKET {
        if market.None? && Decodes(a.data, TAG_MARKET, MARKET_SIZE) { market := Some(a); }
      }
      i := i + 1;
    }
    assert tags[..i] == tags && accounts[..i] == accounts;
  }

  function Tags(rows: seq<IndexedChild>): (tags: seq<u8>)
    ensures |tags| == |rows|
  {
    seq(|rows|, i requires 0 <= i < |rows| => rows[i].accountType)
  }

  function Entries(rows: seq<IndexedChild>): (es: seq<Entry>)
    ensures |es| == |rows|
  {
    seq(|rows|, i requires 0 <= i < |rows| => Entry(rows[i].pubkey, rows[i].data))
  }

  /** The tag byte of each scanned account; an empty account reads as undefined and matches no case. */
  function TagBytes(accounts: seq<Entry>): (tags: seq<u8>)
    ensures |tags| == |accounts|
  {
    seq(|accounts|, i requires 0 <= i < |accounts| => if accounts[i].data == [] then 0 else accounts[i].data[0])
  }

  function DetailOf(oracle: Key, data: bytes, tags: seq<u8>, accounts: seq<Entry>): Detail
    requires |tags| == |accounts|
  {
    Detail(oracle, data,
           Collect(tags, accounts, TAG_FACT, FACT_SIZE),
           Collect(tags, accounts, TAG_PROPOSER, PROPOSER_SIZE),
           Collect(tags, accounts, TAG_AI_CLAIM, AI_CLAIM_SIZE),
           First(Collect(tags, accounts, TAG_MARKET, MARKET_SIZE)))
  }

  // ---- the two paths ----

  /** The first row that is the oracle itself. */
  function FindOracle(oracle: Key, rows: seq<IndexedChild>): Option<bytes> {
    if rows == [] then None
    else if rows[0].accountType == TAG_ORACLE && rows[0].pubkey == oracle then Some(rows[0].data)
    else FindOracle(oracle, rows[1..])
  }

  /** The value of `assembleDetailFromIndexed`. */
  function AssembledDetail(oracle: Key, rows: seq<IndexedChild>): Option<Detail> {
    match FindOracle(oracle, rows)
    case None => None
    case Some(data) =>
      if !Decodes(data, TAG_ORACLE, ORACLE_SIZE) then None
      else Some(DetailOf(oracle, data, Tags(rows), Entries(rows)))
  }

  /** `assembleDetailFromIndexed`: `None` sends the caller to the direct scan. */
  method AssembleDetailFromIndexed(oracle: Key, rows: seq<IndexedChild>) returns (r: Option<Detail>)
    ensures r == AssembledDetail(oracle, rows)
  {
    var data := FindOracle(oracle, rows);
    if data.None? {
      return None;
    }
    if !Decodes(data.value, TAG_ORACLE, ORACLE_SIZE) {
      return None;
    }
    var facts, proposers, aiClaims, market := Partition(Tags(rows), Entries(rows));
    return Some(Detail(oracle, data.value, facts, proposers, aiClaims, market));
  }

  /** The value of the direct scan; `None` is the OracleNotFoundError. */
  function ScannedDetail(oracle: Key, info: Option<bytes>, children: seq<Entry>): Option<Detail> {
    match info
    case None => None
    case Some(data) =>
      if data == [] || !Decodes(data, TAG_ORACLE, ORACLE_SIZE) then None
      else Some(DetailOf(oracle, data, TagBytes(children), children))
  }

  /** The value of `fetchOracleDetail`. */
  function FetchedDetail(
    oracle: Key, indexed: Option<seq<IndexedChild>>, info: Option<bytes>, children: seq<Entry>): Option<Detail> {
    if indexed.Some? && AssembledDetail(oracle, indexed.value).Some? then AssembledDetail(oracle, indexed.value)
    else ScannedDetail(oracle, info, children)
  }

  /** `fetchOracleDetail`, given the answers of the indexer and of the two RPC calls. */
  method FetchOracleDetail(
    oracle: Key, indexed: Option<seq<IndexedChild>>, info: Option<bytes>, children: seq<Entry>)
    returns (r: Option<Detail>)
    ensures r == FetchedDetail(oracle, indexed, info, children)
  {
    if indexed.Some? && |indexed.value| > 0 {
      var detail := AssembleDetailFromIndexed(oracle, indexed.value);
      if detail.Some? {
        return detail;
      }
    }
    if info.None? || info.value == [] {
      return None;
    }
    if !Decodes(info.value, TAG_ORACLE, ORACLE_SIZE) {
      return None;
    }
    var facts, proposers, aiClaims, market := Partition(TagBytes(children), children);
    return Some(Detail(oracle, info.value, facts, proposers, aiClaims, market));
  }

  // ---- the answers as enumerations of the tables ----

  /** The served rows are the rows of the lookup, each once, in some order. */
  ghost predicate ServesRows(t: Table, rows: seq<IndexedChild>) {
    && (forall i :: 0 <= i < |rows| ==>
          && rows[i].pubkey in t
          && rows[i] == IndexedChild(rows[i].pubkey, t[rows[i].pubkey].columns.accountType, t[rows[i].pubkey].data))
    && (forall k :: k in t ==> IndexedChild(k, t[k].columns.accountType, t[k].data) in rows)
    && (forall i, j :: 0 <= i < j < |rows| ==> rows[i].pubkey != rows[j].pubkey)
  }

  /** The `memcmp` at offset 8 of `getProgramAccounts`. */
  predicate MatchesMemcmp(id: Key, a: Account, oracle: Key) {
    a.owner == id && |a.data| >= 40 && a.data[8..40] == oracle
  }

  /** The scanned children are the program's accounts that match the filter, each once, in some order. */
  ghost predicate ScansChildren(id: Key, chain: map<Key, Account>, oracle: Key, children: seq<Entry>) {
    && (forall i :: 0 <= i < |children| ==>
          && children[i].pubkey in chain && MatchesMemcmp(id, chain[children[i].pubkey], oracle)
          && children[i].data == chain[children[i].pubkey].data)
    && (forall k :: k in chain && MatchesMemcmp(id, chain[k], oracle) ==> Entry(k, chain[k].data) in children)
    && (forall i, j :: 0 <= i < j < |children| ==> children[i].pubkey != children[j].pubkey)
  }

  // ---- what a collection holds ----

  /** An account is in the list, with this tag to dispatch on. */
  ghost predicate Listed(tags: seq<u8>, accounts: seq<Entry>, tag: u8, e: Entry)
    requires |tags| == |accounts|
  {
    exists i :: 0 <= i < |accounts| && accounts[i] == e && tags[i] == tag
  }

  ghost predicate EachOnce(es: seq<Entry>) {
    forall i, j :: 0 <= i < j < |es| ==> es[i] != es[j]
  }

  lemma {:induction false} CollectHolds(tags: seq<u8>, accounts: seq<Entry>, tag: u8, size: nat, e: Entry)
    requires |tags| == |accounts|
    ensures
      e in Collect(tags, accounts, tag, size)
      <==> Decodes(e.data, tag, size) && Listed(tags, accounts, tag, e)
  {
    if accounts != [] {
      var last := |accounts| - 1;
      CollectHolds(tags[..last], accounts[..last], tag, size, e);
      if exists i :: 0 <= i < last && accounts[i] == e && tags[i] == tag {
        var i :| 0 <= i < last && accounts[i] == e && tags[i] == tag;
        assert accounts[..last][i] == e && tags[..last][i] == tag;
      }
    }
  }

  lemma {:induction false} CollectOnce(tags: seq<u8>, accounts: seq<Entry>, tag: u8, size: nat)
    requires |tags| == |accounts| && EachOnce(accounts)
    ensures EachOnce(Collect(tags, accounts, tag, size))
  {
    if accounts != [] {
      var last := |accounts| - 1;
      CollectOnce(tags[..last], accounts[..last], tag, size);
      CollectHolds(tags[..last], accounts[..last], tag, size, accounts[last]);
    }
  }

  /** Two lists without repetition that hold the same entries are permutations of each other. */
  lemma {:induction false} SameEntriesSameMultiset(es: seq<Entry>, fs: seq<Entry>)
    requires EachOnce(es) && EachOnce(fs)
    requires forall e :: e in es <==> e in fs
    ensures multiset(es) == multiset(fs)
  {
    forall e ensures multiset(es)[e] == multiset(fs)[e] {
      OnceMultiplicity(es, e);
      OnceMultiplicity(fs, e);
    }
  }

  lemma {:induction false} OnceMultiplicity(es: seq<Entry>, e: Entry)
    requires EachOnce(es)
    ensures multiset(es)[e] == if e in es then 1 else 0
  {
    if es != [] {
      var last := |es| - 1;
      assert es == es[..last] + [es[last]];
      OnceMultiplicity(es[..last], e);
    }
  }

  // ---- the mirror path agrees with the scan ----

  /** One kind of child: a row dispatched on its stored type is decoded exactly when the scan decodes that account. */
  lemma ChildrenAgree(
    id: Key, chain: map<Key, Account>, t: Table, oracle: Key,
    rows: seq<IndexedChild>, children: seq<Entry>, tag: u8, size: nat)
    requires Contents(t) == ChainContents(Oracles(id), chain)
    requires ServesRows(ListByOracle(t, oracle), rows) && ScansChildren(id, chain, oracle, children)
    requires tag in CHILD_TAGS
    ensures
      multiset(Collect(Tags(rows), Entries(rows), tag, size))
      == multiset(Collect(TagBytes(children), children, tag, size))
  {
    var a, b := Collect(Tags(rows), Entries(rows), tag, size), Collect(TagBytes(children), children, tag, size);
    assert EachOnce(Entries(rows));
    assert EachOnce(children);
    CollectOnce(Tags(rows), Entries(rows), tag, size);
    CollectOnce(TagBytes(children), children, tag, size);
    forall e ensures e in a <==> e in b {
      CollectHolds(Tags(rows), Entries(rows), tag, size, e);
      CollectHolds(TagBytes(children), children, tag, size, e);
      if Decodes(e.data, tag, size) && Listed(Tags(rows), Entries(rows), tag, e) {
        ServedIsScanned(id, chain, t, oracle, rows, children, tag, size, e);
      }
      if Decodes(e.data, tag, size) && Listed(TagBytes(children), children, tag, e) {
        ScannedIsServed(id, chain, t, oracle, rows, children, tag, e);
      }
    }
    SameEntriesSameMultiset(a, b);
  }

  lemma ServedIsScanned(
    id: Key, chain: map<Key, Account>, t: Table, oracle: Key,
    rows: seq<IndexedChild>, children: seq<Entry>, tag: u8, size: nat, e: Entry)
    requires Contents(t) == ChainContents(Oracles(id), chain)
    requires ServesRows(ListByOracle(t, oracle), rows) && ScansChildren(id, chain, oracle, children)
    requires tag in CHILD_TAGS && Decodes(e.data, tag, size) && Listed(Tags(rows), Entries(rows), tag, e)
    ensures Listed(TagBytes(children), children, tag, e)
  {
    var c, d := Contents(t), ChainContents(Oracles(id), chain);
    var i :| 0 <= i < |rows| && Entries(rows)[i] == e && Tags(rows)[i] == tag;
    assert e.pubkey in c && c[e.pubkey] == d[e.pubkey];
    assert MatchesMemcmp(id, chain[e.pubkey], oracle);
    assert e in children;
    var j :| 0 <= j < |children| && children[j] == e;
    assert TagBytes(children)[j] == tag;
  }

  lemma ScannedIsServed(
    id: Key, chain: map<Key, Account>, t: Table, oracle: Key,
    rows: seq<IndexedChild>, children: seq<Entry>, tag: u8, e: Entry)
    requires Contents(t) == ChainContents(Oracles(id), chain)
    requires ServesRows(ListByOracle(t, oracle), rows) && ScansChildren(id, chain, oracle, children)
    requires tag in CHILD_TAGS && Listed(TagBytes(children), children, tag, e)
    ensures Listed(Tags(rows), Entries(rows), tag, e)
  {
    var c, d, key := Contents(t), ChainContents(Oracles(id), chain), e.pubkey;
    var j :| 0 <= j < |children| && children[j] == e && TagBytes(children)[j] == tag;
    assert Decodable(Oracles(id), key, chain[key]);
    assert key in d && d[key] == c[key];
    assert key in ListByOracle(t, oracle);
    var row := IndexedChild(key, tag, e.data);
    assert row in rows;
    var i :| 0 <= i < |rows| && rows[i] == row;
    assert Entries(rows)[i] == e && Tags(rows)[i] == tag;
  }

  lemma {:induction false} FindOracleFinds(oracle: Key, rows: seq<IndexedChild>)
    ensures FindOracle(oracle, rows).Some? ==> IndexedChild(oracle, TAG_ORACLE, FindOracle(oracle, rows).value) in rows
    ensures FindOracle(oracle, rows).None? ==>
      forall i :: 0 <= i < |rows| ==> !(rows[i].accountType == TAG_ORACLE && rows[i].pubkey == oracle)
  {
    if rows != [] && !(rows[0].accountType == TAG_ORACLE && rows[0].pubkey == oracle) {
      FindOracleFinds(oracle, rows[1..]);
      assert rows == [rows[0]] + rows[1..];
    }
  }

  /**
    Same oracle, same facts, proposers and claims up to order, and a market on both sides or on neither. Where the scan
    lists at most one market, it is the same one.
   */
  ghost predicate SameDetail(a: Detail, b: Detail, children: seq<Entry>) {
    && a.pubkey == b.pubkey && a.oracle == b.oracle
    && multiset(a.facts) == multiset(b.facts)
    && multiset(a.proposers) == multiset(b.proposers)
    && multiset(a.aiClaims) == multiset(b.aiClaims)
    && (a.market.Some? <==> b.market.Some?)
    && (OneMarket(children) ==> a.market == b.market)
  }

  /** The scanned accounts hold at most one market that decodes. */
  predicate OneMarket(children: seq<Entry>) {
    |Collect(TagBytes(children), children, TAG_MARKET, MARKET_SIZE)| <= 1
  }

  /**
    Once the mirror says what the chain says, the mirror path answers exactly when the oracle account belongs to the
    program and the scan finds it, and then with the same detail.
   */
  lemma MirrorPathAgreesWithScan(
    id: Key, chain: map<Key, Account>, t: Table, oracle: Key, rows: seq<IndexedChild>, children: seq<Entry>)
    requires Contents(t) == ChainContents(Oracles(id), chain)
    requires ServesRows(ListByOracle(t, oracle), rows) && ScansChildren(id, chain, oracle, children)
    ensures
      var info := if oracle in chain then Some(chain[oracle].data) else None;
      var mirrored, scanned := AssembledDetail(oracle, rows), ScannedDetail(oracle, info, children);
      && (mirrored.Some? <==> scanned.Some? && chain[oracle].owner == id)
      && (mirrored.Some? ==> SameDetail(mirrored.value, scanned.value, children))
  {
    FindOracleFinds(oracle, rows);
    OracleRowAgrees(id, chain, t, oracle, rows);
    if AssembledDetail(oracle, rows).Some? {
      ChildrenAgree(id, chain, t, oracle, rows, children, TAG_FACT, FACT_SIZE);
      ChildrenAgree(id, chain, t, oracle, rows, children, TAG_PROPOSER, PROPOSER_SIZE);
      ChildrenAgree(id, chain, t, oracle, rows, children, TAG_AI_CLAIM, AI_CLAIM_SIZE);
      ChildrenAgree(id, chain, t, oracle, rows, children, TAG_MARKET, MARKET_SIZE);
      var m1 := Collect(Tags(rows), Entries(rows), TAG_MARKET, MARKET_SIZE);
      var m2 := Collect(TagBytes(children), children, TAG_MARKET, MARKET_SIZE);
      assert |multiset(m1)| == |m1| && |multiset(m2)| == |m2|;
      if |m2| == 1 {
        assert m1[0] in multiset(m1) && m2 == [m2[0]];
      }
    }
  }

  /** The oracle's own row is served exactly when the program owns an oracle account there, with its bytes. */
  lemma OracleRowAgrees(id: Key, chain: map<Key, Account>, t: Table, oracle: Key, rows: seq<IndexedChild>)
    requires Contents(t) == ChainContents(Oracles(id), chain)
    requires ServesRows(ListByOracle(t, oracle), rows)
    ensures
      var owned :=
        oracle in chain && chain[oracle].owner == id && chain[oracle].data != [] && chain[oracle].data[0] == TAG_ORACLE;
      FindOracle(oracle, rows) == if owned then Some(chain[oracle].data) else None
  {
    var c, d := Contents(t), ChainContents(Oracles(id), chain);
    FindOracleFinds(oracle, rows);
    if FindOracle(oracle, rows).Some? {
      ServedOracleIsOwned(id, chain, t, oracle, rows, FindOracle(oracle, rows).value);
    }
    if oracle in chain && chain[oracle].owner == id && chain[oracle].data != [] && chain[oracle].data[0] == TAG_ORACLE {
      assert oracle in d && d[oracle] == c[oracle];
      assert oracle in ListByOracle(t, oracle);
      assert IndexedChild(oracle, TAG_ORACLE, chain[oracle].data) in rows;
    }
  }

  lemma ServedOracleIsOwned(
    id: Key, chain: map<Key, Account>, t: Table, oracle: Key, rows: seq<IndexedChild>, data: bytes)
    requires Contents(t) == ChainContents(Oracles(id), chain)
    requires ServesRows(ListByOracle(t, oracle), rows) && IndexedChild(oracle, TAG_ORACLE, data) in rows
    ensures oracle in chain && chain[oracle].owner == id && chain[oracle].data == data
    ensures data != [] && data[0] == TAG_ORACLE
  {
    var c, d := Contents(t), ChainContents(Oracles(id), chain);
    var i :| 0 <= i < |rows| && rows[i] == IndexedChild(oracle, TAG_ORACLE, data);
    assert oracle in c && c[oracle] == d[oracle];
  }

  // ---- what the view shows, on the chain's bytes ----

  /** An account of the chain that names this oracle, with this tag and this size. */
  ghost predicate IsChildOf(id: Key, chain: map<Key, Account>, oracle: Key, e: Entry, tag: u8, size: nat) {
    && e.pubkey in chain && chain[e.pubkey] == Account(id, e.data)
    && |e.data| == size >= 40 && e.data[0] == tag && e.data[8..40] == oracle
  }

  lemma ScannedChildren(id: Key, chain: map<Key, Account>, oracle: Key, children: seq<Entry>, tag: u8, size: nat)
    requires ScansChildren(id, chain, oracle, children) && size >= 40
    ensures
      var es := Collect(TagBytes(children), children, tag, size);
      EachOnce(es) && forall e :: e in es <==> IsChildOf(id, chain, oracle, e, tag, size)
  {
    var tags := TagBytes(children);
    assert EachOnce(children);
    CollectOnce(tags, children, tag, size);
    forall e ensures e in Collect(tags, children, tag, size) <==> IsChildOf(id, chain, oracle, e, tag, size) {
      CollectHolds(tags, children, tag, size, e);
      if IsChildOf(id, chain, oracle, e, tag, size) {
        assert e in children;
        var j :| 0 <= j < |children| && children[j] == e;
        assert tags[j] == tag;
      }
    }
  }

  /** The lists of a detail on the chain's bytes. */
  ghost predicate ShowsChain(id: Key, chain: map<Key, Account>, oracle: Key, d: Detail) {
    && d.pubkey == oracle && oracle in chain && chain[oracle].data == d.oracle
    && |d.oracle| == 368 && d.oracle[0] == 1
    && EachOnce(d.facts) && (forall e :: e in d.facts <==> IsChildOf(id, chain, oracle, e, 3, 336))
    && EachOnce(d.proposers) && (forall e :: e in d.proposers <==> IsChildOf(id, chain, oracle, e, 2, 96))
    && EachOnce(d.aiClaims) && (forall e :: e in d.aiClaims <==> IsChildOf(id, chain, oracle, e, 5, 208))
    && (d.market.Some? ==> IsChildOf(id, chain, oracle, d.market.value, 6, 416))
    && (d.market.None? ==> forall e :: !IsChildOf(id, chain, oracle, e, 6, 416))
  }

  /** The direct scan shows exactly the accounts of the chain, and finds the oracle if it has the size and the tag. */
  lemma ScanShowsChain(id: Key, chain: map<Key, Account>, oracle: Key, children: seq<Entry>)
    requires ScansChildren(id, chain, oracle, children)
    ensures
      var info := if oracle in chain then Some(chain[oracle].data) else None;
      var scanned := ScannedDetail(oracle, info, children);
      && (scanned.Some? <==> oracle in chain && |chain[oracle].data| == 368 && chain[oracle].data[0] == 1)
      && (scanned.Some? ==> ShowsChain(id, chain, oracle, scanned.value))
  {
    ScannedChildren(id, chain, oracle, children, 3, 336);
    ScannedChildren(id, chain, oracle, children, 2, 96);
    ScannedChildren(id, chain, oracle, children, 5, 208);
    ScannedChildren(id, chain, oracle, children, 6, 416);
    var markets := Collect(TagBytes(children), children, 6, 416);
    assert markets != [] ==> markets[0] in markets;
  }

  lemma SameElements(es: seq<Entry>, fs: seq<Entry>)
    requires multiset(es) == multiset(fs) && EachOnce(es)
    ensures EachOnce(fs) && forall e :: e in es <==> e in fs
  {
    forall e ensures e in es <==> e in fs {
      assert e in multiset(es) <==> e in multiset(fs);
    }
    forall i, j | 0 <= i < j < |fs| ensures fs[i] != fs[j] {
      if fs[i] == fs[j] {
        OnceMultiplicity(es, fs[i]);
        TwiceMultiplicity(fs, i, j);
      }
    }
  }

  lemma TwiceMultiplicity(fs: seq<Entry>, i: nat, j: nat)
    requires i < j < |fs| && fs[i] == fs[j]
    ensures multiset(fs)[fs[i]] >= 2
  {
    assert fs == fs[..j] + fs[j..];
    assert fs[..j][i] == fs[i] && fs[j..][0] == fs[j];
    assert fs[i] in fs[..j] && fs[j] in fs[j..];
  }

  /** With an exact mirror the view served from it shows exactly the accounts of the chain, too. */
  lemma MirrorShowsChain(
    id: Key, chain: map<Key, Account>, t: Table, oracle: Key, rows: seq<IndexedChild>, children: seq<Entry>)
    requires Contents(t) == ChainContents(Oracles(id), chain)
    requires ServesRows(ListByOracle(t, oracle), rows) && ScansChildren(id, chain, oracle, children)
    requires AssembledDetail(oracle, rows).Some?
    ensures ShowsChain(id, chain, oracle, AssembledDetail(oracle, rows).value)
  {
    var mirrored := AssembledDetail(oracle, rows).value;
    MirrorPathAgreesWithScan(id, chain, t, oracle, rows, children);
    ScanShowsChain(id, chain, oracle, children);
    var scanned := ScannedDetail(oracle, Some(chain[oracle].data), children).value;
    SameElements(scanned.facts, mirrored.facts);
    SameElements(scanned.proposers, mirrored.proposers);
    SameElements(scanned.aiClaims, mirrored.aiClaims);
    MirroredMarket(id, chain, t, oracle, rows, children);
  }

  lemma MirroredMarket(
    id: Key, chain: map<Key, Account>, t: Table, oracle: Key, rows: seq<IndexedChild>, children: seq<Entry>)
    requires Contents(t) == ChainContents(Oracles(id), chain)
    requires ServesRows(ListByOracle(t, oracle), rows) && ScansChildren(id, chain, oracle, children)
    ensures
      var markets := Collect(Tags(rows), Entries(rows), TAG_MARKET, MARKET_SIZE);
      forall e :: e in markets <==> IsChildOf(id, chain, oracle, e, 6, 416)
  {
    ChildrenAgree(id, chain, t, oracle, rows, children, TAG_MARKET, MARKET_SIZE);
    ScannedChildren(id, chain, oracle, children, TAG_MARKET, MARKET_SIZE);
    SameElements(
      Collect(TagBytes(children), children, TAG_MARKET, MARKET_SIZE),
      Collect(Tags(rows), Entries(rows), TAG_MARKET, MARKET_SIZE));
  }

  /** The market shown is the first one listed. */
  lemma {:induction false} FirstIsEarliest(tags: seq<u8>, accounts: seq<Entry>, tag: u8, size: nat, i: nat)
    requires |tags| == |accounts| && i < |accounts|
    requires tags[i] == tag && Decodes(accounts[i].data, tag, size)
    requires forall j :: 0 <= j < i ==> !(tags[j] == tag && Decodes(accounts[j].data, tag, size))
    ensures First(Collect(tags, accounts, tag, size)) == Some(accounts[i])
    decreases |accounts|
  {
    var last := |accounts| - 1;
    if i < last {
      FirstIsEarliest(tags[..last], accounts[..last], tag, size, i);
    } else {
      CollectsNothing(tags[..last], accounts[..last], tag, size);
    }
  }

  lemma CollectsNothing(tags: seq<u8>, accounts: seq<Entry>, tag: u8, size: nat)
    requires |tags| == |accounts|
    requires forall j :: 0 <= j < |accounts| ==> !(tags[j] == tag && Decodes(accounts[j].data, tag, size))
    ensures Collect(tags, accounts, tag, size) == []
  {
    var es := Collect(tags, accounts, tag, size);
    if es != [] {
      CollectHolds(tags, accounts, tag, size, es[0]);
    }
  }

  /** With a mirror that says what the chain says, asking the indexer first never changes what a reader is shown. */
  lemma IndexerChangesNothing(
    id: Key, chain: map<Key, Account>, t: Table, oracle: Key, rows: seq<IndexedChild>, children: seq<Entry>)
    requires Contents(t) == ChainContents(Oracles(id), chain)
    requires ServesRows(ListByOracle(t, oracle), rows) && ScansChildren(id, chain, oracle, children)
    ensures
      var info := if oracle in chain then Some(chain[oracle].data) else None;
      var with := FetchedDetail(oracle, Some(rows), info, children);
      var without := FetchedDetail(oracle, None, info, children);
      (with.Some? <==> without.Some?) && (with.Some? ==> SameDetail(with.value, without.value, children))
  {
    MirrorPathAgreesWithScan(id, chain, t, oracle, rows, children);
  }

  /**
    End to end: after any run of the mirror, once the chain has settled and a reconcile has gone through, a detail view
    served from the table shows what a direct scan of the settled chain shows, then and for as long as the chain is
    quiet, whatever later reconciles do.
   */
  lemma DetailAfterReconcile(
    id: Key, states: seq<MirrorProtocol.State>, steps: seq<MirrorProtocol.Step>, from: nat, to: nat, slot: nat, c: nat,
    later: nat, oracle: Key, rows: seq<IndexedChild>, children: seq<Entry>)
    requires MirrorProtocol.IsRun(Oracles(id), states, steps) && MirrorProtocol.Init(states[0])
    requires from < to <= later < |states|
    requires MirrorProtocol.Settled(states[from], c) && c <= slot
    requires MirrorProtocol.IsReconcile(
               Oracles(id), states[from..to + 1], steps[from..to], slot, states[from].history[c])
    requires forall k :: k in states[from].rows ==> states[from].rows[k].slot <= slot
    requires forall i :: to <= i < later ==> MirrorProtocol.IsQuietStep(c, states[from].history[c], steps[i])
    requires ServesRows(ListByOracle(states[later].rows, oracle), rows)
    requires ScansChildren(id, states[from].history[c], oracle, children)
    ensures
      var chain := states[from].history[c];
      var info := if oracle in chain then Some(chain[oracle].data) else None;
      var with := FetchedDetail(oracle, Some(rows), info, children);
      var without := FetchedDetail(oracle, None, info, children);
      (with.Some? <==> without.Some?) && (with.Some? ==> SameDetail(with.value, without.value, children))
  {
    MirrorProtocol.ConvergedStays(Oracles(id), states, steps, from, to, slot, c, later);
    IndexerChangesNothing(id, states[from].history[c], states[later].rows, oracle, rows, children);
  }
}
