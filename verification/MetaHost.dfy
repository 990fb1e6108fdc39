/**
  The metadata-JSON host (`indexer/src/db/oracle_meta.rs`, `indexer/src/api.rs`, `indexer/src/meta_fetch.rs`): a
  write-once commitment, an overwritable blob, a serve path gated on the hash, and a fetcher with a work list.
  SHA-256 is a parameter: nothing here depends on which function it is.
 */
module MetaHost {
  import opened Bytes
  import opened Options
  import opened AccountMirror
  import OracleMetaWire

  /** `sha256_hex`. */
  type Digest = bytes -> bytes

  /** A row of `oracle_metadata`. */
  datatype MetaRow = MetaRow(meta: OracleMetaWire.IndexedMeta, slot: int, signature: bytes)

  /** A row of `oracle_meta_json`. */
  datatype Blob = Blob(json: bytes, sha256: bytes)

  type Metadata = map<Key, MetaRow>
  type Blobs = map<Key, Blob>

  const MAX_META_BYTES := 256 * 1024

  // ---- the queries ----

  /** A Postgres TEXT or JSONB value holds no NUL character; a statement with one fails. */
  predicate Storable(t: bytes) {
    0 !in t
  }

  predicate RowStorable(m: OracleMetaWire.IndexedMeta) {
    Storable(m.subject) && Storable(m.uri) && forall o :: o in m.options ==> Storable(o)
  }

  /** `INSERT ... ON CONFLICT (oracle) DO NOTHING`. */
  function Inserted(metas: Metadata, oracle: Key, row: MetaRow): Metadata {
    if oracle in metas || !RowStorable(row.meta) then metas else metas[oracle := row]
  }

  /** `INSERT ... ON CONFLICT (oracle) DO UPDATE`; `up` is whether the database answers. */
  function WithBlob(blobs: Blobs, oracle: Key, blob: Blob, up: bool): Blobs {
    if up && Storable(blob.json) then blobs[oracle := blob] else blobs
  }

  /** `LEFT JOIN ... ON j.sha256 = m.uri_hash WHERE m.uri <> '' AND j.oracle IS NULL`, without the limit. */
  function WorkList(metas: Metadata, blobs: Blobs): set<Key> {
    set o | o in metas && metas[o].meta.uri != []
            && !(o in blobs && blobs[o].sha256 == metas[o].meta.uriHashHex)
  }

  datatype Response = Served(json: bytes) | NotFound | Conflict

  /** The second half of the GET handler: the blob it read against the hash it reads now. */
  function Gate(blob: Blob, metas: Metadata, oracle: Key): Response {
    if oracle in metas && metas[oracle].meta.uriHashHex == blob.sha256 then Served(blob.json) else Conflict
  }

  /** A GET whose two queries see one state. */
  function Get(metas: Metadata, blobs: Blobs, oracle: Key): Response {
    if oracle in blobs then Gate(blobs[oracle], metas, oracle) else NotFound
  }

  /** A body that reaches the table. */
  predicate IsStored(body: bytes, up: bool) {
    ValidUtf8(body) && Storable(body) && up
  }

  /** A POST body is stored with its own digest, whatever the oracle committed to; a body that is no text is refused. */
  function Posted(sha: Digest, blobs: Blobs, oracle: Key, body: bytes, up: bool): Blobs {
    if ValidUtf8(body) then WithBlob(blobs, oracle, Blob(body, sha(body)), up) else blobs
  }

  /** What the network gave the fetcher; `NoAnswer` covers refused addresses, failures and error statuses. */
  datatype HttpAnswer = NoAnswer | Answer(declaredLength: Option<nat>, body: bytes)

  /** `fetch_and_verify`. */
  function FetchAndVerify(sha: Digest, answer: HttpAnswer, uriHash: bytes): Option<Blob> {
    match answer
    case NoAnswer => None
    case Answer(declared, body) =>
      if declared.Some? && declared.value > MAX_META_BYTES then None
      else if |body| > MAX_META_BYTES then None
      else if sha(body) != uriHash then None
      else if !ValidUtf8(body) then None
      else Some(Blob(body, sha(body)))
  }

  /** An answer is accepted if it is no longer than 256 KiB, also as declared, hashes to the commitment and is text. */
  lemma FetchAccepts(sha: Digest, answer: HttpAnswer, uriHash: bytes)
    ensures
      FetchAndVerify(sha, answer, uriHash).Some?
      <==> && answer.Answer? && (answer.declaredLength.Some? ==> answer.declaredLength.value <= 262_144)
           && |answer.body| <= 262_144 && sha(answer.body) == uriHash && ValidUtf8(answer.body)
    ensures FetchAndVerify(sha, answer, uriHash).Some? ==>
      FetchAndVerify(sha, answer, uriHash).value == Blob(answer.body, uriHash)
  {
  }

  function Fetched(sha: Digest, blobs: Blobs, oracle: Key, uriHash: bytes, answer: HttpAnswer, up: bool): Blobs {
    match FetchAndVerify(sha, answer, uriHash)
    case Some(blob) => WithBlob(blobs, oracle, blob, up)
    case None => blobs
  }

  function FetchAll(
    sha: Digest, blobs: Blobs, todo: seq<(Key, bytes)>, answers: seq<HttpAnswer>, up: seq<bool>): Blobs
    requires |answers| == |todo| && |up| == |todo|
  {
    if todo == [] then blobs
    else
      var last := |todo| - 1;
      Fetched(sha, FetchAll(sha, blobs, todo[..last], answers[..last], up[..last]),
              todo[last].0, todo[last].1, answers[last], up[last])
  }

  function StoredCount(sha: Digest, todo: seq<(Key, bytes)>, answers: seq<HttpAnswer>, up: seq<bool>): nat
    requires |answers| == |todo| && |up| == |todo|
  {
    if todo == [] then 0
    else
      var last := |todo| - 1;
      StoredCount(sha, todo[..last], answers[..last], up[..last])
      + match FetchAndVerify(sha, answers[last], todo[last].1)
        case Some(blob) => if up[last] && Storable(blob.json) then 1 else 0
        case None => 0
  }

  /** The answer to one item of a batch is stored: accepted, holdable, and the database answers. */
  ghost predicate StoresItem(sha: Digest, uriHash: bytes, answer: HttpAnswer, up: bool) {
    && up && answer.Answer? && (answer.declaredLength.Some? ==> answer.declaredLength.value <= 262_144)
    && |answer.body| <= 262_144 && sha(answer.body) == uriHash && ValidUtf8(answer.body) && 0 !in answer.body
  }

  /** After a batch each stored answer is its oracle's blob, and every other oracle keeps its own. */
  lemma {:induction false} BatchIsStored(
    sha: Digest, blobs: Blobs, todo: seq<(Key, bytes)>, answers: seq<HttpAnswer>, up: seq<bool>, o: Key)
    requires |answers| == |todo| && |up| == |todo|
    requires forall i, j :: 0 <= i < j < |todo| ==> todo[i].0 != todo[j].0
    ensures
      var after := FetchAll(sha, blobs, todo, answers, up);
      && (forall i :: 0 <= i < |todo| && todo[i].0 == o && StoresItem(sha, todo[i].1, answers[i], up[i]) ==>
            o in after && after[o] == Blob(answers[i].body, todo[i].1))
      && ((forall i :: 0 <= i < |todo| ==> todo[i].0 != o || !StoresItem(sha, todo[i].1, answers[i], up[i])) ==>
            (o in after <==> o in blobs) && (o in blobs ==> after[o] == blobs[o]))
    decreases |todo|
  {
    if todo != [] {
      var last := |todo| - 1;
      var ts, ans, us := todo[..last], answers[..last], up[..last];
      BatchIsStored(sha, blobs, ts, ans, us, o);
      FetchAccepts(sha, answers[last], todo[last].1);
      assert forall i :: 0 <= i < last ==> ts[i] == todo[i] && ans[i] == answers[i] && us[i] == up[i];
    }
  }

  ghost function StoredItems(
    sha: Digest, todo: seq<(Key, bytes)>, answers: seq<HttpAnswer>, up: seq<bool>): set<int>
    requires |answers| == |todo| && |up| == |todo|
  {
    set i | 0 <= i < |todo| && StoresItem(sha, todo[i].1, answers[i], up[i])
  }

  /** The number reported is the number of items stored. */
  lemma {:induction false} StoredCountIs(
    sha: Digest, todo: seq<(Key, bytes)>, answers: seq<HttpAnswer>, up: seq<bool>)
    requires |answers| == |todo| && |up| == |todo|
    ensures StoredCount(sha, todo, answers, up) == |StoredItems(sha, todo, answers, up)|
    decreases |todo|
  {
    if todo == [] {
      assert StoredItems(sha, todo, answers, up) == {};
    } else {
      var last := |todo| - 1;
      var ts, ans, us := todo[..last], answers[..last], up[..last];
      StoredCountIs(sha, ts, ans, us);
      FetchAccepts(sha, answers[last], todo[last].1);
      OneMoreItem(sha, todo, answers, up);
    }
  }

  lemma OneMoreItem(sha: Digest, todo: seq<(Key, bytes)>, answers: seq<HttpAnswer>, up: seq<bool>)
    requires |answers| == |todo| && |up| == |todo| && todo != []
    ensures
      var last := |todo| - 1;
      |StoredItems(sha, todo, answers, up)|
      == |StoredItems(sha, todo[..last], answers[..last], up[..last])|
         + if StoresItem(sha, todo[last].1, answers[last], up[last]) then 1 else 0
  {
    var last := |todo| - 1;
    assert StoredItems(sha, todo, answers, up)
        == StoredItems(sha, todo[..last], answers[..last], up[..last])
           + if StoresItem(sha, todo[last].1, answers[last], up[last]) then {last} else {};
  }

  datatype PostStatus = BadRequest | Ok(sha256: bytes) | ServerError

  class MetaStore {
    const sha: Digest
    var metas: Metadata
    var blobs: Blobs

    constructor (sha: Digest)
      ensures metas == map[] && blobs == map[] && this.sha == sha
    {
      this.sha := sha;
      metas, blobs := map[], map[];
    }

    /** `insert_oracle_meta`. */
    method InsertOracleMeta(oracle: Key, row: MetaRow)
      modifies this`metas
      ensures metas == Inserted(old(metas), oracle, row)
      ensures
        var m := row.meta;
        if oracle in old(metas) || 0 in m.subject || 0 in m.uri || exists o :: o in m.options && 0 in o
        then metas == old(metas)
        else metas == old(metas)[oracle := row]
    {
      if oracle !in metas && RowStorable(row.meta) {
        metas := metas[oracle := row];
      }
    }

    /** `upsert_oracle_meta_json`. */
    method UpsertOracleMetaJson(oracle: Key, json: bytes, sha256: bytes, up: bool) returns (ok: bool)
      modifies this`blobs
      ensures blobs == WithBlob(old(blobs), oracle, Blob(json, sha256), up)
      ensures ok == (up && Storable(json))
    {
      ok := up && Storable(json);
      if ok {
        blobs := blobs[oracle := Blob(json, sha256)];
      }
    }

    /** `post_oracle_meta_json`. */
    method PostOracleMetaJson(oracle: Key, body: bytes, up: bool) returns (status: PostStatus)
      modifies this`blobs
      ensures blobs == Posted(sha, old(blobs), oracle, body, up)
      ensures
        if !ValidUtf8(body) then status == BadRequest && blobs == old(blobs)
        else if !up || 0 in body then status == ServerError && blobs == old(blobs)
        else status == Ok(sha(body)) && blobs == old(blobs)[oracle := Blob(body, sha(body))]
    {
      if !ValidUtf8(body) {
        return BadRequest;
      }
      var ok := UpsertOracleMetaJson(oracle, body, sha(body), up);
      return if ok then Ok(sha(body)) else ServerError;
    }

    /** The GET handler `get_oracle_meta_json`. */
    method GetOracleMetaJson(oracle: Key) returns (r: Response)
      ensures r == Get(metas, blobs, oracle)
      ensures
        if oracle !in blobs then r == NotFound
        else if oracle in metas && metas[oracle].meta.uriHashHex == blobs[oracle].sha256
        then r == Served(blobs[oracle].json)
        else r == Conflict
    {
      if oracle !in blobs {
        return NotFound;
      }
      var stored := blobs[oracle];
      var uriHash := if oracle in metas then Some(metas[oracle].meta.uriHashHex) else None;
      if uriHash.Some? && uriHash.value == stored.sha256 {
        return Served(stored.json);
      }
      return Conflict;
    }

    /** `meta_fetch::reconcile_once` after its work-list query, with the answers of the network. */
    method ReconcileOnce(todo: seq<(Key, bytes)>, answers: seq<HttpAnswer>, up: seq<bool>) returns (stored: nat)
      requires |answers| == |todo| && |up| == |todo|
      modifies this`blobs
      ensures blobs == FetchAll(sha, old(blobs), todo, answers, up)
      ensures stored == StoredCount(sha, todo, answers, up)
    {
      stored := 0;
      var i := 0;
      while i < |todo|
        invariant 0 <= i <= |todo|
        invariant blobs == FetchAll(sha, old(blobs), todo[..i], answers[..i], up[..i])
        invariant stored == StoredCount(sha, todo[..i], answers[..i], up[..i])
      {
        assert todo[..i + 1][..i] == todo[..i] && answers[..i + 1][..i] == answers[..i] && up[..i + 1][..i] == up[..i];
        var fetched := FetchAndVerify(sha, answers[i], todo[i].1);
        if fetched.Some? {
          var ok := UpsertOracleMetaJson(todo[i].0, fetched.value.json, fetched.value.sha256, up[i]);
          if ok {
            stored := stored + 1;
          }
        }
        i := i + 1;
      }
      assert todo[..i] == todo && answers[..i] == answers && up[..i] == up;
    }
  }

  // ---- the protocol, query by query ----

  /**
    `gets` are the GET requests between their two queries, `todo` is what is left of the fetcher's batch, and `served`
    is everything ever served.
   */
  datatype State = State(
    metas: Metadata, blobs: Blobs, gets: set<(Key, Blob)>, todo: set<(Key, bytes)>, served: set<(Key, bytes)>)

  datatype Step =
    | IndexInstruction(oracle: Key, data: bytes, slot: int, signature: bytes)
    | Post(oracle: Key, body: bytes, up: bool)
    | GetReadsBlob(oracle: Key)
    | GetReadsHash(oracle: Key, blob: Blob)
    | FetcherLists(batch: set<Key>)
    | FetcherHandles(oracle: Key, uriHash: bytes, answer: HttpAnswer, up: bool)
    | Restart

  function Init(): State {
    State(map[], map[], {}, {}, {})
  }

  /** One query of one task; a failed read or insert is a step that does not happen. */
  ghost predicate Next(sha: Digest, st: State, step: Step, st': State) {
    match step
    case IndexInstruction(oracle, data, slot, signature) =>
      (match OracleMetaWire.Parse(data)
       case None => st' == st
       case Some(m) =>
         var row := MetaRow(OracleMetaWire.Indexed(m), slot, signature);
         st' == st.(metas := Inserted(st.metas, oracle, row)))
    case Post(oracle, body, up) => st' == st.(blobs := Posted(sha, st.blobs, oracle, body, up))
    case GetReadsBlob(oracle) =>
      st' == if oracle in st.blobs then st.(gets := st.gets + {(oracle, st.blobs[oracle])}) else st
    case GetReadsHash(oracle, blob) =>
      && (oracle, blob) in st.gets
      && st' == st.(
           gets := st.gets - {(oracle, blob)},
           served := st.served + match Gate(blob, st.metas, oracle) case Served(json) => {(oracle, json)} case _ => {})
    case FetcherLists(batch) =>
      && batch <= WorkList(st.metas, st.blobs)
      && st' == st.(todo := set o | o in batch :: (o, st.metas[o].meta.uriHashHex))
    case FetcherHandles(oracle, uriHash, answer, up) =>
      && (oracle, uriHash) in st.todo
      && st' == st.(
           todo := st.todo - {(oracle, uriHash)},
           blobs := Fetched(sha, st.blobs, oracle, uriHash, answer, up))
    case Restart => st' == st.(gets := {}, todo := {})
  }

  ghost predicate IsRun(sha: Digest, states: seq<State>, steps: seq<Step>) {
    && |states| == |steps| + 1 && states[0] == Init()
    && forall i :: 0 <= i < |steps| ==> Next(sha, states[i], steps[i], states[i + 1])
  }

  ghost predicate Inv(sha: Digest, st: State) {
    && (forall o :: o in st.blobs ==> st.blobs[o].sha256 == sha(st.blobs[o].json))
    && (forall g :: g in st.gets ==> g.1.sha256 == sha(g.1.json))
    && (forall t :: t in st.todo ==> t.0 in st.metas && st.metas[t.0].meta.uriHashHex == t.1)
    && (forall s :: s in st.served ==> s.0 in st.metas && sha(s.1) == st.metas[s.0].meta.uriHashHex)
  }

  /** The commitment is write-once: no step changes or removes a row. */
  lemma CommitmentsStay(sha: Digest, st: State, step: Step, st': State)
    requires Next(sha, st, step, st')
    ensures forall o :: o in st.metas ==> o in st'.metas && st'.metas[o] == st.metas[o]
    ensures st.served <= st'.served
  {
  }

  lemma NextKeepsInv(sha: Digest, st: State, step: Step, st': State)
    requires Inv(sha, st) && Next(sha, st, step, st')
    ensures Inv(sha, st')
  {
    CommitmentsStay(sha, st, step, st');
    match step
    case GetReadsHash(oracle, blob) =>
      forall s | s in st'.served ensures s.0 in st'.metas && sha(s.1) == st'.metas[s.0].meta.uriHashHex {
        if s !in st.served {
          assert Gate(blob, st.metas, oracle) == Served(s.1) && s.0 == oracle;
        }
      }
    case _ =>
  }

  lemma {:induction false} RunKeepsInv(sha: Digest, states: seq<State>, steps: seq<Step>, i: nat)
    requires IsRun(sha, states, steps) && i < |states|
    ensures Inv(sha, states[i])
  {
    if i > 0 {
      RunKeepsInv(sha, states, steps, i - 1);
      NextKeepsInv(sha, states[i - 1], steps[i - 1], states[i]);
    }
  }

  lemma {:induction false} RunKeepsCommitments(
    sha: Digest, states: seq<State>, steps: seq<Step>, i: nat, j: nat, o: Key)
    requires IsRun(sha, states, steps) && i <= j < |states| && o in states[i].metas
    ensures o in states[j].metas && states[j].metas[o] == states[i].metas[o]
    decreases j - i
  {
    if i < j {
      RunKeepsCommitments(sha, states, steps, i, j - 1, o);
      assert Next(sha, states[j - 1], steps[j - 1], states[(j - 1) + 1]);
      CommitmentsStay(sha, states[j - 1], steps[j - 1], states[j]);
    }
  }

  /**
    Whatever the interleaving, every JSON ever served hashes to the oracle's commitment, also as it stands at any later
    point of the run; so all JSONs served for one oracle share one digest.
   */
  lemma ServedMatchesCommitment(
    sha: Digest, states: seq<State>, steps: seq<Step>, i: nat, j: nat, o: Key, json: bytes, json': bytes)
    requires IsRun(sha, states, steps) && i <= j < |states|
    requires (o, json) in states[i].served && (o, json') in states[j].served
    ensures o in states[j].metas && sha(json) == sha(json') == states[j].metas[o].meta.uriHashHex
  {
    RunKeepsInv(sha, states, steps, i);
    RunKeepsInv(sha, states, steps, j);
    RunKeepsCommitments(sha, states, steps, i, j, o);
  }

  /** In every reachable state a GET serves exactly the stored JSON whose own digest is the commitment. */
  lemma GetServesIff(sha: Digest, states: seq<State>, steps: seq<Step>, i: nat, o: Key, json: bytes)
    requires IsRun(sha, states, steps) && i < |states|
    ensures
      var st := states[i];
      Get(st.metas, st.blobs, o) == Served(json)
      <==> o in st.blobs && st.blobs[o].json == json && o in st.metas && sha(json) == st.metas[o].meta.uriHashHex
  {
    RunKeepsInv(sha, states, steps, i);
  }

  /**
    In every reachable state an indexed oracle with a uri is on the work list exactly when a GET on that state would
    not serve, that is, when no stored JSON hashes to its commitment.
   */
  lemma WorkListIff(sha: Digest, states: seq<State>, steps: seq<Step>, i: nat, o: Key)
    requires IsRun(sha, states, steps) && i < |states|
    requires o in states[i].metas && states[i].metas[o].meta.uri != []
    ensures
      var st := states[i];
      && (o in WorkList(st.metas, st.blobs) <==> !Get(st.metas, st.blobs, o).Served?)
      && (o in WorkList(st.metas, st.blobs)
          <==> !(o in st.blobs && sha(st.blobs[o].json) == st.metas[o].meta.uriHashHex))
  {
    RunKeepsInv(sha, states, steps, i);
  }

  /** The work list in full: indexed with a uri, and no stored blob has the committed digest. */
  lemma WorkListIs(metas: Metadata, blobs: Blobs, o: Key)
    ensures
      o in WorkList(metas, blobs)
      <==> && o in metas && |metas[o].meta.uri| > 0
           && (o in blobs ==> blobs[o].sha256 != metas[o].meta.uriHashHex)
  {
  }

  /** What the fetcher stores is served at once: it passed the same gate. A failed store changes nothing. */
  lemma FetchedIsServed(
    sha: Digest, states: seq<State>, steps: seq<Step>, i: nat, o: Key, uriHash: bytes, answer: HttpAnswer, up: bool)
    requires IsRun(sha, states, steps) && i < |steps|
    requires steps[i] == FetcherHandles(o, uriHash, answer, up) && FetchAndVerify(sha, answer, uriHash).Some?
    ensures IsStored(answer.body, up) ==>
      Get(states[i + 1].metas, states[i + 1].blobs, o) == Served(answer.body)
      && o !in WorkList(states[i + 1].metas, states[i + 1].blobs)
    ensures !IsStored(answer.body, up) ==> states[i + 1].blobs == states[i].blobs
  {
    RunKeepsInv(sha, states, steps, i);
    assert Next(sha, states[i], steps[i], states[i + 1]);
  }

  // ---- when a GET starts and stops serving ----

  ghost predicate Serves(st: State, o: Key) {
    Get(st.metas, st.blobs, o).Served?
  }

  /** The step stores a text for the oracle whose digest is its commitment. */
  ghost predicate Restores(sha: Digest, st: State, step: Step, o: Key)
    requires o in st.metas
  {
    match step
    case Post(oracle, body, up) => oracle == o && IsStored(body, up) && sha(body) == st.metas[o].meta.uriHashHex
    case FetcherHandles(oracle, uriHash, answer, up) =>
      var fetched := FetchAndVerify(sha, answer, uriHash);
      oracle == o && fetched.Some? && IsStored(fetched.value.json, up)
    case _ => false
  }

  /** The step is a POST of a text for the oracle with another digest. */
  ghost predicate Displaces(sha: Digest, st: State, step: Step, o: Key)
    requires o in st.metas
  {
    step.Post? && step.oracle == o && IsStored(step.body, step.up) && sha(step.body) != st.metas[o].meta.uriHashHex
  }

  /**
    A GET of an indexed oracle stops serving exactly at a POST of a text with another digest, and starts serving again
    exactly when a text with the committed digest is posted or fetched.
   */
  lemma ServiceChangesIff(sha: Digest, states: seq<State>, steps: seq<Step>, i: nat, o: Key)
    requires IsRun(sha, states, steps) && i < |steps| && o in states[i].metas
    ensures Serves(states[i + 1], o) <==>
      Restores(sha, states[i], steps[i], o) || (Serves(states[i], o) && !Displaces(sha, states[i], steps[i], o))
  {
    RunKeepsInv(sha, states, steps, i);
    assert Next(sha, states[i], steps[i], states[i + 1]);
  }

  lemma StaysOutOfService(sha: Digest, states: seq<State>, steps: seq<Step>, k: nat, o: Key)
    requires IsRun(sha, states, steps) && k < |steps| && o in states[k].metas
    requires Displaces(sha, states[k], steps[k], o)
             || (!Serves(states[k], o) && !Restores(sha, states[k], steps[k], o))
    ensures o in states[k + 1].metas && !Serves(states[k + 1], o)
  {
    ServiceChangesIff(sha, states, steps, k, o);
    RunKeepsCommitments(sha, states, steps, k, k + 1, o);
  }

  /** After the POST of a text with another digest no GET serves for as long as nothing restores the committed one. */
  lemma {:induction false} OutOfServiceUntilRestored(
    sha: Digest, states: seq<State>, steps: seq<Step>, i: nat, j: nat, o: Key)
    requires IsRun(sha, states, steps) && i < j < |states| && o in states[i].metas
    requires Displaces(sha, states[i], steps[i], o)
    requires forall k :: i < k < j && o in states[k].metas ==> !Restores(sha, states[k], steps[k], o)
    ensures o in states[j].metas && !Serves(states[j], o)
    decreases j - i
  {
    var k := j - 1;
    RunKeepsCommitments(sha, states, steps, i, k, o);
    if i < k {
      OutOfServiceUntilRestored(sha, states, steps, i, k, o);
    }
    StaysOutOfService(sha, states, steps, k, o);
  }

  /** Where a GET served, it serves after a POST if and only if the body is not stored or hashes to the commitment. */
  lemma PostKeepsServiceIff(sha: Digest, states: seq<State>, steps: seq<Step>, i: nat, o: Key, body: bytes, up: bool)
    requires IsRun(sha, states, steps) && i < |steps| && steps[i] == Post(o, body, up)
    requires Serves(states[i], o)
    ensures o in states[i].metas
    ensures Serves(states[i + 1], o) <==> !IsStored(body, up) || sha(body) == states[i].metas[o].meta.uriHashHex
    ensures Serves(states[i + 1], o) && IsStored(body, up) ==>
      Get(states[i + 1].metas, states[i + 1].blobs, o) == Served(body)
  {
    ServiceChangesIff(sha, states, steps, i, o);
    assert Next(sha, states[i], steps[i], states[i + 1]);
  }

  /** The instruction that indexes this metadata. */
  lemma IndexOf(sha: Digest, st: State, o: Key, m: OracleMetaWire.OracleMeta) returns (step: Step)
    requires OracleMetaWire.Encodable(m)
    ensures step.IndexInstruction?
    ensures Next(sha, st, step, st.(metas := Inserted(st.metas, o, MetaRow(OracleMetaWire.Indexed(m), 0, []))))
  {
    var data := OracleMetaWire.Encode(m);
    OracleMetaWire.ParseEncode(m, []);
    assert data + [] == data;
    step := IndexInstruction(o, data, 0, []);
  }

  /** A GET on its own, both queries on one state, which serves. */
  lemma GetServes(sha: Digest, st: State, o: Key) returns (between: State, st': State)
    requires o in st.blobs && st.gets == {} && Serves(st, o)
    ensures Next(sha, st, GetReadsBlob(o), between) && Next(sha, between, GetReadsHash(o, st.blobs[o]), st')
    ensures st'.metas == st.metas && st'.blobs == st.blobs && (o, st.blobs[o].json) in st'.served
  {
    var blob := st.blobs[o];
    between := st.(gets := st.gets + {(o, blob)});
    st' := between.(gets := between.gets - {(o, blob)}, served := st.served + {(o, blob.json)});
  }

  /** A run in which a GET serves the committed text, another text is posted, and the next GET is a conflict. */
  lemma PostTakesOutOfService(
    sha: Digest, o: Key, m: OracleMetaWire.OracleMeta, good: bytes, bad: bytes
  ) returns (states: seq<State>, steps: seq<Step>)
    requires OracleMetaWire.Encodable(m) && Hex(m.uriHash) == sha(good) != sha(bad)
    requires IsStored(good, true) && IsStored(bad, true) && RowStorable(OracleMetaWire.Indexed(m))
    ensures IsRun(sha, states, steps) && |steps| == 5
    ensures steps[4] == Post(o, bad, true) && (o, good) in states[4].served
    ensures Get(states[4].metas, states[4].blobs, o) == Served(good)
    ensures Get(states[5].metas, states[5].blobs, o) == Conflict
  {
    var blob := Blob(good, sha(good));
    var index := IndexOf(sha, Init(), o, m);
    var s1 := Init().(metas := Inserted(map[], o, MetaRow(OracleMetaWire.Indexed(m), 0, [])));
    var s2 := s1.(blobs := Posted(sha, s1.blobs, o, good, true));
    var s3, s4 := GetServes(sha, s2, o);
    var s5 := s4.(blobs := Posted(sha, s4.blobs, o, bad, true));
    var post := Post(o, good, true);
    RunExtends(sha, [Init()], [], index, s1);
    RunExtends(sha, [Init(), s1], [index], post, s2);
    RunExtends(sha, [Init(), s1, s2], [index, post], GetReadsBlob(o), s3);
    RunExtends(sha, [Init(), s1, s2, s3], [index, post, GetReadsBlob(o)], GetReadsHash(o, blob), s4);
    states := [Init(), s1, s2, s3, s4] + [s5];
    steps := [index, post, GetReadsBlob(o), GetReadsHash(o, blob)] + [Post(o, bad, true)];
    RunExtends(sha, states[..5], steps[..4], Post(o, bad, true), s5);
  }

  lemma RunExtends(sha: Digest, states: seq<State>, steps: seq<Step>, step: Step, st': State)
    requires IsRun(sha, states, steps) && Next(sha, states[|steps|], step, st')
    ensures IsRun(sha, states + [st'], steps + [step])
  {
  }
}
