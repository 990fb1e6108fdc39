/** The canonical hash preimages of the runner (`runner/src/hashing/canonical.rs`) and why they are unambiguous. */
module Canonical {
  import opened Arith
  import opened Bytes
  import opened Options

  datatype CanonicalParams = CanonicalParams(
    promptAssemblyVersion: u32,
    provider: bytes,
    modelId: bytes,
    thinking: Option<bytes>,
    outputSchemaId: bytes,
    outputSchemaVersion: u32,
    maxTokens: u32)

  datatype ModelConfig = ModelConfig(modelId: bytes, provider: bytes, maxTokens: u32, thinking: Option<bytes>)

  const PROMPT_ASSEMBLY_VERSION: u32 := 1
  const OUTPUT_SCHEMA_VERSION: u32 := 1
  const OUTPUT_SCHEMA_ID: bytes := Ascii("kassandra.categorical_option_index")

  /** `CanonicalParams::from_config`. */
  function FromConfig(c: ModelConfig): CanonicalParams {
    CanonicalParams(PROMPT_ASSEMBLY_VERSION, c.provider, c.modelId, c.thinking, OUTPUT_SCHEMA_ID, OUTPUT_SCHEMA_VERSION,
                    c.maxTokens)
  }

  // ---- the layouts ----

  function EncodeStr(s: bytes): bytes {
    U32Be(|s|) + s
  }

  function EncodeOptStr(s: Option<bytes>): bytes {
    match s
    case None => [0]
    case Some(t) => [1] + EncodeStr(t)
  }

  /** The seven fields in their fixed order. */
  function CanonicalBytes(p: CanonicalParams): bytes {
    U32Be(p.promptAssemblyVersion)
    + (EncodeStr(p.provider)
       + (EncodeStr(p.modelId)
          + (EncodeOptStr(p.thinking)
             + (EncodeStr(p.outputSchemaId) + (U32Be(p.outputSchemaVersion) + U32Be(p.maxTokens))))))
  }

  /** A string is its length in four bytes, the high one first, and its bytes. */
  lemma StringLayout(s: bytes)
    ensures |EncodeStr(s)| == 4 + |s| && EncodeStr(s)[4..] == s
    ensures
      FromU32Be(EncodeStr(s)[..4]) == |s| % 0x1_0000_0000
  {
    U32BeIsBigEndian(|s|);
    PartsOfConcat(U32Be(|s|), s);
  }

  /** An absent string is a byte 0, a present one a byte 1 and the string. */
  lemma OptionalStringLayout(s: bytes)
    ensures EncodeOptStr(None) == [0]
    ensures EncodeOptStr(Some(s))[0] == 1 && EncodeOptStr(Some(s))[1..] == EncodeStr(s)
  {
  }

  /** The runner's own constants around a configuration. */
  lemma ConfigLayout(c: ModelConfig)
    ensures
      FromConfig(c)
      == CanonicalParams(
           1, c.provider, c.modelId, c.thinking, Ascii("kassandra.categorical_option_index"), 1, c.maxTokens)
  {
  }

  /** The preimage of `hash_io`: the response takes the remainder, without a length. */
  function IoPreimage(system: bytes, user: bytes, rawResponse: bytes): bytes {
    EncodeStr(system) + (EncodeStr(user) + rawResponse)
  }

  // ---- the buffer the source appends to ----

  class Buffer {
    var content: bytes

    constructor ()
      ensures content == []
    {
      content := [];
    }

    method ExtendFromSlice(s: bytes)
      modifies this
      ensures content == old(content) + s
    {
      content := content + s;
    }

    /** `put_str`. */
    method PutStr(s: bytes)
      modifies this
      ensures content == old(content) + EncodeStr(s)
    {
      Assoc(content, U32Be(|s|), s);
      ExtendFromSlice(U32Be(|s|));
      ExtendFromSlice(s);
    }

    /** `put_opt_str`. */
    method PutOptStr(s: Option<bytes>)
      modifies this
      ensures content == old(content) + EncodeOptStr(s)
    {
      match s {
        case None =>
          ExtendFromSlice([0]);
        case Some(t) =>
          Assoc(content, [1], EncodeStr(t));
          ExtendFromSlice([1]);
          PutStr(t);
      }
    }
  }

  /** `to_canonical_bytes`. */
  method ToCanonicalBytes(p: CanonicalParams) returns (out: bytes)
    ensures out == CanonicalBytes(p)
  {
    var buf := new Buffer();
    buf.ExtendFromSlice(U32Be(p.promptAssemblyVersion));
    buf.PutStr(p.provider);
    buf.PutStr(p.modelId);
    buf.PutOptStr(p.thinking);
    buf.PutStr(p.outputSchemaId);
    buf.ExtendFromSlice(U32Be(p.outputSchemaVersion));
    buf.ExtendFromSlice(U32Be(p.maxTokens));
    out := buf.content;
    FieldsRegrouped(p);
  }

  /** The order of appends and the nesting of CanonicalBytes give the same bytes. */
  lemma FieldsRegrouped(p: CanonicalParams)
    ensures [] + U32Be(p.promptAssemblyVersion) + EncodeStr(p.provider) + EncodeStr(p.modelId)
            + EncodeOptStr(p.thinking) + EncodeStr(p.outputSchemaId) + U32Be(p.outputSchemaVersion) + U32Be(p.maxTokens)
            == CanonicalBytes(p)
  {
    var a, b := U32Be(p.promptAssemblyVersion), EncodeStr(p.provider);
    var c, d := EncodeStr(p.modelId), EncodeOptStr(p.thinking);
    var e, f, g := EncodeStr(p.outputSchemaId), U32Be(p.outputSchemaVersion), U32Be(p.maxTokens);
    SevenParts(a, b, c, d, e, f, g);
  }

  lemma SevenParts<T>(a: seq<T>, b: seq<T>, c: seq<T>, d: seq<T>, e: seq<T>, f: seq<T>, g: seq<T>)
    ensures [] + a + b + c + d + e + f + g == a + (b + (c + (d + (e + (f + g)))))
  {
    assert [] + a == a;
    Assoc(a + b + c + d + e, f, g);
    Assoc(a + b + c + d, e, f + g);
    Assoc(a + b + c, d, e + (f + g));
    Assoc(a + b, c, d + (e + (f + g)));
    Assoc(a, b, c + (d + (e + (f + g))));
  }

  /** The buffer of `hash_io` before hashing. */
  method IoBuffer(system: bytes, user: bytes, rawResponse: bytes) returns (out: bytes)
    ensures out == IoPreimage(system, user, rawResponse)
  {
    var buf := new Buffer();
    buf.PutStr(system);
    buf.PutStr(user);
    buf.ExtendFromSlice(rawResponse);
    out := buf.content;
    assert [] + EncodeStr(system) == EncodeStr(system);
    Assoc(EncodeStr(system), EncodeStr(user), rawResponse);
  }

  // ---- unique decodability ----

  /** The length prefix does not wrap. */
  predicate Short(s: bytes) {
    |s| < 0x1_0000_0000
  }

  predicate ShortParams(p: CanonicalParams) {
    && Short(p.provider) && Short(p.modelId) && Short(p.outputSchemaId)
    && (p.thinking.Some? ==> Short(p.thinking.value))
  }

  /** A length-prefixed string can be read off the front of any byte sequence in one way only. */
  lemma StrReadsOneWay(a: bytes, b: bytes, x: bytes, y: bytes)
    requires Short(a) && Short(b)
    requires EncodeStr(a) + x == EncodeStr(b) + y
    ensures a == b && x == y
  {
    Assoc(U32Be(|a|), a, x);
    Assoc(U32Be(|b|), b, y);
    SplitEqual(U32Be(|a|), U32Be(|b|), a + x, b + y);
    U32BeInjective(|a|, |b|);
    SplitEqual(a, b, x, y);
  }

  lemma OptStrReadsOneWay(a: Option<bytes>, b: Option<bytes>, x: bytes, y: bytes)
    requires (a.Some? ==> Short(a.value)) && (b.Some? ==> Short(b.value))
    requires EncodeOptStr(a) + x == EncodeOptStr(b) + y
    ensures a == b && x == y
  {
    assert (EncodeOptStr(a) + x)[0] == EncodeOptStr(a)[0];
    assert (EncodeOptStr(b) + y)[0] == EncodeOptStr(b)[0];
    if a.Some? && b.Some? {
      Assoc([1], EncodeStr(a.value), x);
      Assoc([1], EncodeStr(b.value), y);
      SplitEqual([1], [1], EncodeStr(a.value) + x, EncodeStr(b.value) + y);
      StrReadsOneWay(a.value, b.value, x, y);
    } else {
      SplitEqual(EncodeOptStr(a), EncodeOptStr(b), x, y);
    }
  }

  /** Equal preimages come from equal parameters, in every field. */
  lemma CanonicalBytesInjective(p: CanonicalParams, q: CanonicalParams)
    requires ShortParams(p) && ShortParams(q)
    requires CanonicalBytes(p) == CanonicalBytes(q)
    ensures p == q
  {
    var tp, tq := U32Be(p.outputSchemaVersion) + U32Be(p.maxTokens), U32Be(q.outputSchemaVersion) + U32Be(q.maxTokens);
    var sp, sq := EncodeStr(p.outputSchemaId) + tp, EncodeStr(q.outputSchemaId) + tq;
    var hp, hq := EncodeOptStr(p.thinking) + sp, EncodeOptStr(q.thinking) + sq;
    var mp, mq := EncodeStr(p.modelId) + hp, EncodeStr(q.modelId) + hq;
    SplitEqual(
      U32Be(p.promptAssemblyVersion), U32Be(q.promptAssemblyVersion),
      EncodeStr(p.provider) + mp, EncodeStr(q.provider) + mq);
    U32BeInjective(p.promptAssemblyVersion, q.promptAssemblyVersion);
    StrReadsOneWay(p.provider, q.provider, mp, mq);
    StrReadsOneWay(p.modelId, q.modelId, hp, hq);
    OptStrReadsOneWay(p.thinking, q.thinking, sp, sq);
    StrReadsOneWay(p.outputSchemaId, q.outputSchemaId, tp, tq);
    SplitEqual(U32Be(p.outputSchemaVersion), U32Be(q.outputSchemaVersion), U32Be(p.maxTokens), U32Be(q.maxTokens));
    U32BeInjective(p.outputSchemaVersion, q.outputSchemaVersion);
    U32BeInjective(p.maxTokens, q.maxTokens);
  }

  /** Two model configurations of the same runner version share a preimage only if they are the same configuration. */
  lemma ConfigPreimageInjective(c: ModelConfig, d: ModelConfig)
    requires ShortParams(FromConfig(c)) && ShortParams(FromConfig(d))
    requires CanonicalBytes(FromConfig(c)) == CanonicalBytes(FromConfig(d))
    ensures c == d
  {
    CanonicalBytesInjective(FromConfig(c), FromConfig(d));
  }

  /** Equal io preimages come from the same system text, user text and response. */
  lemma IoPreimageInjective(s1: bytes, u1: bytes, r1: bytes, s2: bytes, u2: bytes, r2: bytes)
    requires Short(s1) && Short(u1) && Short(s2) && Short(u2)
    requires IoPreimage(s1, u1, r1) == IoPreimage(s2, u2, r2)
    ensures s1 == s2 && u1 == u2 && r1 == r2
  {
    StrReadsOneWay(s1, s2, EncodeStr(u1) + r1, EncodeStr(u2) + r2);
    StrReadsOneWay(u1, u2, r1, r2);
  }

  /** The length limit is needed: at 2^32 bytes the prefix wraps and two different pairs share a preimage. */
  lemma IoPreimageCollidesBeyondLimit()
    ensures exists s1: bytes, u1: bytes, r1: bytes, s2: bytes, u2: bytes, r2: bytes ::
      s1 != s2 && !Short(s2) && IoPreimage(s1, u1, r1) == IoPreimage(s2, u2, r2)
  {
    var zeros: bytes := seq(0x1_0000_0000, _ => 0);
    assert IoPreimage([], [], zeros) == [0, 0, 0, 0] + [] + ([0, 0, 0, 0] + [] + zeros);
    assert IoPreimage(zeros, [], []) == [0, 0, 0, 0] + zeros + ([0, 0, 0, 0] + [] + []);
    forall i | 0 <= i < 0x1_0000_0008 ensures IoPreimage([], [], zeros)[i] == IoPreimage(zeros, [], [])[i] == 0 {
    }
    assert IoPreimage([], [], zeros) == IoPreimage(zeros, [], []);
  }
}
