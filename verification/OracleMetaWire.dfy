/**
  The wire form of `write_oracle_meta`: the encoder of the SDK (`sdks/oracles/rust/src/ix/meta.rs`) and the cursor
  parser of the indexer (`indexer/src/processor.rs`), which are mutual inverses.
 */
module OracleMetaWire {
  import opened Arith
  import opened Bytes
  import opened Options

  const WRITE_ORACLE_META: u8 := 23

  datatype OracleMeta = OracleMeta(subject: Text, options: seq<Text>, uri: Text, uriHash: Hash)

  /** What the indexer stores: the hash as hex text. */
  datatype IndexedMeta = IndexedMeta(subject: Text, options: seq<Text>, uri: Text, uriHashHex: bytes)

  function Indexed(m: OracleMeta): IndexedMeta {
    IndexedMeta(m.subject, m.options, m.uri, Hex(m.uriHash))
  }

  // ---- the encoder ----

  function EncodeText(t: Text): bytes {
    U16Le(|t|) + t
  }

  function EncodeOptions(options: seq<Text>): bytes {
    if options == [] then [] else EncodeText(options[0]) + EncodeOptions(options[1..])
  }

  function EncodeCounted(options: seq<Text>): bytes {
    [|options| % 256] + EncodeOptions(options)
  }

  function EncodeTrailer(m: OracleMeta): bytes {
    EncodeText(m.uri) + m.uriHash
  }

  function EncodeBody(m: OracleMeta): bytes {
    EncodeText(m.subject) + (EncodeCounted(m.options) + EncodeTrailer(m))
  }

  function Encode(m: OracleMeta): bytes {
    [WRITE_ORACLE_META] + EncodeBody(m)
  }

  /** No length is truncated by the casts of the encoder. */
  predicate Encodable(m: OracleMeta) {
    && |m.subject| < 0x1_0000
    && |m.uri| < 0x1_0000
    && |m.options| < 256
    && forall o :: o in m.options ==> |o| < 0x1_0000
  }

  // ---- the grammar: each reader returns what it read and what is left ----

  function ReadU16(d: bytes): Option<(nat, bytes)> {
    if |d| < 2 then None else Some((FromU16Le(d[0], d[1]), d[2..]))
  }

  function ReadText(d: bytes): Option<(Text, bytes)> {
    match ReadU16(d)
    case None => None
    case Some((len, rest)) =>
      if |rest| < len || !ValidUtf8(rest[..len]) then None else Some((rest[..len], rest[len..]))
  }

  function ReadOptions(d: bytes, count: nat): (r: Option<(seq<Text>, bytes)>)
    ensures r.Some? ==> |r.value.0| == count
  {
    if count == 0 then Some(([], d))
    else
      match ReadText(d)
      case None => None
      case Some((o, rest)) =>
        match ReadOptions(rest, count - 1)
        case None => None
        case Some((os, left)) => Some(([o] + os, left))
  }

  function ReadTrailer(subject: Text, options: seq<Text>, d: bytes): Option<(OracleMeta, bytes)> {
    match ReadText(d)
    case None => None
    case Some((uri, rest)) =>
      if |rest| < 32 then None else Some((OracleMeta(subject, options, uri, rest[..32]), rest[32..]))
  }

  function ReadCounted(d: bytes): Option<(seq<Text>, bytes)> {
    if d == [] then None else ReadOptions(d[1..], d[0])
  }

  function ReadBody(d: bytes): Option<(OracleMeta, bytes)> {
    match ReadText(d)
    case None => None
    case Some((subject, rest)) =>
      match ReadCounted(rest)
      case None => None
      case Some((options, left)) => ReadTrailer(subject, options, left)
  }

  /** The meaning of an instruction's data: its discriminant is skipped and bytes after the body are ignored. */
  function Parse(data: bytes): Option<OracleMeta> {
    if data == [] then None
    else
      match ReadBody(data[1..])
      case None => None
      case Some((m, _)) => Some(m)
  }

  // ---- the cursor parser ----

  /** What a cursor at `off` reads: the text there and the offset behind it. */
  function TextAt(d: bytes, off: nat): (r: Option<(Text, nat)>)
    ensures r.Some? ==> off < r.value.1 <= |d|
  {
    if off + 2 > |d| then None
    else
      var end := off + 2 + FromU16Le(d[off], d[off + 1]);
      if end > |d| || !ValidUtf8(d[off + 2..end]) then None else Some((d[off + 2..end], end))
  }

  function OptionsAt(d: bytes, off: nat, count: nat): (r: Option<(seq<Text>, nat)>)
    requires off <= |d|
    ensures r.Some? ==> |r.value.0| == count && r.value.1 <= |d|
    decreases count
  {
    if count == 0 then Some(([], off))
    else
      match TextAt(d, off)
      case None => None
      case Some((o, next)) =>
        match OptionsAt(d, next, count - 1)
        case None => None
        case Some((os, end)) => Some(([o] + os, end))
  }

  /** Reading at an offset is reading what is left there. */
  lemma TextAtReads(d: bytes, off: nat)
    requires off <= |d|
    ensures ReadText(d[off..]) == match TextAt(d, off) case None => None case Some((t, next)) => Some((t, d[next..]))
  {
    if off + 2 <= |d| {
      var rest, len := d[off + 2..], FromU16Le(d[off], d[off + 1]);
      assert d[off..][2..] == rest;
      if len <= |rest| {
        assert rest[..len] == d[off + 2..off + 2 + len] && rest[len..] == d[off + 2 + len..];
      }
    }
  }

  lemma {:induction false} OptionsAtReads(d: bytes, off: nat, count: nat)
    requires off <= |d|
    ensures
      ReadOptions(d[off..], count)
      == match OptionsAt(d, off, count) case None => None case Some((os, end)) => Some((os, d[end..]))
    decreases count
  {
    if count > 0 {
      TextAtReads(d, off);
      if TextAt(d, off).Some? {
        OptionsAtReads(d, TextAt(d, off).value.1, count - 1);
      }
    }
  }

  function CountedAt(d: bytes, off: nat): (r: Option<(seq<Text>, nat)>)
    ensures r.Some? ==> r.value.1 <= |d|
  {
    if off >= |d| then None else OptionsAt(d, off + 1, d[off])
  }

  /** Parse with a cursor: the subject, the counted options, the uri and the hash. */
  function CursorParse(d: bytes): Option<OracleMeta> {
    match TextAt(d, 1)
    case None => None
    case Some((subject, at)) =>
      match CountedAt(d, at)
      case None => None
      case Some((options, next)) => CursorTrailer(d, subject, options, next)
  }

  function CursorTrailer(d: bytes, subject: Text, options: seq<Text>, off: nat): Option<OracleMeta> {
    match TextAt(d, off)
    case None => None
    case Some((uri, end)) =>
      if end + 32 > |d| then None else Some(OracleMeta(subject, options, uri, d[end..end + 32]))
  }

  lemma CursorTrailerReads(d: bytes, subject: Text, options: seq<Text>, off: nat)
    requires off <= |d|
    ensures CursorTrailer(d, subject, options, off)
         == match ReadTrailer(subject, options, d[off..]) case None => None case Some((m, _)) => Some(m)
  {
    TextAtReads(d, off);
    if TextAt(d, off).Some? {
      var end := TextAt(d, off).value.1;
      if end + 32 <= |d| {
        assert d[end..][..32] == d[end..end + 32];
      }
    }
  }

  lemma CountedAtReads(d: bytes, off: nat)
    requires off <= |d|
    ensures
      ReadCounted(d[off..]) == match CountedAt(d, off) case None => None case Some((os, end)) => Some((os, d[end..]))
  {
    if off < |d| {
      assert d[off..][1..] == d[off + 1..] && d[off..][0] == d[off];
      OptionsAtReads(d, off + 1, d[off]);
    }
  }

  lemma CursorBodyReads(d: bytes, off: nat)
    requires off <= |d|
    ensures
      (match ReadBody(d[off..]) case None => None case Some((m, _)) => Some(m))
      == match TextAt(d, off)
         case None => None
         case Some((subject, at)) =>
           match CountedAt(d, at)
           case None => None
           case Some((options, next)) => CursorTrailer(d, subject, options, next)
  {
    TextAtReads(d, off);
    if TextAt(d, off).Some? {
      var (subject, at) := TextAt(d, off).value;
      CountedAtReads(d, at);
      if CountedAt(d, at).Some? {
        var (options, next) := CountedAt(d, at).value;
        CursorTrailerReads(d, subject, options, next);
      }
    }
  }

  /** The cursor reads what the grammar says. */
  lemma CursorParseIsParse(d: bytes)
    ensures CursorParse(d) == Parse(d)
  {
    if d != [] {
      CursorBodyReads(d, 1);
    }
  }

  /** `read_u16` followed by `read_str`. */
  method ReadTextAt(d: bytes, off: nat) returns (text: Option<Text>, next: nat)
    ensures
      match TextAt(d, off)
      case None => text.None?
      case Some((t, end)) => text == Some(t) && next == end
  {
    if off + 2 > |d| {
      return None, off;
    }
    var len := FromU16Le(d[off], d[off + 1]);
    next := off + 2;
    if next + len > |d| {
      return None, off;
    }
    var s := d[next..next + len];
    next := next + len;
    if !ValidUtf8(s) {
      return None, off;
    }
    return Some(s), next;
  }

  /** A partial reading followed by the rest of it. */
  function Prepend(read: seq<Text>, r: Option<(seq<Text>, nat)>): Option<(seq<Text>, nat)> {
    match r
    case None => None
    case Some((os, end)) => Some((read + os, end))
  }

  lemma PrependOne(read: seq<Text>, d: bytes, off: nat, count: nat)
    requires count > 0 && off <= |d| && TextAt(d, off).Some?
    ensures
      var (o, next) := TextAt(d, off).value;
      Prepend(read, OptionsAt(d, off, count)) == Prepend(read + [o], OptionsAt(d, next, count - 1))
  {
    var (o, next) := TextAt(d, off).value;
    var more := OptionsAt(d, next, count - 1);
    if more.Some? {
      Assoc(read, [o], more.value.0);
    }
  }

  /** The loop over the options of `parse_write_oracle_meta`. */
  method ReadOptionsAt(d: bytes, off: nat, count: nat) returns (options: Option<seq<Text>>, next: nat)
    requires off <= |d|
    ensures
      match OptionsAt(d, off, count)
      case None => options.None?
      case Some((os, end)) => options == Some(os) && next == end
  {
    var read: seq<Text> := [];
    next := off;
    var i := 0;
    ghost var whole := OptionsAt(d, off, count);
    if whole.Some? {
      assert read + whole.value.0 == whole.value.0;
    }
    while i < count
      invariant 0 <= i <= count && next <= |d|
      invariant whole == Prepend(read, OptionsAt(d, next, count - i))
    {
      var option, end := ReadTextAt(d, next);
      if option.None? {
        return None, off;
      }
      PrependOne(read, d, next, count - i);
      read := read + [option.value];
      next := end;
      i := i + 1;
    }
    assert read + [] == read;
    return Some(read), next;
  }

  /** `parse_write_oracle_meta`: one offset moved over the data; no input reads out of bounds. */
  method ParseWriteOracleMeta(data: bytes) returns (r: Option<IndexedMeta>)
    ensures r == match Parse(data) case None => None case Some(m) => Some(Indexed(m))
  {
    r := MoveCursor(data);
    CursorParseIsParse(data);
  }

  /** The reads of `parse_write_oracle_meta`, in terms of the cursor. */
  method MoveCursor(data: bytes) returns (r: Option<IndexedMeta>)
    ensures r == match CursorParse(data) case None => None case Some(m) => Some(Indexed(m))
  {
    var off := 1;
    var subject, afterSubject := ReadTextAt(data, off);
    if subject.None? {
      return None;
    }
    off := afterSubject;
    if off >= |data| {
      return None;
    }
    var optionsCount := data[off];
    off := off + 1;
    var options, afterOptions := ReadOptionsAt(data, off, optionsCount);
    if options.None? {
      return None;
    }
    off := afterOptions;
    assert CursorParse(data) == CursorTrailer(data, subject.value, options.value, off);
    var uri, afterUri := ReadTextAt(data, off);
    if uri.None? {
      return None;
    }
    off := afterUri;
    if off + 32 > |data| {
      return None;
    }
    return Some(IndexedMeta(subject.value, options.value, uri.value, Hex(data[off..off + 32])));
  }

  // ---- decoding what was encoded ----

  lemma TextRoundTrip(t: Text, tail: bytes)
    requires |t| < 0x1_0000
    ensures ReadText(EncodeText(t) + tail) == Some((t, tail))
  {
    Assoc(U16Le(|t|), t, tail);
    U16LeRoundTrip(|t|);
    PartsOfConcat(U16Le(|t|), t + tail);
    PartsOfConcat(t, tail);
  }

  lemma {:induction false} OptionsRoundTrip(options: seq<Text>, tail: bytes)
    requires forall o :: o in options ==> |o| < 0x1_0000
    ensures ReadOptions(EncodeOptions(options) + tail, |options|) == Some((options, tail))
  {
    if options == [] {
      assert [] + tail == tail;
    } else {
      var more := EncodeOptions(options[1..]);
      Assoc(EncodeText(options[0]), more, tail);
      TextRoundTrip(options[0], more + tail);
      OptionsRoundTrip(options[1..], tail);
      HeadTail(options);
    }
  }

  lemma CountedRoundTrip(options: seq<Text>, tail: bytes)
    requires |options| < 256 && forall o :: o in options ==> |o| < 0x1_0000
    ensures ReadCounted(EncodeCounted(options) + tail) == Some((options, tail))
  {
    OptionsRoundTrip(options, tail);
    CountedParts(|options|, EncodeOptions(options), tail);
  }

  lemma CountedParts(n: nat, body: bytes, tail: bytes)
    requires n < 256
    ensures var d := [n % 256] + body + tail; d != [] && d[0] == n && d[1..] == body + tail
  {
  }

  lemma TrailerRoundTrip(m: OracleMeta, tail: bytes)
    requires |m.uri| < 0x1_0000
    ensures ReadTrailer(m.subject, m.options, EncodeTrailer(m) + tail) == Some((m, tail))
  {
    Assoc(EncodeText(m.uri), m.uriHash, tail);
    TextRoundTrip(m.uri, m.uriHash + tail);
    PartsOfConcat(m.uriHash, tail);
  }

  lemma BodyAssoc(m: OracleMeta, tail: bytes)
    ensures EncodeBody(m) + tail == EncodeText(m.subject) + (EncodeCounted(m.options) + (EncodeTrailer(m) + tail))
  {
    Assoc(EncodeText(m.subject), EncodeCounted(m.options) + EncodeTrailer(m), tail);
    Assoc(EncodeCounted(m.options), EncodeTrailer(m), tail);
  }

  lemma BodyRoundTrip(m: OracleMeta, tail: bytes)
    requires Encodable(m)
    ensures ReadBody(EncodeBody(m) + tail) == Some((m, tail))
  {
    BodyAssoc(m, tail);
    TextRoundTrip(m.subject, EncodeCounted(m.options) + (EncodeTrailer(m) + tail));
    CountedRoundTrip(m.options, EncodeTrailer(m) + tail);
    TrailerRoundTrip(m, tail);
  }

  // ---- encoding what was decoded ----

  lemma TextReencode(d: bytes)
    requires ReadText(d).Some?
    ensures var (t, rest) := ReadText(d).value; |t| < 0x1_0000 && EncodeText(t) + rest == d
  {
    var (t, rest) := ReadText(d).value;
    U16LeReads(d[0], d[1]);
    Assoc(U16Le(|t|), t, rest);
    TakeDrop(d[2..], |t|);
    TakeDrop(d, 2);
    assert d[..2] == [d[0], d[1]];
  }

  lemma {:induction false} OptionsReencode(d: bytes, count: nat)
    requires ReadOptions(d, count).Some?
    ensures
      var (os, rest) := ReadOptions(d, count).value;
      (forall o :: o in os ==> |o| < 0x1_0000) && EncodeOptions(os) + rest == d
  {
    if count > 0 {
      TextReencode(d);
      var (o, afterFirst) := ReadText(d).value;
      OptionsReencode(afterFirst, count - 1);
      var (os, rest) := ReadOptions(afterFirst, count - 1).value;
      assert ([o] + os)[1..] == os;
      Assoc(EncodeText(o), EncodeOptions(os), rest);
    }
  }

  lemma CountedReencode(d: bytes)
    requires ReadCounted(d).Some?
    ensures
      var (os, rest) := ReadCounted(d).value;
      |os| < 256 && (forall o :: o in os ==> |o| < 0x1_0000) && EncodeCounted(os) + rest == d
  {
    OptionsReencode(d[1..], d[0]);
    var (os, rest) := ReadOptions(d[1..], d[0]).value;
    CountedJoined(d, EncodeOptions(os), rest);
  }

  lemma CountedJoined(d: bytes, body: bytes, rest: bytes)
    requires d != [] && body + rest == d[1..]
    ensures [d[0] % 256] + body + rest == d
  {
    Assoc([d[0]], body, rest);
    HeadTail(d);
  }

  lemma TrailerReencode(subject: Text, options: seq<Text>, d: bytes)
    requires ReadTrailer(subject, options, d).Some?
    ensures
      var (m, rest) := ReadTrailer(subject, options, d).value;
      && m.subject == subject && m.options == options && |m.uri| < 0x1_0000
      && EncodeTrailer(m) + rest == d
  {
    TextReencode(d);
    var (uri, afterUri) := ReadText(d).value;
    TakeDrop(afterUri, 32);
    Assoc(EncodeText(uri), afterUri[..32], afterUri[32..]);
  }

  lemma BodyReencode(d: bytes)
    requires ReadBody(d).Some?
    ensures var (m, rest) := ReadBody(d).value; Encodable(m) && EncodeBody(m) + rest == d
  {
    TextReencode(d);
    var (subject, afterSubject) := ReadText(d).value;
    CountedReencode(afterSubject);
    var (options, left) := ReadCounted(afterSubject).value;
    TrailerReencode(subject, options, left);
    var (m, rest) := ReadTrailer(subject, options, left).value;
    BodyAssoc(m, rest);
  }

  // ---- the layout, byte by byte ----

  /** A text is its length in two bytes, the low one first, and its bytes. */
  lemma TextLayout(t: Text)
    ensures EncodeText(t) == [|t| % 0x100, |t| / 0x100 % 0x100] + t
  {
  }

  /** The options follow one another in list order. */
  lemma {:induction false} OptionsLayout(before: seq<Text>, o: Text, after: seq<Text>)
    ensures
      EncodeOptions(before + [o] + after) == EncodeOptions(before) + (EncodeText(o) + EncodeOptions(after))
  {
    if before == [] {
      assert before + [o] + after == [o] + after;
      assert ([o] + after)[1..] == after;
      assert [] + (EncodeText(o) + EncodeOptions(after)) == EncodeText(o) + EncodeOptions(after);
    } else {
      OptionsLayout(before[1..], o, after);
      assert (before + [o] + after)[1..] == before[1..] + [o] + after;
      Assoc(EncodeText(before[0]), EncodeOptions(before[1..]), EncodeText(o) + EncodeOptions(after));
    }
  }

  /** Discriminant 23, subject, number of options, options, uri, hash. */
  lemma EncodingLayout(m: OracleMeta)
    ensures
      Encode(m)
      == [23] + (EncodeText(m.subject)
                 + ([|m.options| % 0x100] + EncodeOptions(m.options) + (EncodeText(m.uri) + m.uriHash)))
  {
  }

  // ---- the parser and the encoder are mutual inverses ----

  /** An encoding, with anything after it, parses to the metadata exactly when the encoder truncated no length. */
  lemma ParseEncode(m: OracleMeta, tail: bytes)
    ensures Parse(Encode(m) + tail) == Some(m) <==> Encodable(m)
  {
    assert (Encode(m) + tail)[1..] == EncodeBody(m) + tail;
    if Encodable(m) {
      BodyRoundTrip(m, tail);
    }
    if Parse(Encode(m) + tail) == Some(m) {
      BodyReencode(EncodeBody(m) + tail);
    }
  }

  /** Whatever parses is, after its discriminant, the encoding of the result followed by the ignored bytes. */
  lemma EncodeParse(data: bytes)
    requires Parse(data).Some?
    ensures var m := Parse(data).value; Encodable(m) && [data[0]] + Encode(m)[1..] <= data
  {
    BodyReencode(data[1..]);
    var (m, rest) := ReadBody(data[1..]).value;
    PartsOfConcat([WRITE_ORACLE_META], EncodeBody(m));
    HeadTail(data);
    Assoc([data[0]], EncodeBody(m), rest);
  }

  /** Every strict prefix of an encoding fails to parse: no truncated instruction is taken for a complete one. */
  lemma TruncatedEncodingFails(m: OracleMeta, k: nat)
    requires Encodable(m) && k < |Encode(m)|
    ensures Parse(Encode(m)[..k]).None?
  {
    var data := Encode(m)[..k];
    if Parse(data).Some? {
      var (m', rest) := ReadBody(data[1..]).value;
      var tail := SplitBody(m, k);
      BodyReencode(data[1..]);
      Assoc(EncodeBody(m'), rest, tail);
      BodyReadsOneWay(m, m', rest + tail);
    }
  }

  lemma SplitBody(m: OracleMeta, k: nat) returns (tail: bytes)
    requires 0 < k < |Encode(m)|
    ensures tail != [] && EncodeBody(m) == Encode(m)[..k][1..] + tail
  {
    PartsOfConcat([WRITE_ORACLE_META], EncodeBody(m));
    tail := Encode(m)[k..];
  }

  /** No body is a proper prefix of another. */
  lemma BodyReadsOneWay(m: OracleMeta, m': OracleMeta, rest: bytes)
    requires Encodable(m) && Encodable(m') && EncodeBody(m) == EncodeBody(m') + rest
    ensures m == m' && rest == []
  {
    assert EncodeBody(m) + [] == EncodeBody(m);
    BodyRoundTrip(m, []);
    BodyRoundTrip(m', rest);
  }

  /** The indexed row fixes the whole metadata, hash included. */
  lemma IndexedInjective(m: OracleMeta, m': OracleMeta)
    requires Indexed(m) == Indexed(m')
    ensures m == m'
  {
    HexInjective(m.uriHash, m'.uriHash);
  }
}
