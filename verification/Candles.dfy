/**
  The price series and its OHLC candles (`indexer/src/market/db.rs`, lines 187-260): integer buckets, first and last
  sample by slot, extremes, and the limit to the latest buckets. Prices are reals.
 */
module Candles {
  import opened Arith
  import opened Bytes

  datatype Sample = Sample(ts: int, base: int, quote: int, price: real)

  datatype PriceKey = PriceKey(market: bytes, slot: int)

  /** The samples of one market by slot. */
  type Series = map<int, Sample>

  datatype Candle = Candle(time: int, open: real, high: real, low: real, close: real)

  /** A series keeps its first sample at a slot. */
  function WithSample(s: Series, slot: int, sample: Sample): Series {
    if slot in s then s else s[slot := sample]
  }

  class PriceTable {
    var rows: map<PriceKey, Sample>

    constructor ()
      ensures rows == map[]
    {
      rows := map[];
    }

    /** `insert_price`: the first sample of a market at a slot stays. */
    method InsertPrice(market: bytes, slot: int, sample: Sample)
      modifies this
      ensures
        var key := PriceKey(market, slot);
        rows == if key in old(rows) then old(rows) else old(rows)[key := sample]
      ensures SeriesOf(market) == WithSample(old(SeriesOf(market)), slot, sample)
      ensures forall other :: other != market ==> SeriesOf(other) == old(SeriesOf(other))
    {
      if PriceKey(market, slot) !in rows {
        rows := rows[PriceKey(market, slot) := sample];
      }
    }

    /** `WHERE market = $1`. */
    function SeriesOf(market: bytes): Series
      reads this
    {
      map k: PriceKey | k in rows && k.market == market :: k.slot := rows[k]
    }
  }

  // ---- buckets ----

  /** Postgres integer division truncates toward zero. */
  function TruncDiv(a: int, d: int): int
    requires d > 0
  {
    if a >= 0 then a / d else -((-a) / d)
  }

  /** `(ts / $2) * $2`. */
  function Bucket(ts: int, width: int): int
    requires width > 0
  {
    TruncDiv(ts, width) * width
  }

  /** A bucket starts at a multiple of the width, and truncation puts times on either side of 0 into the bucket 0. */
  lemma BucketIs(ts: int, width: int)
    requires width > 0
    ensures exists q :: Bucket(ts, width) == q * width
    ensures ts >= 0 ==> Bucket(ts, width) <= ts < Bucket(ts, width) + width
    ensures ts < 0 ==> Bucket(ts, width) - width < ts <= Bucket(ts, width)
  {
    if ts >= 0 {
      DivBounds(ts, width);
    } else {
      DivBounds(-ts, width);
      assert TruncDiv(ts, width) * width == -((-ts) / width * width);
    }
  }

  function SlotsIn(s: Series, width: int, bucket: int): set<int>
    requires width > 0
  {
    set k | k in s && Bucket(s[k].ts, width) == bucket
  }

  function Buckets(s: Series, width: int): set<int>
    requires width > 0
  {
    set k | k in s :: Bucket(s[k].ts, width)
  }

  /** One row of the grouped query: first and last price by slot, and the extremes. */
  ghost predicate IsCandle(s: Series, width: int, c: Candle)
    requires width > 0
  {
    var slots := SlotsIn(s, width, c.time);
    && IsOpen(s, slots, c.open) && IsClose(s, slots, c.close)
    && IsHigh(s, slots, c.high) && IsLow(s, slots, c.low)
  }

  ghost predicate IsOpen(s: Series, slots: set<int>, price: real)
    requires slots <= s.Keys
  {
    exists k :: k in slots && s[k].price == price && forall j :: j in slots ==> k <= j
  }

  ghost predicate IsClose(s: Series, slots: set<int>, price: real)
    requires slots <= s.Keys
  {
    exists k :: k in slots && s[k].price == price && forall j :: j in slots ==> j <= k
  }

  ghost predicate IsHigh(s: Series, slots: set<int>, price: real)
    requires slots <= s.Keys
  {
    (exists k :: k in slots && s[k].price == price) && forall j :: j in slots ==> s[j].price <= price
  }

  ghost predicate IsLow(s: Series, slots: set<int>, price: real)
    requires slots <= s.Keys
  {
    (exists k :: k in slots && s[k].price == price) && forall j :: j in slots ==> price <= s[j].price
  }

  /** The grouped rows are exactly one for each non-empty bucket, with `low <= open, close <= high`. */
  lemma CandleExists(s: Series, width: int, bucket: int) returns (c: Candle)
    requires width > 0 && bucket in Buckets(s, width)
    ensures c.time == bucket && IsCandle(s, width, c)
    ensures forall d :: IsCandle(s, width, d) && d.time == bucket ==> d == c
    ensures c.low <= c.open <= c.high && c.low <= c.close <= c.high
  {
    var slots := SlotsIn(s, width, bucket);
    var k :| k in s && Bucket(s[k].ts, width) == bucket;
    assert k in slots;
    var first := Least(slots);
    var last := Greatest(slots);
    var high, low := Extremes(s, slots);
    c := Candle(bucket, s[first].price, high, low, s[last].price);
  }

  lemma Member<T>(xs: set<T>) returns (x: T)
    requires |xs| > 0
    ensures x in xs
  {
    assert xs != {};
    x :| x in xs;
  }

  lemma {:induction false} Least(xs: set<int>) returns (m: int)
    requires |xs| > 0
    ensures m in xs && forall x :: x in xs ==> m <= x
  {
    m := Member(xs);
    var rest := xs - {m};
    if |rest| > 0 {
      var n := Least(rest);
      if n < m { m := n; }
    }
    assert forall x :: x in xs ==> x in rest || x == m || m <= x;
  }

  lemma {:induction false} Greatest(xs: set<int>) returns (m: int)
    requires |xs| > 0
    ensures m in xs && forall x :: x in xs ==> x <= m
  {
    m := Member(xs);
    var rest := xs - {m};
    if |rest| > 0 {
      var n := Greatest(rest);
      if n > m { m := n; }
    }
    assert forall x :: x in xs ==> x in rest || x == m || x <= m;
  }

  lemma {:induction false} Extremes(s: Series, slots: set<int>) returns (high: real, low: real)
    requires |slots| > 0 && slots <= s.Keys
    ensures IsHigh(s, slots, high) && IsLow(s, slots, low)
    decreases slots
  {
    var k := Member(slots);
    var rest := slots - {k};
    high, low := s[k].price, s[k].price;
    if |rest| > 0 {
      var h, l := Extremes(s, rest);
      high, low := if h > high then h else high, if l < low then l else low;
    }
    forall j | j in slots ensures low <= s[j].price <= high {
      assert j in rest || j == k;
    }
  }

  // ---- the limit ----

  function Times(cs: seq<Candle>): (ts: seq<int>)
    ensures |ts| == |cs|
  {
    seq(|cs|, i requires 0 <= i < |cs| => cs[i].time)
  }

  ghost predicate Increasing(ts: seq<int>) {
    forall i, j :: 0 <= i < j < |ts| ==> ts[i] < ts[j]
  }

  /** Some of these buckets, with no bucket left out that is later than a listed one. */
  ghost predicate AtLatest(buckets: set<int>, ts: seq<int>) {
    && (forall t :: t in ts ==> t in buckets)
    && (forall b, t :: b in buckets && t in ts && b > t ==> b in ts)
  }

  /** The result of `get_candles`: the latest `limit` non-empty buckets, in ascending order. */
  ghost predicate IsAnswer(s: Series, width: int, limit: nat, cs: seq<Candle>)
    requires width > 0
  {
    && Increasing(Times(cs)) && |cs| == Min(limit, |Buckets(s, width)|)
    && AtLatest(Buckets(s, width), Times(cs))
    && forall i :: 0 <= i < |cs| ==> IsCandle(s, width, cs[i])
  }

  /** `ORDER BY bucket_ts DESC LIMIT n`, then ascending: built from the latest bucket backwards. */
  lemma {:induction false} AnswerExists(s: Series, width: int, limit: nat, left: set<int>) returns (cs: seq<Candle>)
    requires width > 0 && left <= Buckets(s, width)
    ensures Increasing(Times(cs)) && |cs| == Min(limit, |left|) && AtLatest(left, Times(cs))
    ensures forall i :: 0 <= i < |cs| ==> IsCandle(s, width, cs[i])
    decreases limit
  {
    if limit == 0 || left == {} {
      cs := [];
    } else {
      assert |left| > 0;
      var b := Greatest(left);
      var c := CandleExists(s, width, b);
      var earlier := AnswerExists(s, width, limit - 1, left - {b});
      cs := earlier + [c];
      assert |left - {b}| == |left| - 1;
      LatestExtends(left, b, Times(earlier));
      assert Times(cs) == Times(earlier) + [b];
    }
  }

  lemma LatestExtends(left: set<int>, b: int, ts: seq<int>)
    requires b in left && (forall x :: x in left ==> x <= b)
    requires Increasing(ts) && AtLatest(left - {b}, ts)
    ensures Increasing(ts + [b]) && AtLatest(left, ts + [b])
  {
    forall i | 0 <= i < |ts| ensures ts[i] < b {
      assert ts[i] in ts;
    }
  }

  /** Every query has exactly one answer. */
  lemma AnswerExistsAndIsUnique(s: Series, width: int, limit: nat) returns (cs: seq<Candle>)
    requires width > 0
    ensures IsAnswer(s, width, limit, cs)
    ensures forall ds :: IsAnswer(s, width, limit, ds) ==> ds == cs
  {
    cs := AnswerExists(s, width, limit, Buckets(s, width));
    forall ds | IsAnswer(s, width, limit, ds) ensures ds == cs {
      LatestUnique(Buckets(s, width), Times(cs), Times(ds));
      forall i | 0 <= i < |cs| ensures ds[i] == cs[i] {
        assert Times(cs)[i] == Times(ds)[i];
        CandleUnique(s, width, cs[i], ds[i]);
      }
    }
  }

  lemma CandleUnique(s: Series, width: int, c: Candle, d: Candle)
    requires width > 0 && IsCandle(s, width, c) && IsCandle(s, width, d) && c.time == d.time
    ensures c == d
  {
  }

  /** The last of the latest buckets is the latest of all. */
  lemma LastIsLatest(buckets: set<int>, ts: seq<int>)
    requires ts != [] && Increasing(ts) && AtLatest(buckets, ts)
    ensures ts[|ts| - 1] in buckets && forall b :: b in buckets ==> b <= ts[|ts| - 1]
  {
    var last := ts[|ts| - 1];
    assert last in ts;
    forall b | b in ts ensures b <= last {
      var i :| 0 <= i < |ts| && ts[i] == b;
    }
  }

  /** Two increasing lists of the same length of the latest buckets are the same list. */
  lemma {:induction false} LatestUnique(buckets: set<int>, ts: seq<int>, us: seq<int>)
    requires Increasing(ts) && Increasing(us) && |ts| == |us| && AtLatest(buckets, ts) && AtLatest(buckets, us)
    ensures ts == us
  {
    if ts != [] {
      var n := |ts| - 1;
      LastIsLatest(buckets, ts);
      LastIsLatest(buckets, us);
      LatestShrinks(buckets, ts);
      LatestShrinks(buckets, us);
      LatestUnique(buckets - {ts[n]}, ts[..n], us[..n]);
      assert ts == ts[..n] + [ts[n]] && us == us[..n] + [us[n]];
    }
  }

  lemma LatestShrinks(buckets: set<int>, ts: seq<int>)
    requires ts != [] && Increasing(ts) && AtLatest(buckets, ts)
    ensures var n := |ts| - 1; Increasing(ts[..n]) && AtLatest(buckets - {ts[n]}, ts[..n])
  {
    var n := |ts| - 1;
    assert ts == ts[..n] + [ts[n]];
    forall t | t in ts[..n] ensures t in ts && t != ts[n] {
      var i :| 0 <= i < n && ts[i] == t;
    }
  }

  // ---- coarsening ----

  lemma TruncDivDiv(a: int, w: int, k: int)
    requires w > 0 && k > 0
    ensures k * w > 0 && TruncDiv(TruncDiv(a, w), k) == TruncDiv(a, k * w)
  {
    var n: nat := if a >= 0 then a else -a;
    DivDiv(n, w, k);
    DivAtLeast(n, w, 0);
    assert w * k == k * w;
  }

  lemma CancelWidth(q: int, w: int, k: int)
    requires w > 0 && k > 0
    ensures k * w > 0 && TruncDiv(q * w, k * w) == TruncDiv(q, k)
  {
    MulMono(1, w, k);
    var n: nat := if q >= 0 then q else -q;
    var d := n / k;
    DivBounds(n, k);
    assert d * (k * w) <= n * w < (d + 1) * (k * w) by {
      MulMono(d * k, n, w);
      MulAssoc(d, k, w);
      MulMono(n + 1, d * k + k, w);
      MulAdd(n, 1, w);
      MulAdd(d, 1, k);
      MulAssoc(d + 1, k, w);
    }
    FloorIs(n * w, k * w, d);
    if q < 0 {
      MulMono(q, -1, w);
      assert -(q * w) == n * w;
    } else {
      MulMono(0, q, w);
    }
  }

  /** The coarse bucket of a fine bucket's start is the coarse bucket of its samples. */
  lemma BucketOfBucket(ts: int, w: int, k: int)
    requires w > 0 && k > 0
    ensures k * w > 0 && Bucket(Bucket(ts, w), k * w) == Bucket(ts, k * w)
  {
    CancelWidth(TruncDiv(ts, w), w, k);
    TruncDivDiv(ts, w, k);
  }

  lemma BucketMonotone(t1: int, t2: int, w: int)
    requires w > 0 && t1 <= t2
    ensures Bucket(t1, w) <= Bucket(t2, w)
  {
    if t1 >= 0 {
      DivMono(t1, t2, w);
    } else if t2 < 0 {
      DivMono(-t2, -t1, w);
    } else {
      DivAtLeast(-t1, w, 0);
      DivAtLeast(t2, w, 0);
    }
    MulMono(TruncDiv(t1, w), TruncDiv(t2, w), w);
  }

  ghost predicate Ascending(fs: seq<Candle>) {
    forall i, j :: 0 <= i < j < |fs| ==> fs[i].time < fs[j].time
  }

  /** The candles of width `w` that fall into one bucket of width `k * w`, all of them, in ascending order. */
  ghost predicate FineCandlesOf(s: Series, w: int, k: int, bucket: int, fs: seq<Candle>)
    requires w > 0 && k * w > 0
  {
    && Ascending(fs)
    && (forall i :: 0 <= i < |fs| ==> IsCandle(s, w, fs[i]) && Bucket(fs[i].time, k * w) == bucket)
    && (forall b :: b in Buckets(s, w) && Bucket(b, k * w) == bucket ==> exists i :: 0 <= i < |fs| && fs[i].time == b)
  }

  function MergedHigh(fs: seq<Candle>): real
    requires fs != []
  {
    if |fs| == 1 then fs[0].high
    else var h := MergedHigh(fs[1..]); if fs[0].high >= h then fs[0].high else h
  }

  function MergedLow(fs: seq<Candle>): real
    requires fs != []
  {
    if |fs| == 1 then fs[0].low
    else var l := MergedLow(fs[1..]); if fs[0].low <= l then fs[0].low else l
  }

  /** Merging candles: the open of the first, the close of the last, the extremes of all. */
  function Merge(bucket: int, fs: seq<Candle>): Candle
    requires fs != []
  {
    Candle(bucket, fs[0].open, MergedHigh(fs), MergedLow(fs), fs[|fs| - 1].close)
  }

  lemma {:induction false} MergedExtremes(fs: seq<Candle>)
    requires fs != []
    ensures exists i :: 0 <= i < |fs| && fs[i].high == MergedHigh(fs)
    ensures exists i :: 0 <= i < |fs| && fs[i].low == MergedLow(fs)
    ensures forall i :: 0 <= i < |fs| ==> MergedLow(fs) <= fs[i].low && fs[i].high <= MergedHigh(fs)
  {
    if |fs| == 1 {
      assert fs[0].high == MergedHigh(fs) && fs[0].low == MergedLow(fs);
    } else {
      MergedExtremes(fs[1..]);
      var h :| 0 <= h < |fs[1..]| && fs[1..][h].high == MergedHigh(fs[1..]);
      var l :| 0 <= l < |fs[1..]| && fs[1..][l].low == MergedLow(fs[1..]);
      assert fs[0].high == MergedHigh(fs) || fs[h + 1].high == MergedHigh(fs);
      assert fs[0].low == MergedLow(fs) || fs[l + 1].low == MergedLow(fs);
      forall i | 0 <= i < |fs| ensures fs[i].high <= MergedHigh(fs) && MergedLow(fs) <= fs[i].low {
        if i > 0 {
          assert fs[1..][i - 1] == fs[i];
        }
      }
    }
  }

  /** A slot of the coarse bucket lies in one of its fine candles, and the other way round. */
  lemma SlotInFineCandle(s: Series, w: int, k: int, bucket: int, fs: seq<Candle>, slot: int) returns (i: nat)
    requires w > 0 && k > 0 && k * w > 0 && FineCandlesOf(s, w, k, bucket, fs)
    requires slot in SlotsIn(s, k * w, bucket)
    ensures i < |fs| && slot in SlotsIn(s, w, fs[i].time)
  {
    BucketOfBucket(s[slot].ts, w, k);
    var b := Bucket(s[slot].ts, w);
    assert b in Buckets(s, w);
    i :| 0 <= i < |fs| && fs[i].time == b;
  }

  lemma FineSlotIsCoarse(s: Series, w: int, k: int, bucket: int, fs: seq<Candle>, i: nat)
    requires w > 0 && k > 0 && k * w > 0 && FineCandlesOf(s, w, k, bucket, fs) && i < |fs|
    ensures SlotsIn(s, w, fs[i].time) <= SlotsIn(s, k * w, bucket)
  {
    forall slot | slot in SlotsIn(s, w, fs[i].time) ensures slot in SlotsIn(s, k * w, bucket) {
      BucketOfBucket(s[slot].ts, w, k);
    }
  }

  lemma FineWithinCoarse(s: Series, w: int, k: int, c: Candle, fs: seq<Candle>, i: nat)
    requires w > 0 && k > 0 && k * w > 0 && i < |fs|
    requires IsCandle(s, k * w, c) && FineCandlesOf(s, w, k, c.time, fs)
    ensures c.low <= fs[i].low && fs[i].high <= c.high
  {
    FineSlotIsCoarse(s, w, k, c.time, fs, i);
    var hi :| hi in SlotsIn(s, w, fs[i].time) && s[hi].price == fs[i].high;
    var lo :| lo in SlotsIn(s, w, fs[i].time) && s[lo].price == fs[i].low;
    assert hi in SlotsIn(s, k * w, c.time) && lo in SlotsIn(s, k * w, c.time);
  }

  lemma HighIsReached(s: Series, w: int, k: int, c: Candle, fs: seq<Candle>) returns (i: nat)
    requires w > 0 && k > 0 && k * w > 0
    requires IsCandle(s, k * w, c) && FineCandlesOf(s, w, k, c.time, fs)
    ensures i < |fs| && c.high <= fs[i].high
  {
    var hi :| hi in SlotsIn(s, k * w, c.time) && s[hi].price == c.high;
    i := SlotInFineCandle(s, w, k, c.time, fs, hi);
  }

  lemma LowIsReached(s: Series, w: int, k: int, c: Candle, fs: seq<Candle>) returns (i: nat)
    requires w > 0 && k > 0 && k * w > 0
    requires IsCandle(s, k * w, c) && FineCandlesOf(s, w, k, c.time, fs)
    ensures i < |fs| && fs[i].low <= c.low
  {
    var lo :| lo in SlotsIn(s, k * w, c.time) && s[lo].price == c.low;
    i := SlotInFineCandle(s, w, k, c.time, fs, lo);
  }

  /** For every series, merging the fine candles of a bucket gives the high and the low of its samples. */
  lemma MergeKeepsExtremes(s: Series, w: int, k: int, c: Candle, fs: seq<Candle>)
    requires w > 0 && k > 0 && k * w > 0
    requires IsCandle(s, k * w, c) && FineCandlesOf(s, w, k, c.time, fs)
    ensures fs != [] && MergedHigh(fs) == c.high && MergedLow(fs) == c.low
  {
    var top := HighIsReached(s, w, k, c, fs);
    var bottom := LowIsReached(s, w, k, c, fs);
    forall i | 0 <= i < |fs| ensures c.low <= fs[i].low && fs[i].high <= c.high {
      FineWithinCoarse(s, w, k, c, fs, i);
    }
    MergedBetween(fs, c.high, c.low, top, bottom);
  }

  lemma MergedBetween(fs: seq<Candle>, high: real, low: real, top: nat, bottom: nat)
    requires top < |fs| && bottom < |fs| && high <= fs[top].high && fs[bottom].low <= low
    requires forall i :: 0 <= i < |fs| ==> low <= fs[i].low && fs[i].high <= high
    ensures MergedHigh(fs) == high && MergedLow(fs) == low
  {
    MergedExtremes(fs);
  }

  ghost predicate IsLeast(slots: set<int>, i: int) {
    i in slots && forall x :: x in slots ==> i <= x
  }

  ghost predicate IsGreatest(slots: set<int>, i: int) {
    i in slots && forall x :: x in slots ==> x <= i
  }

  /** The bucket's least slot lies in its earliest fine bucket. */
  ghost predicate OpenAligned(s: Series, w: int, slots: set<int>)
    requires w > 0 && slots <= s.Keys
  {
    forall i, j :: IsLeast(slots, i) && j in slots ==> Bucket(s[i].ts, w) <= Bucket(s[j].ts, w)
  }

  /** The bucket's greatest slot lies in its latest fine bucket. */
  ghost predicate CloseAligned(s: Series, w: int, slots: set<int>)
    requires w > 0 && slots <= s.Keys
  {
    forall i, j :: IsGreatest(slots, i) && j in slots ==> Bucket(s[j].ts, w) <= Bucket(s[i].ts, w)
  }

  ghost predicate Aligned(s: Series, w: int, slots: set<int>)
    requires w > 0 && slots <= s.Keys
  {
    OpenAligned(s, w, slots) && CloseAligned(s, w, slots)
  }

  lemma MergeKeepsOpen(s: Series, w: int, k: int, c: Candle, fs: seq<Candle>)
    requires w > 0 && k > 0 && k * w > 0 && OpenAligned(s, w, SlotsIn(s, k * w, c.time))
    requires IsCandle(s, k * w, c) && FineCandlesOf(s, w, k, c.time, fs) && fs != []
    ensures fs[0].open == c.open
  {
    var coarse := SlotsIn(s, k * w, c.time);
    var first :| first in coarse && s[first].price == c.open && forall j :: j in coarse ==> first <= j;
    var i := SlotInFineCandle(s, w, k, c.time, fs, first);
    FineSlotIsCoarse(s, w, k, c.time, fs, 0);
    var head :| head in SlotsIn(s, w, fs[0].time) && s[head].price == fs[0].open
                && forall j :: j in SlotsIn(s, w, fs[0].time) ==> head <= j;
    assert head in coarse && IsLeast(coarse, first);
    assert Bucket(s[first].ts, w) <= Bucket(s[head].ts, w);
    assert i == 0;
    assert head == first;
  }

  lemma MergeKeepsClose(s: Series, w: int, k: int, c: Candle, fs: seq<Candle>)
    requires w > 0 && k > 0 && k * w > 0 && CloseAligned(s, w, SlotsIn(s, k * w, c.time))
    requires IsCandle(s, k * w, c) && FineCandlesOf(s, w, k, c.time, fs) && fs != []
    ensures fs[|fs| - 1].close == c.close
  {
    var coarse, n := SlotsIn(s, k * w, c.time), |fs| - 1;
    var last :| last in coarse && s[last].price == c.close && forall j :: j in coarse ==> j <= last;
    var i := SlotInFineCandle(s, w, k, c.time, fs, last);
    FineSlotIsCoarse(s, w, k, c.time, fs, n);
    var tail :| tail in SlotsIn(s, w, fs[n].time) && s[tail].price == fs[n].close
                && forall j :: j in SlotsIn(s, w, fs[n].time) ==> j <= tail;
    assert tail in coarse && IsGreatest(coarse, last);
    assert Bucket(s[tail].ts, w) <= Bucket(s[last].ts, w);
    assert i == n;
    assert tail == last;
  }

  /** In an aligned bucket, merging `w`-second candles gives exactly the `k * w`-second candle. */
  lemma MergeIsCoarseCandle(s: Series, w: int, k: int, c: Candle, fs: seq<Candle>)
    requires w > 0 && k > 0 && k * w > 0 && Aligned(s, w, SlotsIn(s, k * w, c.time))
    requires IsCandle(s, k * w, c) && FineCandlesOf(s, w, k, c.time, fs)
    ensures fs != [] && Merge(c.time, fs) == c
  {
    MergeKeepsExtremes(s, w, k, c, fs);
    MergeKeepsOpen(s, w, k, c, fs);
    MergeKeepsClose(s, w, k, c, fs);
  }

  // ---- coarsening a whole answer ----

  /** The candles of an answer that fall into one coarse bucket. */
  function InBucket(fs: seq<Candle>, width: int, bucket: int): seq<Candle>
    requires width > 0
  {
    if fs == [] then []
    else
      var n := |fs| - 1;
      InBucket(fs[..n], width, bucket) + if Bucket(fs[n].time, width) == bucket then [fs[n]] else []
  }

  /** Grouping an answer by coarse buckets and merging each group. */
  ghost predicate IsCoarsening(fs: seq<Candle>, width: int, cs: seq<Candle>)
    requires width > 0
  {
    && Ascending(cs)
    && (forall i :: 0 <= i < |cs| ==> IsMerged(fs, width, cs[i]))
    && (forall i :: 0 <= i < |fs| ==> Listed(cs, Bucket(fs[i].time, width)))
  }

  ghost predicate IsMerged(fs: seq<Candle>, width: int, c: Candle)
    requires width > 0
  {
    var group := InBucket(fs, width, c.time);
    group != [] && c == Merge(c.time, group)
  }

  ghost predicate Listed(cs: seq<Candle>, time: int) {
    exists i :: 0 <= i < |cs| && cs[i].time == time
  }

  /** What `get_candles` returns when the limit does not cut anything. */
  ghost predicate WholeAnswer(s: Series, width: int, cs: seq<Candle>)
    requires width > 0
  {
    IsAnswer(s, width, |Buckets(s, width)|, cs)
  }

  lemma {:induction false} ListsAll(buckets: set<int>, ts: seq<int>)
    requires Increasing(ts) && AtLatest(buckets, ts) && |ts| == |buckets|
    ensures forall b :: b in buckets ==> b in ts
  {
    if ts == [] {
      assert buckets == {};
    } else {
      var n := |ts| - 1;
      LatestShrinks(buckets, ts);
      LastIsLatest(buckets, ts);
      assert |buckets - {ts[n]}| == |buckets| - 1;
      ListsAll(buckets - {ts[n]}, ts[..n]);
      assert ts == ts[..n] + [ts[n]];
    }
  }

  lemma WholeAnswerLists(s: Series, width: int, cs: seq<Candle>)
    requires width > 0 && WholeAnswer(s, width, cs)
    ensures Ascending(cs)
    ensures forall b :: b in Buckets(s, width) ==> Listed(cs, b)
  {
    var ts := Times(cs);
    ListsAll(Buckets(s, width), ts);
    forall i, j | 0 <= i < j < |cs| ensures cs[i].time < cs[j].time {
      assert ts[i] < ts[j];
    }
    forall b | b in Buckets(s, width) ensures Listed(cs, b) {
      var i :| 0 <= i < |ts| && ts[i] == b;
      assert cs[i].time == b;
    }
  }

  lemma {:induction false} InBucketMembers(fs: seq<Candle>, width: int, bucket: int)
    requires width > 0 && Ascending(fs)
    ensures forall f :: f in InBucket(fs, width, bucket) <==> f in fs && Bucket(f.time, width) == bucket
    ensures Ascending(InBucket(fs, width, bucket))
  {
    if fs != [] {
      var n := |fs| - 1;
      var earlier := InBucket(fs[..n], width, bucket);
      InBucketMembers(fs[..n], width, bucket);
      assert fs == fs[..n] + [fs[n]];
      forall i | 0 <= i < |earlier| ensures earlier[i].time < fs[n].time {
        assert earlier[i] in fs[..n];
      }
    }
  }

  lemma GroupIsFineCandles(s: Series, w: int, k: int, fs: seq<Candle>, bucket: int)
    requires w > 0 && k > 0 && k * w > 0 && WholeAnswer(s, w, fs)
    ensures FineCandlesOf(s, w, k, bucket, InBucket(fs, k * w, bucket))
  {
    var group := InBucket(fs, k * w, bucket);
    WholeAnswerLists(s, w, fs);
    InBucketMembers(fs, k * w, bucket);
    forall i | 0 <= i < |group| ensures IsCandle(s, w, group[i]) && Bucket(group[i].time, k * w) == bucket {
      assert group[i] in fs;
    }
    forall b | b in Buckets(s, w) && Bucket(b, k * w) == bucket
      ensures exists i :: 0 <= i < |group| && group[i].time == b
    {
      var i :| 0 <= i < |fs| && fs[i].time == b;
      assert fs[i] in group;
    }
  }

  lemma CoarseBucketOfFine(s: Series, w: int, k: int, fs: seq<Candle>, i: nat)
    requires w > 0 && k > 0 && k * w > 0 && WholeAnswer(s, w, fs) && i < |fs|
    ensures Bucket(fs[i].time, k * w) in Buckets(s, k * w)
  {
    assert fs[i].time == Times(fs)[i] && Times(fs)[i] in Buckets(s, w);
    var slot :| slot in s && Bucket(s[slot].ts, w) == fs[i].time;
    BucketOfBucket(s[slot].ts, w, k);
  }

  ghost predicate AllAligned(s: Series, w: int, k: int)
    requires w > 0 && k * w > 0
  {
    forall b :: b in Buckets(s, k * w) ==> Aligned(s, w, SlotsIn(s, k * w, b))
  }

  /** Grouping and merging the whole `w`-second answer gives the whole `k * w`-second one, where buckets are aligned. */
  lemma AnswersCoarsen(s: Series, w: int, k: int, fs: seq<Candle>, cs: seq<Candle>)
    requires w > 0 && k > 0 && k * w > 0 && AllAligned(s, w, k)
    requires WholeAnswer(s, w, fs) && WholeAnswer(s, k * w, cs)
    ensures IsCoarsening(fs, k * w, cs)
  {
    WholeAnswerLists(s, k * w, cs);
    forall i | 0 <= i < |cs| ensures IsMerged(fs, k * w, cs[i]) {
      assert cs[i].time == Times(cs)[i] && Times(cs)[i] in Buckets(s, k * w);
      GroupIsFineCandles(s, w, k, fs, cs[i].time);
      MergeIsCoarseCandle(s, w, k, cs[i], InBucket(fs, k * w, cs[i].time));
    }
    forall i | 0 <= i < |fs| ensures Listed(cs, Bucket(fs[i].time, k * w)) {
      CoarseBucketOfFine(s, w, k, fs, i);
    }
  }

  /** The same slots and timestamps, at any prices. */
  ghost predicate Repriced(s: Series, s': Series) {
    s'.Keys == s.Keys && forall k :: k in s ==> s'[k].ts == s[k].ts
  }

  lemma SlotsAlike(s: Series, s': Series, width: int, bucket: int)
    requires width > 0 && Repriced(s, s')
    ensures SlotsIn(s', width, bucket) == SlotsIn(s, width, bucket)
  {
    forall k ensures k in SlotsIn(s', width, bucket) <==> k in SlotsIn(s, width, bucket) {
      assert k in s' <==> k in s;
    }
  }

  lemma RepricedAlike(s: Series, s': Series, w: int, k: int)
    requires w > 0 && k * w > 0 && Repriced(s, s') && AllAligned(s, w, k)
    ensures AllAligned(s', w, k)
  {
    forall b | b in Buckets(s', k * w) ensures Aligned(s', w, SlotsIn(s', k * w, b)) {
      SlotsAlike(s, s', k * w, b);
      var x :| x in s' && Bucket(s'[x].ts, k * w) == b;
      assert x in s && Bucket(s[x].ts, k * w) == b;
      assert Aligned(s, w, SlotsIn(s, k * w, b));
    }
  }

  /** A series with one price at one slot and another everywhere else. */
  function Marked(s: Series, slot: int): Series {
    map k | k in s :: s[k].(price := if k == slot then 1.0 else 0.0)
  }

  lemma OpenAndCloseOf(s: Series, width: int, c: Candle, i: int)
    requires width > 0 && IsCandle(s, width, c)
    ensures IsLeast(SlotsIn(s, width, c.time), i) ==> c.open == s[i].price
    ensures IsGreatest(SlotsIn(s, width, c.time), i) ==> c.close == s[i].price
  {
  }

  /** A fine candle of another bucket than the marked slot's shows nothing of it. */
  lemma MarkNotSeen(s: Series, w: int, i: int, f: Candle)
    requires w > 0 && i in s && IsCandle(Marked(s, i), w, f) && f.time != Bucket(s[i].ts, w)
    ensures f.open == 0.0 && f.close == 0.0
  {
    var t := Marked(s, i);
    var head :| head in SlotsIn(t, w, f.time) && t[head].price == f.open;
    var tail :| tail in SlotsIn(t, w, f.time) && t[tail].price == f.close;
    assert head != i && tail != i;
  }

  /** The marked slot's coarse candle in an answer, and the fine candles it is merged from. */
  lemma MarkedGroup(s: Series, w: int, k: int, bucket: int, i: int, j: int, fs: seq<Candle>, cs: seq<Candle>)
    returns (x: nat, y: nat)
    requires w > 0 && k > 0 && k * w > 0
    requires i in SlotsIn(s, k * w, bucket) && j in SlotsIn(s, k * w, bucket)
    requires WholeAnswer(Marked(s, i), w, fs) && WholeAnswer(Marked(s, i), k * w, cs)
    ensures x < |cs| && cs[x].time == bucket && IsCandle(Marked(s, i), k * w, cs[x])
    ensures SlotsIn(Marked(s, i), k * w, bucket) == SlotsIn(s, k * w, bucket)
    ensures
      var group := InBucket(fs, k * w, bucket);
      y < |group| && group[y].time == Bucket(s[j].ts, w) && Ascending(group)
      && forall z :: 0 <= z < |group| ==> IsCandle(Marked(s, i), w, group[z])
  {
    var t := Marked(s, i);
    SlotsAlike(s, t, k * w, bucket);
    assert bucket == Bucket(t[i].ts, k * w) && bucket in Buckets(t, k * w);
    WholeAnswerLists(t, k * w, cs);
    x :| 0 <= x < |cs| && cs[x].time == bucket;
    GroupIsFineCandles(t, w, k, fs, bucket);
    y := SlotInFineCandle(t, w, k, bucket, InBucket(fs, k * w, bucket), j);
  }

  /** Where the least slot is not in the earliest fine bucket, marking it shows in the coarse open only. */
  lemma MisalignedOpenShows(s: Series, w: int, k: int, bucket: int, i: int, j: int, fs: seq<Candle>, cs: seq<Candle>)
    requires w > 0 && k > 0 && k * w > 0
    requires IsLeast(SlotsIn(s, k * w, bucket), i) && j in SlotsIn(s, k * w, bucket)
    requires Bucket(s[j].ts, w) < Bucket(s[i].ts, w)
    requires WholeAnswer(Marked(s, i), w, fs) && WholeAnswer(Marked(s, i), k * w, cs)
    ensures !IsCoarsening(fs, k * w, cs)
  {
    var x, y := MarkedGroup(s, w, k, bucket, i, j, fs, cs);
    var group := InBucket(fs, k * w, bucket);
    OpenAndCloseOf(Marked(s, i), k * w, cs[x], i);
    assert group[0].time <= group[y].time;
    MarkNotSeen(s, w, i, group[0]);
    assert !IsMerged(fs, k * w, cs[x]);
  }

  lemma MisalignedCloseShows(s: Series, w: int, k: int, bucket: int, i: int, j: int, fs: seq<Candle>, cs: seq<Candle>)
    requires w > 0 && k > 0 && k * w > 0
    requires IsGreatest(SlotsIn(s, k * w, bucket), i) && j in SlotsIn(s, k * w, bucket)
    requires Bucket(s[i].ts, w) < Bucket(s[j].ts, w)
    requires WholeAnswer(Marked(s, i), w, fs) && WholeAnswer(Marked(s, i), k * w, cs)
    ensures !IsCoarsening(fs, k * w, cs)
  {
    var x, y := MarkedGroup(s, w, k, bucket, i, j, fs, cs);
    var group := InBucket(fs, k * w, bucket);
    OpenAndCloseOf(Marked(s, i), k * w, cs[x], i);
    assert group[y].time <= group[|group| - 1].time;
    MarkNotSeen(s, w, i, group[|group| - 1]);
    assert !IsMerged(fs, k * w, cs[x]);
  }

  /** Whatever the prices, the whole answers coarsen into each other. */
  ghost predicate AlwaysCoarsens(s: Series, w: int, k: int)
    requires w > 0 && k * w > 0
  {
    forall s', fs, cs :: Repriced(s, s') && WholeAnswer(s', w, fs) && WholeAnswer(s', k * w, cs) ==>
      IsCoarsening(fs, k * w, cs)
  }

  /**
    Coarsening holds for all prices of a series if and only if in every coarse bucket the least slot lies in the
    earliest fine bucket and the greatest slot in the latest.
   */
  lemma AnswersCoarsenIff(s: Series, w: int, k: int)
    requires w > 0 && k > 0 && k * w > 0
    ensures AlwaysCoarsens(s, w, k) <==> AllAligned(s, w, k)
  {
    if AllAligned(s, w, k) {
      forall s', fs, cs | Repriced(s, s') && WholeAnswer(s', w, fs) && WholeAnswer(s', k * w, cs)
        ensures IsCoarsening(fs, k * w, cs)
      {
        RepricedAlike(s, s', w, k);
        AnswersCoarsen(s', w, k, fs, cs);
      }
    }
    if AlwaysCoarsens(s, w, k) {
      forall b, i, j | b in Buckets(s, k * w) && i in SlotsIn(s, k * w, b) && j in SlotsIn(s, k * w, b)
        ensures IsLeast(SlotsIn(s, k * w, b), i) ==> Bucket(s[i].ts, w) <= Bucket(s[j].ts, w)
        ensures IsGreatest(SlotsIn(s, k * w, b), i) ==> Bucket(s[j].ts, w) <= Bucket(s[i].ts, w)
      {
        ExtremeIsAligned(s, w, k, b, i, j);
      }
    }
  }

  /** The answers for the series with one slot marked. */
  lemma MarkedCoarsens(s: Series, w: int, k: int, i: int) returns (fs: seq<Candle>, cs: seq<Candle>)
    requires w > 0 && k > 0 && k * w > 0 && AlwaysCoarsens(s, w, k)
    ensures WholeAnswer(Marked(s, i), w, fs) && WholeAnswer(Marked(s, i), k * w, cs) && IsCoarsening(fs, k * w, cs)
  {
    var t := Marked(s, i);
    fs := WholeAnswerExists(t, w);
    cs := WholeAnswerExists(t, k * w);
    assert Repriced(s, t);
  }

  lemma WholeAnswerExists(s: Series, width: int) returns (cs: seq<Candle>)
    requires width > 0
    ensures WholeAnswer(s, width, cs)
  {
    cs := AnswerExistsAndIsUnique(s, width, |Buckets(s, width)|);
  }

  lemma ExtremeIsAligned(s: Series, w: int, k: int, b: int, i: int, j: int)
    requires w > 0 && k > 0 && k * w > 0 && AlwaysCoarsens(s, w, k)
    requires i in SlotsIn(s, k * w, b) && j in SlotsIn(s, k * w, b)
    ensures IsLeast(SlotsIn(s, k * w, b), i) ==> Bucket(s[i].ts, w) <= Bucket(s[j].ts, w)
    ensures IsGreatest(SlotsIn(s, k * w, b), i) ==> Bucket(s[j].ts, w) <= Bucket(s[i].ts, w)
  {
    var fs, cs := MarkedCoarsens(s, w, k, i);
    if IsLeast(SlotsIn(s, k * w, b), i) && Bucket(s[j].ts, w) < Bucket(s[i].ts, w) {
      MisalignedOpenShows(s, w, k, b, i, j, fs, cs);
    }
    if IsGreatest(SlotsIn(s, k * w, b), i) && Bucket(s[i].ts, w) < Bucket(s[j].ts, w) {
      MisalignedCloseShows(s, w, k, b, i, j, fs, cs);
    }
  }

  /** Timestamps do not decrease with the slot. */
  ghost predicate TimeFollowsSlot(s: Series) {
    forall i, j :: i in s && j in s && i <= j ==> s[i].ts <= s[j].ts
  }

  /** A series whose time follows the slot is aligned at every width, so its answers coarsen. */
  lemma TimeFollowsSlotCoarsens(s: Series, w: int, k: int)
    requires w > 0 && k > 0 && k * w > 0 && TimeFollowsSlot(s)
    ensures AlwaysCoarsens(s, w, k)
  {
    forall i, j | i in s && j in s && i <= j ensures Bucket(s[i].ts, w) <= Bucket(s[j].ts, w) {
      BucketMonotone(s[i].ts, s[j].ts, w);
    }
    AnswersCoarsenIff(s, w, k);
  }

  /** A clock that runs backwards between two slots changes the open: the coarse candle opens at the lower slot. */
  lemma OpenNeedsTimeToFollowSlot(p: real, q: real)
    requires p != q
    ensures
      var s: Series := map[1 := Sample(70, 0, 0, p), 2 := Sample(10, 0, 0, q)];
      exists c: Candle, f: Candle, g: Candle ::
        IsCandle(s, 120, c) && FineCandlesOf(s, 60, 2, c.time, [f, g]) && [f, g][0].open != c.open
  {
    var s: Series := map[1 := Sample(70, 0, 0, p), 2 := Sample(10, 0, 0, q)];
    var high, low := if p >= q then p else q, if p >= q then q else p;
    var c, f, g := Candle(0, p, high, low, q), Candle(0, q, q, q, q), Candle(60, p, p, p, p);
    assert Bucket(70, 120) == 0 && Bucket(10, 120) == 0 && Bucket(70, 60) == 60 && Bucket(10, 60) == 0;
    assert IsCandle(s, 120, c) by { assert SlotsIn(s, 120, 0) == {1, 2}; }
    assert IsCandle(s, 60, f) by { assert SlotsIn(s, 60, 0) == {2}; }
    assert IsCandle(s, 60, g) by { assert SlotsIn(s, 60, 60) == {1}; }
    assert Bucket(0, 120) == 0 && Bucket(60, 120) == 0;
    assert [f, g][0].time == 0 && [f, g][1].time == 60;
    assert FineCandlesOf(s, 60, 2, c.time, [f, g]);
  }
}
