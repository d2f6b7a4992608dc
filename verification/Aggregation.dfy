/** Time-bucket averages of the stored records. */
module Aggregation {
  import opened Arith
  import opened DataStore
  import opened Sequences

  const MAX_RAW: u32 := 2000

  datatype Aggregated = Aggregated(timestamp: u32, count: u16, temp: i16, hum: u16, eco2: u16, tvoc: u16, aqi: u8)

  datatype Field = Temp | Hum | Eco2 | Tvoc | Aqi

  function Get(r: Record, f: Field): int {
    match f
    case Temp => r.temp
    case Hum => r.hum
    case Eco2 => r.eco2
    case Tvoc => r.tvoc
    case Aqi => r.aqi
  }

  type BucketSize = v: int | 0 < v < 0x1_0000_0000 witness 1

  /** The start of the bucket a time falls in: (ts / bucketSec) * bucketSec, counted up. */
  function BucketOf(ts: u32, bucketSec: BucketSize): (b: u32)
    ensures b <= ts
    decreases ts
  {
    if ts < bucketSec then 0 else BucketOf(ts - bucketSec, bucketSec) + bucketSec
  }

  function SumOf(recs: seq<Record>, f: Field): int {
    if recs == [] then 0 else SumOf(recs[..|recs| - 1], f) + Get(recs[|recs| - 1], f)
  }

  function Average(recs: seq<Record>, f: Field): int
    requires recs != []
  {
    Quotient(SumOf(recs, f), |recs|)
  }

  lemma {:induction false} SumBounds(recs: seq<Record>, f: Field, lo: int, hi: int)
    requires forall r | r in recs :: lo <= Get(r, f) <= hi
    ensures |recs| * lo <= SumOf(recs, f) <= |recs| * hi
  {
    if recs != [] {
      var n := |recs| - 1;
      SumBounds(recs[..n], f, lo, hi);
      assert recs[n] in recs;
      OneMore(n, lo);
      OneMore(n, hi);
    }
  }

  lemma OneMore(n: int, v: int)
    ensures (n + 1) * v == n * v + v
  {}

  /** An average lies between any bounds of its values; so no cast of an average loses anything. */
  lemma AverageBetween(recs: seq<Record>, f: Field, lo: int, hi: int)
    requires recs != [] && forall r | r in recs :: lo <= Get(r, f) <= hi
    ensures lo <= Average(recs, f) <= hi
  {
    SumBounds(recs, f, lo, hi);
    QuotientBounds(SumOf(recs, f), |recs|, lo);
    QuotientBounds(SumOf(recs, f), |recs|, hi);
  }

  /** One bucket of the answer. */
  function Summary(ts: u32, recs: seq<Record>): Aggregated
    requires 0 < |recs| < 0x1_0000
  {
    AverageBetween(recs, Temp, -0x8000, 0x7FFF);
    AverageBetween(recs, Hum, 0, 0xFFFF);
    AverageBetween(recs, Eco2, 0, 0xFFFF);
    AverageBetween(recs, Tvoc, 0, 0xFFFF);
    AverageBetween(recs, Aqi, 0, 0xFF);
    Aggregated(ts, |recs|, Average(recs, Temp), Average(recs, Hum), Average(recs, Eco2), Average(recs, Tvoc), Average(recs, Aqi))
  }

  lemma {:induction false} BucketOfIsDiv(ts: u32, bucketSec: BucketSize)
    ensures BucketOf(ts, bucketSec) == Div(ts, bucketSec) * bucketSec
    decreases ts
  {
    if ts >= bucketSec {
      BucketOfIsDiv(ts - bucketSec, bucketSec);
      var q := Div(ts - bucketSec, bucketSec);
      assert (1 + q) * bucketSec == bucketSec + q * bucketSec;
    }
  }

  /** BucketOf is the source's formula. */
  lemma BucketOfIsFloor(ts: u32, bucketSec: BucketSize)
    ensures BucketOf(ts, bucketSec) == (ts / bucketSec) * bucketSec
  {
    BucketOfIsDiv(ts, bucketSec);
    DivIsDivision(ts, bucketSec);
  }

  lemma {:induction false} BucketMonotone(t: u32, t': u32, bucketSec: BucketSize)
    requires t <= t'
    ensures BucketOf(t, bucketSec) <= BucketOf(t', bucketSec)
    decreases t'
  {
    if t >= bucketSec {
      BucketMonotone(t - bucketSec, t' - bucketSec, bucketSec);
    }
  }

  /** How many records from the front share the first one's bucket. */
  function RunLength(recs: seq<Record>, bucketSec: BucketSize, bucket: u32): (n: nat)
    ensures n <= |recs|
    ensures forall k | 0 <= k < n :: BucketOf(recs[k].timestamp, bucketSec) == bucket
    ensures n < |recs| ==> BucketOf(recs[n].timestamp, bucketSec) != bucket
  {
    if recs == [] || BucketOf(recs[0].timestamp, bucketSec) != bucket then 0
    else 1 + RunLength(recs[1..], bucketSec, bucket)
  }

  /** The runs of equal buckets, summarised one by one. */
  function Runs(recs: seq<Record>, bucketSec: BucketSize): seq<Aggregated>
    requires |recs| < 0x1_0000
  {
    if recs == [] then []
    else
      var bucket := BucketOf(recs[0].timestamp, bucketSec);
      var n := RunLength(recs, bucketSec, bucket);
      [Summary(bucket, recs[..n])] + Runs(recs[n..], bucketSec)
  }

  /** The records of one bucket, in order. */
  ghost function InBucket(recs: seq<Record>, bucketSec: BucketSize, bucket: u32): seq<Record>
  {
    if recs == [] then []
    else When(BucketOf(recs[0].timestamp, bucketSec) == bucket, recs[0]) + InBucket(recs[1..], bucketSec, bucket)
  }

  function When(c: bool, r: Record): seq<Record> {
    if c then [r] else []
  }

  /** The mathematical group-by: bucket times strictly increase, every bucket is the summary of exactly its records, and
      every record is in one of them. */
  ghost predicate IsGroupBy(recs: seq<Record>, bucketSec: BucketSize, out: seq<Aggregated>)
    requires |recs| < 0x1_0000
  {
    && (forall j, k | 0 <= j < k < |out| :: out[j].timestamp < out[k].timestamp)
    && (forall k | 0 <= k < |out| :: IsBucket(recs, bucketSec, out[k]))
    && (forall p | 0 <= p < |recs| :: Reported(BucketOf(recs[p].timestamp, bucketSec), out))
  }

  ghost predicate IsBucket(recs: seq<Record>, bucketSec: BucketSize, a: Aggregated)
    requires |recs| < 0x1_0000
  {
    var mine := InBucket(recs, bucketSec, a.timestamp);
    0 < |mine| <= |recs| && a == Summary(a.timestamp, mine)
  }

  ghost predicate Reported(bucket: u32, out: seq<Aggregated>) {
    exists k :: 0 <= k < |out| && out[k].timestamp == bucket
  }

  lemma {:induction false} InBucketAppend(a: seq<Record>, b: seq<Record>, bucketSec: BucketSize, bucket: u32)
    ensures InBucket(a + b, bucketSec, bucket) == InBucket(a, bucketSec, bucket) + InBucket(b, bucketSec, bucket)
  {
    if a == [] {
      assert a + b == b;
    } else {
      assert (a + b)[1..] == a[1..] + b;
      InBucketAppend(a[1..], b, bucketSec, bucket);
      Regroup(When(BucketOf(a[0].timestamp, bucketSec) == bucket, a[0]), InBucket(a[1..], bucketSec, bucket), InBucket(b, bucketSec, bucket));
    }
  }

  lemma {:induction false} AllInBucket(recs: seq<Record>, bucketSec: BucketSize, bucket: u32)
    requires forall k | 0 <= k < |recs| :: BucketOf(recs[k].timestamp, bucketSec) == bucket
    ensures InBucket(recs, bucketSec, bucket) == recs
  {
    if recs != [] {
      AllInBucket(recs[1..], bucketSec, bucket);
    }
  }

  lemma {:induction false} NoneInBucket(recs: seq<Record>, bucketSec: BucketSize, bucket: u32)
    requires forall k | 0 <= k < |recs| :: BucketOf(recs[k].timestamp, bucketSec) != bucket
    ensures InBucket(recs, bucketSec, bucket) == []
  {
    if recs != [] {
      NoneInBucket(recs[1..], bucketSec, bucket);
    }
  }

  /** In time order, the first run is the whole first bucket and everything after it is in later buckets. */
  lemma FirstRun(recs: seq<Record>, bucketSec: BucketSize)
    requires recs != [] && SortedByTime(recs)
    ensures var bucket := BucketOf(recs[0].timestamp, bucketSec);
      var n := RunLength(recs, bucketSec, bucket);
      && 0 < n && InBucket(recs, bucketSec, bucket) == recs[..n]
      && forall k | n <= k < |recs| :: bucket < BucketOf(recs[k].timestamp, bucketSec)
  {
    var bucket := BucketOf(recs[0].timestamp, bucketSec);
    var n := RunLength(recs, bucketSec, bucket);
    forall k | n <= k < |recs| ensures bucket < BucketOf(recs[k].timestamp, bucketSec) {
      BucketMonotone(recs[0].timestamp, recs[n].timestamp, bucketSec);
      BucketMonotone(recs[n].timestamp, recs[k].timestamp, bucketSec);
    }
    assert recs == recs[..n] + recs[n..];
    InBucketAppend(recs[..n], recs[n..], bucketSec, bucket);
    AllInBucket(recs[..n], bucketSec, bucket);
    LaterOnly(recs, n, bucketSec, bucket);
  }

  lemma LaterOnly(recs: seq<Record>, n: nat, bucketSec: BucketSize, bucket: u32)
    requires n <= |recs| && forall k | n <= k < |recs| :: bucket < BucketOf(recs[k].timestamp, bucketSec)
    ensures InBucket(recs[n..], bucketSec, bucket) == []
  {
    NoneInBucket(recs[n..], bucketSec, bucket);
  }

  /** A later bucket has all its records after the first run. */
  lemma LaterBucket(recs: seq<Record>, n: nat, bucketSec: BucketSize, bucket: u32)
    requires n <= |recs|
    requires forall k | 0 <= k < n :: BucketOf(recs[k].timestamp, bucketSec) != bucket
    ensures InBucket(recs, bucketSec, bucket) == InBucket(recs[n..], bucketSec, bucket)
  {
    assert recs == recs[..n] + recs[n..];
    InBucketAppend(recs[..n], recs[n..], bucketSec, bucket);
    NoneInBucket(recs[..n], bucketSec, bucket);
  }

  lemma {:induction false} BucketsOccur(recs: seq<Record>, bucketSec: BucketSize, bucket: u32)
    requires InBucket(recs, bucketSec, bucket) != []
    ensures exists k :: 0 <= k < |recs| && BucketOf(recs[k].timestamp, bucketSec) == bucket
  {
    if forall k | 0 <= k < |recs| :: BucketOf(recs[k].timestamp, bucketSec) != bucket {
      NoneInBucket(recs, bucketSec, bucket);
    }
  }

  /** On records in time order, summarising the runs is the group-by. */
  lemma {:induction false} RunsAreGroupBy(recs: seq<Record>, bucketSec: BucketSize)
    requires |recs| < 0x1_0000 && SortedByTime(recs)
    ensures IsGroupBy(recs, bucketSec, Runs(recs, bucketSec))
    decreases |recs|
  {
    if recs != [] {
      var bucket := BucketOf(recs[0].timestamp, bucketSec);
      var n := RunLength(recs, bucketSec, bucket);
      var rest := Runs(recs[n..], bucketSec);
      FirstRun(recs, bucketSec);
      RunsAreGroupBy(recs[n..], bucketSec);
      GroupByExtends(recs, bucketSec, n, bucket, rest);
    }
  }

  /** The first run is the first bucket, and everything after it is later. */
  ghost predicate IsFirstRun(recs: seq<Record>, bucketSec: BucketSize, n: nat, bucket: u32)
  {
    && 0 < n <= |recs| && InBucket(recs, bucketSec, bucket) == recs[..n]
    && (forall k | 0 <= k < n :: BucketOf(recs[k].timestamp, bucketSec) == bucket)
    && (forall k | n <= k < |recs| :: bucket < BucketOf(recs[k].timestamp, bucketSec))
  }

  lemma BucketExtends(recs: seq<Record>, bucketSec: BucketSize, n: nat, bucket: u32, a: Aggregated)
    requires |recs| < 0x1_0000 && IsFirstRun(recs, bucketSec, n, bucket)
    requires IsBucket(recs[n..], bucketSec, a)
    ensures bucket < a.timestamp && IsBucket(recs, bucketSec, a)
  {
    BucketsOccur(recs[n..], bucketSec, a.timestamp);
    LaterBucket(recs, n, bucketSec, a.timestamp);
  }

  lemma ReportedExtends(recs: seq<Record>, bucketSec: BucketSize, n: nat, bucket: u32, first: Aggregated, rest: seq<Aggregated>, p: nat)
    requires |recs| < 0x1_0000 && IsFirstRun(recs, bucketSec, n, bucket)
    requires IsGroupBy(recs[n..], bucketSec, rest) && first.timestamp == bucket && p < |recs|
    ensures Reported(BucketOf(recs[p].timestamp, bucketSec), [first] + rest)
  {
    var b := BucketOf(recs[p].timestamp, bucketSec);
    var out := [first] + rest;
    if p < n {
      assert out[0].timestamp == b;
    } else {
      assert recs[n..][p - n] == recs[p];
      var k :| 0 <= k < |rest| && rest[k].timestamp == b;
      assert out[k + 1].timestamp == b;
    }
  }

  lemma FirstBucket(recs: seq<Record>, bucketSec: BucketSize, n: nat, bucket: u32)
    requires |recs| < 0x1_0000 && IsFirstRun(recs, bucketSec, n, bucket)
    ensures IsBucket(recs, bucketSec, Summary(bucket, recs[..n]))
  {}

  lemma GroupByExtends(recs: seq<Record>, bucketSec: BucketSize, n: nat, bucket: u32, rest: seq<Aggregated>)
    requires |recs| < 0x1_0000 && IsFirstRun(recs, bucketSec, n, bucket)
    requires IsGroupBy(recs[n..], bucketSec, rest)
    ensures IsGroupBy(recs, bucketSec, [Summary(bucket, recs[..n])] + rest)
  {
    FirstBucket(recs, bucketSec, n, bucket);
    GroupByFrom(recs, bucketSec, n, bucket, Summary(bucket, recs[..n]), rest);
  }

  lemma GroupByFrom(recs: seq<Record>, bucketSec: BucketSize, n: nat, bucket: u32, first: Aggregated, rest: seq<Aggregated>)
    requires |recs| < 0x1_0000 && IsFirstRun(recs, bucketSec, n, bucket)
    requires IsGroupBy(recs[n..], bucketSec, rest) && IsBucket(recs, bucketSec, first) && first.timestamp == bucket
    ensures IsGroupBy(recs, bucketSec, [first] + rest)
  {
    var out := [first] + rest;
    BucketsExtend(recs, bucketSec, n, bucket, first, rest);
    InTimeOrder(first, rest);
    forall p | 0 <= p < |recs| ensures Reported(BucketOf(recs[p].timestamp, bucketSec), out) {
      ReportedExtends(recs, bucketSec, n, bucket, first, rest, p);
    }
  }

  lemma BucketsExtend(recs: seq<Record>, bucketSec: BucketSize, n: nat, bucket: u32, first: Aggregated, rest: seq<Aggregated>)
    requires |recs| < 0x1_0000 && IsFirstRun(recs, bucketSec, n, bucket)
    requires IsBucket(recs, bucketSec, first) && forall k | 0 <= k < |rest| :: IsBucket(recs[n..], bucketSec, rest[k])
    ensures forall k | 0 <= k < |[first] + rest| :: IsBucket(recs, bucketSec, ([first] + rest)[k])
    ensures forall k | 0 <= k < |rest| :: bucket < rest[k].timestamp
  {
    forall k | 0 <= k < |rest| ensures bucket < rest[k].timestamp && IsBucket(recs, bucketSec, rest[k]) {
      BucketExtends(recs, bucketSec, n, bucket, rest[k]);
    }
  }

  lemma InTimeOrder(first: Aggregated, rest: seq<Aggregated>)
    requires forall j, k | 0 <= j < k < |rest| :: rest[j].timestamp < rest[k].timestamp
    requires forall k | 0 <= k < |rest| :: first.timestamp < rest[k].timestamp
    ensures var out := [first] + rest; forall j, k | 0 <= j < k < |out| :: out[j].timestamp < out[k].timestamp
  {}

  function Counted(out: seq<Aggregated>): nat {
    if out == [] then 0 else out[0].count + Counted(out[1..])
  }

  /** No record is lost or counted twice. */
  lemma {:induction false} CountsAddUp(recs: seq<Record>, bucketSec: BucketSize)
    requires |recs| < 0x1_0000
    ensures Counted(Runs(recs, bucketSec)) == |recs|
    decreases |recs|
  {
    if recs != [] {
      var n := RunLength(recs, bucketSec, BucketOf(recs[0].timestamp, bucketSec));
      CountsAddUp(recs[n..], bucketSec);
      assert Runs(recs, bucketSec)[1..] == Runs(recs[n..], bucketSec);
    }
  }

  /** The first n elements, or none for a negative n. */
  function FirstN(s: seq<Aggregated>, n: int): seq<Aggregated> {
    if n <= 0 then [] else if |s| <= n then s else s[..n]
  }

  /** Conversion of a uint32_t to int. */
  function AsInt(v: u32): int {
    if v < 0x8000_0000 then v else v - 0x1_0000_0000
  }

  // ----- what one bucket of the answer says, field by field

  function Sum(s: seq<int>): int {
    if s == [] then 0 else Sum(s[..|s| - 1]) + s[|s| - 1]
  }

  /** v is the mean of the numbers, cut toward zero, and lies between the smallest and the largest of them. */
  ghost predicate IsMean(s: seq<int>, v: int) {
    && s != [] && (if Sum(s) >= 0 then v * |s| <= Sum(s) < v * |s| + |s| else v * |s| - |s| < Sum(s) <= v * |s|)
    && (exists x :: x in s && x <= v) && (exists x :: x in s && v <= x)
  }

  function Temps(recs: seq<Record>): seq<int> {
    seq(|recs|, k requires 0 <= k < |recs| => recs[k].temp)
  }

  function Hums(recs: seq<Record>): seq<int> {
    seq(|recs|, k requires 0 <= k < |recs| => recs[k].hum)
  }

  function Eco2s(recs: seq<Record>): seq<int> {
    seq(|recs|, k requires 0 <= k < |recs| => recs[k].eco2)
  }

  function Tvocs(recs: seq<Record>): seq<int> {
    seq(|recs|, k requires 0 <= k < |recs| => recs[k].tvoc)
  }

  function Aqis(recs: seq<Record>): seq<int> {
    seq(|recs|, k requires 0 <= k < |recs| => recs[k].aqi)
  }

  /** Every field of the bucket is the mean of that same field of the records, and the count is theirs. */
  ghost predicate Averaged(a: Aggregated, recs: seq<Record>) {
    && a.count == |recs| && IsMean(Temps(recs), a.temp) && IsMean(Hums(recs), a.hum)
    && IsMean(Eco2s(recs), a.eco2) && IsMean(Tvocs(recs), a.tvoc) && IsMean(Aqis(recs), a.aqi)
  }

  lemma {:induction false} SumOfColumn(recs: seq<Record>, f: Field, column: seq<int>)
    requires |column| == |recs| && forall k | 0 <= k < |recs| :: column[k] == Get(recs[k], f)
    ensures SumOf(recs, f) == Sum(column)
  {
    if recs != [] {
      SumOfColumn(recs[..|recs| - 1], f, column[..|recs| - 1]);
    }
  }

  lemma {:induction false} Lowest(s: seq<int>) returns (m: int)
    requires s != []
    ensures m in s && forall x :: x in s ==> m <= x
  {
    m := s[0];
    if |s| > 1 {
      var rest := Lowest(s[1..]);
      m := Min(m, rest);
      assert s == [s[0]] + s[1..];
    }
  }

  lemma {:induction false} Highest(s: seq<int>) returns (m: int)
    requires s != []
    ensures m in s && forall x :: x in s ==> x <= m
  {
    m := s[0];
    if |s| > 1 {
      var rest := Highest(s[1..]);
      m := Max(m, rest);
      assert s == [s[0]] + s[1..];
    }
  }

  lemma AverageIsMean(recs: seq<Record>, f: Field, column: seq<int>)
    requires recs != [] && |column| == |recs| && forall k | 0 <= k < |recs| :: column[k] == Get(recs[k], f)
    ensures IsMean(column, Average(recs, f))
  {
    var lo := Lowest(column);
    var hi := Highest(column);
    forall r | r in recs ensures lo <= Get(r, f) <= hi {
      var k :| 0 <= k < |recs| && recs[k] == r;
      assert column[k] in column;
    }
    AverageBetween(recs, f, lo, hi);
    SumOfColumn(recs, f, column);
    TowardZero(Sum(column), |column|);
  }

  lemma SummaryAverages(ts: u32, recs: seq<Record>)
    requires 0 < |recs| < 0x1_0000
    ensures Averaged(Summary(ts, recs), recs)
  {
    AverageIsMean(recs, Temp, Temps(recs));
    AverageIsMean(recs, Hum, Hums(recs));
    AverageIsMean(recs, Eco2, Eco2s(recs));
    AverageIsMean(recs, Tvoc, Tvocs(recs));
    AverageIsMean(recs, Aqi, Aqis(recs));
  }

  /** The bucket times of the answer and the fields of its buckets, for records in time order. */
  lemma BucketsAverage(recs: seq<Record>, bucketSec: BucketSize, full: seq<Aggregated>, k: nat)
    requires |recs| < 0x1_0000 && IsGroupBy(recs, bucketSec, full) && k < |full|
    ensures Averaged(full[k], InBucket(recs, bucketSec, full[k].timestamp))
  {
    SummaryAverages(full[k].timestamp, InBucket(recs, bucketSec, full[k].timestamp));
  }

  /** Exactly the records of the bucket, (ts / bucketSec) * bucketSec, stand in it. */
  lemma {:induction false} InBucketMeans(recs: seq<Record>, bucketSec: BucketSize, bucket: u32, r: Record)
    ensures multiset(InBucket(recs, bucketSec, bucket))[r] ==
            if (r.timestamp / bucketSec) * bucketSec == bucket then multiset(recs)[r] else 0
  {
    if recs != [] {
      assert recs == [recs[0]] + recs[1..];
      InBucketMeans(recs[1..], bucketSec, bucket, r);
      BucketOfIsFloor(recs[0].timestamp, bucketSec);
    }
  }

  /** apps/server/main/data_store.c: data_store_read_aggregated. allocates says whether the raw buffer can be allocated. The
      capacity is compared as an int, so one of 2^31 or more is negative there and yields nothing. raw is what is summarised,
      at most 2000 records from the cut on, and all its runs. On records in time order these are the records at or after
      since, the runs are their group-by, and the answer is its front. */
  method ReadAggregated(store: Store, id: string, since: u32, bucketSec: u32, capacity: u32, allocates: bool)
    returns (out: seq<Aggregated>, ghost raw: seq<Record>, ghost full: seq<Aggregated>)
    requires store.Valid()
    ensures |raw| <= 2000 && FromCut(store.WindowOf(id), since, 2000, raw)
    ensures bucketSec == 0 || !allocates || capacity >= 0x8000_0000 ==> out == []
    ensures bucketSec > 0 ==> full == Runs(raw, bucketSec)
    ensures bucketSec > 0 && allocates && capacity < 0x8000_0000 ==> out == full[..Min(|full|, capacity)]
    ensures SortedByTime(store.WindowOf(id)) ==> raw == Slice(Since(store.WindowOf(id), since), 0, 2000)
    ensures SortedByTime(store.WindowOf(id)) && bucketSec > 0 ==>
      && IsGroupBy(raw, bucketSec, full)
      && forall k | 0 <= k < |full| :: Averaged(full[k], InBucket(raw, bucketSec, full[k].timestamp))
  {
    if capacity == 0 || bucketSec == 0 || !allocates {
      raw := RawRecords(store.WindowOf(id), since);
      out := [];
    } else {
      out, raw := Buckets(store, id, since, bucketSec, capacity);
    }
    full := AllBuckets(store.WindowOf(id), since, bucketSec, raw);
  }

  /** All runs of the raw records; in time order, their group-by. */
  lemma AllBuckets(w: seq<Record>, since: u32, bucketSec: u32, raw: seq<Record>) returns (full: seq<Aggregated>)
    requires IsRaw(w, since, raw)
    ensures bucketSec > 0 ==> full == Runs(raw, bucketSec)
    ensures SortedByTime(w) && bucketSec > 0 ==>
      && IsGroupBy(raw, bucketSec, full)
      && forall k | 0 <= k < |full| :: Averaged(full[k], InBucket(raw, bucketSec, full[k].timestamp))
  {
    full := [];
    if bucketSec > 0 {
      full := Runs(raw, bucketSec);
      if SortedByTime(w) {
        RawIsGrouped(w, since, bucketSec, raw);
      }
    }
  }

  /** The part behind the argument checks: read the raw records, then summarise them. */
  method Buckets(store: Store, id: string, since: u32, bucketSec: BucketSize, capacity: u32)
    returns (out: seq<Aggregated>, ghost raw: seq<Record>)
    requires store.Valid()
    ensures IsRaw(store.WindowOf(id), since, raw)
    ensures out == FirstN(Runs(raw, bucketSec), AsInt(capacity))
  {
    ghost var cut;
    var records;
    records, cut := store.ReadSince(id, since, MAX_RAW);
    raw := records;
    if |records| == 0 {
      return [], raw;
    }
    out := Summarise(records, bucketSec, AsInt(capacity));
  }

  /** The records the code may read to answer from; in time order they are determined. */
  ghost predicate IsRaw(w: seq<Record>, since: u32, raw: seq<Record>) {
    && |raw| <= MAX_RAW && FromCut(w, since, MAX_RAW, raw)
    && (SortedByTime(w) ==> raw == Slice(Since(w, since), 0, MAX_RAW))
  }

  lemma RawRecords(w: seq<Record>, since: u32) returns (raw: seq<Record>)
    ensures IsRaw(w, since, raw)
  {
    var cut := SomeCut(w, since);
    raw := Slice(w, cut, MAX_RAW);
    AnswerFromCut(w, since, cut, MAX_RAW, raw);
  }

  lemma RawIsGrouped(w: seq<Record>, since: u32, bucketSec: BucketSize, raw: seq<Record>)
    requires SortedByTime(w) && IsRaw(w, since, raw)
    ensures IsGroupBy(raw, bucketSec, Runs(raw, bucketSec))
    ensures forall k | 0 <= k < |Runs(raw, bucketSec)| ::
              Averaged(Runs(raw, bucketSec)[k], InBucket(raw, bucketSec, Runs(raw, bucketSec)[k].timestamp))
  {
    var cut :| IsCut(w, since, cut) && raw == Slice(w, cut, MAX_RAW);
    RunsAreGroupBy(raw, bucketSec);
    forall k | 0 <= k < |Runs(raw, bucketSec)|
      ensures Averaged(Runs(raw, bucketSec)[k], InBucket(raw, bucketSec, Runs(raw, bucketSec)[k].timestamp))
    {
      BucketsAverage(raw, bucketSec, Runs(raw, bucketSec), k);
    }
  }

  /** The outer loop: one run after the other until the records or the output buffer are used up. */
  method Summarise(records: seq<Record>, bucketSec: BucketSize, limit: int) returns (out: seq<Aggregated>)
    requires |records| <= MAX_RAW
    ensures out == FirstN(Runs(records, bucketSec), limit)
  {
    out := [];
    var i := 0;
    assert records[0..] == records;
    while i < |records| && |out| < limit
      invariant Progress(records, bucketSec, limit, out, i)
      decreases |records| - i
    {
      var a, next := OneBucket(records, i, bucketSec);
      ProgressStep(records, bucketSec, limit, out, i, a, next);
      out := out + [a];
      i := next;
    }
    ProgressDone(records, bucketSec, limit, out, i);
  }

  /** The buckets so far and those of the remaining records make up the answer. */
  ghost predicate Progress(records: seq<Record>, bucketSec: BucketSize, limit: int, out: seq<Aggregated>, i: nat)
    requires |records| <= MAX_RAW
  {
    i <= |records| && (out == [] || |out| <= limit) && out + Runs(records[i..], bucketSec) == Runs(records, bucketSec)
  }

  lemma ProgressStep(records: seq<Record>, bucketSec: BucketSize, limit: int, out: seq<Aggregated>, i: nat, a: Aggregated, next: nat)
    requires |records| <= MAX_RAW && Progress(records, bucketSec, limit, out, i) && |out| < limit && next <= |records|
    requires Runs(records[i..], bucketSec) == [a] + Runs(records[next..], bucketSec)
    ensures Progress(records, bucketSec, limit, out + [a], next)
  {
    MoveOne(out, a, Runs(records[next..], bucketSec), Runs(records[i..], bucketSec), Runs(records, bucketSec));
  }

  lemma MoveOne(out: seq<Aggregated>, a: Aggregated, later: seq<Aggregated>, rest: seq<Aggregated>, all: seq<Aggregated>)
    requires rest == [a] + later && out + rest == all
    ensures (out + [a]) + later == all
  {}

  lemma ProgressDone(records: seq<Record>, bucketSec: BucketSize, limit: int, out: seq<Aggregated>, i: nat)
    requires |records| <= MAX_RAW && Progress(records, bucketSec, limit, out, i) && (i == |records| || |out| >= limit)
    ensures out == FirstN(Runs(records, bucketSec), limit)
  {}

  /** The running sums of the inner loop. */
  datatype Sums = Sums(temp: int, hum: int, eco2: u32, tvoc: u32, aqi: u32)

  ghost predicate Summed(recs: seq<Record>, s: Sums) {
    && s.temp == SumOf(recs, Temp) && s.hum == SumOf(recs, Hum)
    && s.eco2 == SumOf(recs, Eco2) && s.tvoc == SumOf(recs, Tvoc) && s.aqi == SumOf(recs, Aqi)
  }

  /** One more record in the sums; with at most 2000 records none overflows. */
  method AddRecord(s: Sums, rec: Record, ghost recs: seq<Record>) returns (s': Sums)
    requires Summed(recs, s) && |recs| < MAX_RAW
    ensures Summed(recs + [rec], s')
  {
    SumBounds(recs, Eco2, 0, 0xFFFF);
    SumBounds(recs, Tvoc, 0, 0xFFFF);
    SumBounds(recs, Aqi, 0, 0xFF);
    s' := Sums(s.temp + rec.temp, s.hum + rec.hum, s.eco2 + rec.eco2, s.tvoc + rec.tvoc, s.aqi + rec.aqi);
    assert (recs + [rec])[..|recs|] == recs;
  }

  /** The averages, cast to their fields. */
  method Averages(bucket: u32, cnt: u32, s: Sums, ghost recs: seq<Record>) returns (a: Aggregated)
    requires Summed(recs, s) && cnt == |recs| && 0 < cnt <= MAX_RAW
    ensures a == Summary(bucket, recs)
  {
    ghost var summary := Summary(bucket, recs);
    a := Aggregated(bucket, cnt, Quotient(s.temp, cnt), Quotient(s.hum, cnt), Quotient(s.eco2, cnt), Quotient(s.tvoc, cnt),
                    Quotient(s.aqi, cnt));
  }

  /** The inner loop: sum up the run that starts the rest, in the source's integer widths. */
  method SumRun(records: seq<Record>, start: nat, bucketSec: BucketSize, bucket: u32, ghost rest: seq<Record>)
    returns (sums: Sums, cnt: u32, i: nat)
    requires start < |records| <= MAX_RAW && rest == records[start..]
    ensures cnt == RunLength(rest, bucketSec, bucket) && i == start + cnt
    ensures Summed(rest[..cnt], sums)
  {
    sums := Sums(0, 0, 0, 0, 0);
    cnt := 0;
    i := start;
    while i < |records|
      invariant start <= i <= |records| && cnt == i - start <= RunLength(rest, bucketSec, bucket)
      invariant Summed(rest[..cnt], sums)
    {
      var ts := BucketOf(records[i].timestamp, bucketSec);
      assert ts == BucketOf(rest[cnt].timestamp, bucketSec);
      if ts != bucket {
        break;
      }
      assert rest[..cnt + 1] == rest[..cnt] + [records[i]];
      sums := AddRecord(sums, records[i], rest[..cnt]);
      cnt := cnt + 1;
      i := i + 1;
    }
  }

  /** One turn of the outer loop: one run becomes one bucket. */
  method OneBucket(records: seq<Record>, start: nat, bucketSec: BucketSize) returns (a: Aggregated, i: nat)
    requires start < |records| <= MAX_RAW
    ensures start < i <= |records|
    ensures Runs(records[start..], bucketSec) == [a] + Runs(records[i..], bucketSec)
  {
    ghost var rest := records[start..];
    var bucket := BucketOf(records[start].timestamp, bucketSec);
    assert bucket == BucketOf(rest[0].timestamp, bucketSec);
    var sums: Sums, cnt: u32;
    sums, cnt, i := SumRun(records, start, bucketSec, bucket, rest);
    a := Averages(bucket, cnt, sums, rest[..cnt]);
    assert records[i..] == rest[cnt..];
  }
}
