/** The abstract meaning of the range tables: a strictly ascending list of
    boundary starts, and the rule that an address belongs to the last boundary
    at or below it. The file stores the starts split up (docs/FORMAT.md); the
    functions below put them together again. */
module Boundaries {
  import opened Words

  ghost predicate Ascending(s: seq<int>) {
    forall i, j :: 0 <= i < j < |s| ==> s[i] < s[j]
  }

  /** The last boundary whose start is <= key, by linear scan, or -1. */
  function Last(starts: seq<int>, key: int): (i: int)
    ensures -1 <= i < |starts|
    ensures i >= 0 ==> starts[i] <= key
    ensures forall j :: i < j < |starts| ==> key < starts[j]
  {
    var n := |starts|;
    if n == 0 then -1
    else if starts[n - 1] <= key then n - 1
    else Last(starts[..n - 1], key)
  }

  lemma LastUnique(starts: seq<int>, key: int, i: int)
    requires -1 <= i < |starts|
    requires i >= 0 ==> starts[i] <= key
    requires forall j :: i < j < |starts| ==> key < starts[j]
    ensures Last(starts, key) == i
  {
  }

  /** p splits s into the elements below x and the others. */
  ghost predicate Cut(s: seq<int>, p: int, x: int) {
    && 0 <= p <= |s|
    && (forall i :: 0 <= i < p ==> s[i] < x)
    && (forall i :: p <= i < |s| ==> x <= s[i])
  }

  lemma CutOrder(s: seq<int>, p: int, x: int, q: int, y: int)
    requires Cut(s, p, x) && Cut(s, q, y) && x <= y
    ensures p <= q
  {
    var e := if q < |s| then s[q] else y;
    assert e >= y;
  }

  lemma AscendingSplit(s: seq<int>, m: int)
    requires Ascending(s) && 0 <= m < |s|
    ensures forall j :: 0 <= j <= m ==> s[j] <= s[m]
    ensures forall j :: m <= j < |s| ==> s[m] <= s[j]
  {
  }

  // ---- IPv4: V4IDX and V4STARTS -------------------------------------------

  const V4_BUCKETS: nat := 0x1_0000

  /** V4IDX runs non-decreasing from 0 to the number of starts. */
  ghost predicate Shape4(idx: seq<u32>, n: nat) {
    && |idx| == V4_BUCKETS + 1
    && idx[0] == 0
    && idx[V4_BUCKETS] == n
    && forall g, h :: 0 <= g <= h <= V4_BUCKETS ==> idx[g] <= idx[h]
  }

  /** The first bucket at or after g that ends above boundary i. */
  ghost function BucketFrom(idx: seq<u32>, i: nat, g: nat): (b: nat)
    requires |idx| == V4_BUCKETS + 1 && g < V4_BUCKETS
    requires idx[g] <= i < idx[V4_BUCKETS]
    ensures g <= b < V4_BUCKETS && idx[b] <= i < idx[b + 1]
    decreases V4_BUCKETS - g
  {
    if i < idx[g + 1] then g else BucketFrom(idx, i, g + 1)
  }

  /** The top-16 bucket of boundary i. */
  ghost function Bucket(idx: seq<u32>, n: nat, i: nat): (b: nat)
    requires Shape4(idx, n) && i < n
    ensures b < V4_BUCKETS && idx[b] <= i < idx[b + 1]
  {
    BucketFrom(idx, i, 0)
  }

  lemma BucketUnique(idx: seq<u32>, n: nat, i: nat, g: nat)
    requires Shape4(idx, n) && i < n
    requires g < V4_BUCKETS && idx[g] <= i < idx[g + 1]
    ensures Bucket(idx, n, i) == g
  {
    var b := Bucket(idx, n, i);
  }

  /** The absolute starts of the IPv4 boundaries. */
  ghost function Starts4(idx: seq<u32>, low: seq<u16>): (s: seq<int>)
    requires Shape4(idx, |low|)
    ensures |s| == |low|
  {
    seq(|low|, i requires 0 <= i < |low| => Bucket(idx, |low|, i) * 0x1_0000 + low[i])
  }

  /** Boundary i lies in exactly one bucket, and its start is that bucket's base
      plus its u16 value. */
  lemma Starts4Meaning(idx: seq<u32>, low: seq<u16>, i: nat)
    requires Shape4(idx, |low|) && i < |low|
    ensures exists g: nat :: InBucket(idx, i, g)
    ensures forall g: nat :: InBucket(idx, i, g) ==> Starts4(idx, low)[i] == g * 0x1_0000 + low[i]
  {
    var b := Bucket(idx, |low|, i);
    assert InBucket(idx, i, b);
    forall g: nat | InBucket(idx, i, g)
      ensures g == b
    {
      BucketUnique(idx, |low|, i, g);
    }
  }

  ghost predicate InBucket(idx: seq<u32>, i: nat, g: nat) {
    g + 1 < |idx| && idx[g] <= i < idx[g + 1]
  }

  ghost predicate Valid4(idx: seq<u32>, low: seq<u16>) {
    && |low| < 0x8000_0000
    && Shape4(idx, |low|)
    && Ascending(Starts4(idx, low))
  }

  // ---- IPv6: V6STARTS, V6EXCIDX and V6EXCLO -------------------------------

  /** The low half of start i: its exception entry, or 0 without one. */
  ghost function LowOf(excIdx: seq<u32>, excLo: seq<u64>, i: int): (l: u64)
    requires |excIdx| == |excLo|
  {
    if i in excIdx then
      var j :| 0 <= j < |excIdx| && excIdx[j] == i;
      excLo[j]
    else 0
  }

  lemma LowOfOther(excIdx: seq<u32>, excLo: seq<u64>, i: int)
    requires |excIdx| == |excLo|
    ensures i !in excIdx ==> LowOf(excIdx, excLo, i) == 0
  {
  }

  lemma LowOfAt(excIdx: seq<u32>, excLo: seq<u64>, j: int)
    requires |excIdx| == |excLo| && Ascending(excIdx) && 0 <= j < |excIdx|
    ensures LowOf(excIdx, excLo, excIdx[j]) == excLo[j]
  {
  }

  /** The absolute 128-bit starts of the IPv6 boundaries. */
  ghost function Starts6(hi: seq<u64>, excIdx: seq<u32>, excLo: seq<u64>): (s: seq<int>)
    requires |excIdx| == |excLo|
    ensures |s| == |hi|
  {
    seq(|hi|, i requires 0 <= i < |hi| => hi[i] * 0x1_0000_0000_0000_0000 + LowOf(excIdx, excLo, i))
  }

  /** A start's low half is the one its exception entry gives, and 0 when it has
      none. */
  lemma Starts6Meaning(hi: seq<u64>, excIdx: seq<u32>, excLo: seq<u64>, i: nat)
    requires |excIdx| == |excLo| && Ascending(excIdx) && i < |hi|
    ensures forall j :: 0 <= j < |excIdx| && excIdx[j] == i ==>
                          Starts6(hi, excIdx, excLo)[i] == hi[i] as int * 0x1_0000_0000_0000_0000 + excLo[j]
    ensures i !in excIdx ==> Starts6(hi, excIdx, excLo)[i] == hi[i] as int * 0x1_0000_0000_0000_0000
  {
    LowOfOther(excIdx, excLo, i);
    forall j | 0 <= j < |excIdx| && excIdx[j] == i
      ensures LowOf(excIdx, excLo, i) == excLo[j]
    {
      LowOfAt(excIdx, excLo, j);
    }
  }

  /** The exceptions are exactly the starts with a non-zero low half. */
  ghost predicate ValidExceptions(n: nat, excIdx: seq<u32>, excLo: seq<u64>) {
    && |excIdx| == |excLo|
    && Ascending(excIdx)
    && (forall j :: 0 <= j < |excIdx| ==> excIdx[j] < n)
    && (forall j :: 0 <= j < |excLo| ==> excLo[j] != 0)
  }

  const MAX_V6: nat := 0x1000_0000

  ghost predicate Valid6(hi: seq<u64>, excIdx: seq<u32>, excLo: seq<u64>) {
    && |hi| < MAX_V6
    && ValidExceptions(|hi|, excIdx, excLo)
    && Ascending(Starts6(hi, excIdx, excLo))
  }

  lemma TopHalvesSorted(hi: seq<u64>, excIdx: seq<u32>, excLo: seq<u64>, i: int, j: int)
    requires Valid6(hi, excIdx, excLo) && 0 <= i <= j < |hi|
    ensures hi[i] <= hi[j]
  {
    var s := Starts6(hi, excIdx, excLo);
    assert i < j ==> s[i] < s[j];
  }

  lemma SortedSplit(hi: seq<u64>, excIdx: seq<u32>, excLo: seq<u64>, m: int)
    requires Valid6(hi, excIdx, excLo) && 0 <= m < |hi|
    ensures forall j :: 0 <= j <= m ==> hi[j] <= hi[m]
    ensures forall j :: m <= j < |hi| ==> hi[m] <= hi[j]
  {
    forall j | 0 <= j < |hi|
      ensures if j <= m then hi[j] <= hi[m] else hi[m] <= hi[j]
    {
      if j <= m {
        TopHalvesSorted(hi, excIdx, excLo, j, m);
      } else {
        TopHalvesSorted(hi, excIdx, excLo, m, j);
      }
    }
  }

  /** How start i compares with an address of halves kh and kl. */
  lemma CompareStart(hi: seq<u64>, excIdx: seq<u32>, excLo: seq<u64>, i: int, kh: u64, kl: u64)
    requires |excIdx| == |excLo| && 0 <= i < |hi|
    ensures var s, key := Starts6(hi, excIdx, excLo)[i], kh * TWO64 + kl;
      && (hi[i] < kh ==> s <= key)
      && (kh < hi[i] ==> key < s)
      && (hi[i] == kh ==> (s <= key <==> LowOf(excIdx, excLo, i) <= kl))
  {
  }
}
