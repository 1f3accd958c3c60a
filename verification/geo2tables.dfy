/** The range table checks of geo2.go: rules 7 and 8 of docs/FORMAT.md. */
module Geo2Tables {
  import opened Words
  import opened Boundaries
  import opened Addresses
  import Tables4

  lemma {:induction false} StepsAscend(s: seq<int>, i: int, j: int)
    requires 0 <= i < j < |s| && forall k :: 0 < k < |s| ==> s[k - 1] < s[k]
    ensures s[i] < s[j]
    decreases j - i
  {
    if i < j - 1 {
      StepsAscend(s, i, j - 1);
    }
  }

  lemma AscendingBySteps(s: seq<int>)
    requires forall k :: 0 < k < |s| ==> s[k - 1] < s[k]
    ensures Ascending(s)
  {
    forall i, j | 0 <= i < j < |s|
      ensures s[i] < s[j]
    {
      StepsAscend(s, i, j);
    }
  }

  // ---- IPv4 ----------------------------------------------------------------------

  /** The u16 starts inside bucket g ascend. */
  ghost predicate BucketAscends(idx: seq<u32>, low: seq<u16>, g: nat)
    requires g + 1 < |idx|
  {
    forall i :: 0 <= idx[g] < i < idx[g + 1] && i < |low| ==> low[i - 1] < low[i]
  }

  /** Two starts of one bucket out of order. */
  lemma OutOfOrder4(idx: seq<u32>, low: seq<u16>, g: nat, i: int)
    requires |idx| == V4_BUCKETS + 1 && g < V4_BUCKETS
    requires idx[g] < i < idx[g + 1] && i < |low| && low[i] <= low[i - 1]
    ensures !Valid4(idx, low)
  {
    hide Shape4, Starts4, Ascending;
    if Shape4(idx, |low|) {
      Tables4.StartInBucket(idx, low, i, g);
      Tables4.StartInBucket(idx, low, i - 1, g);
      NotAscending(Starts4(idx, low), i);
    }
  }

  /** Order inside the buckets is order of the absolute starts. */
  lemma BucketsAscend(idx: seq<u32>, low: seq<u16>)
    requires Shape4(idx, |low|) && forall g: nat :: g < V4_BUCKETS ==> BucketAscends(idx, low, g)
    ensures Ascending(Starts4(idx, low))
  {
    var s := Starts4(idx, low);
    forall k | 0 < k < |s|
      ensures s[k - 1] < s[k]
    {
      var g := Bucket(idx, |low|, k);
      Tables4.StartInBucket(idx, low, k, g);
      Tables4.StartInBucket(idx, low, k - 1, g);
      assert BucketAscends(idx, low, g);
    }
    AscendingBySteps(s);
  }

  method CheckIPv4(v4idx: bytes, v4starts: bytes) returns (ok: bool)
    requires |v4idx| == 262148 && |v4starts| / 2 < 0x8000_0000
    ensures ok <==> Valid4(U32s(v4idx), U16s(v4starts))
  {
    hide Valid4, Starts4, Shape4, BucketAscends, Rises, Ascending, LE16, LE32;
    var nV4 := |v4starts| / 2;
    ghost var idx, low := U32s(v4idx), U16s(v4starts);
    assert U32At(v4idx, V4_BUCKETS) == idx[V4_BUCKETS] && U32At(v4idx, 0) == idx[0];
    Ends4(idx, low);
    if U32At(v4idx, V4_BUCKETS) != nV4 {
      return false;
    }
    if U32At(v4idx, 0) != 0 {
      return false;
    }
    for bk := 0 to V4_BUCKETS
      invariant Rises(idx, nV4, bk)
      invariant forall g: nat :: g < bk ==> BucketAscends(idx, low, g)
    {
      var lo, hi := U32At(v4idx, bk), U32At(v4idx, bk + 1);
      assert lo == idx[bk] && hi == idx[bk + 1];
      RisesStep(idx, low, bk);
      if hi < lo {
        return false;
      }
      if hi > nV4 {
        return false;
      }
      var i := lo + 1;
      while i < hi
        invariant lo + 1 <= i
        invariant forall x :: lo < x < i && x < hi ==> low[x - 1] < low[x]
      {
        if U16At(v4starts, i) <= U16At(v4starts, i - 1) {
          OutOfOrder4(idx, low, bk, i);
          return false;
        }
        i := i + 1;
      }
      BucketDone(idx, low, bk);
    }
    RisesAll(idx, low);
    return true;
  }

  /** The index entries up to bucket bk do not fall and stay in the table. */
  ghost predicate Rises(idx: seq<u32>, n: nat, bk: nat) {
    bk < |idx| && forall g, h :: 0 <= g <= h <= bk ==> idx[g] <= idx[h] <= n
  }

  lemma Ends4(idx: seq<u32>, low: seq<u16>)
    requires |idx| == V4_BUCKETS + 1
    ensures Valid4(idx, low) ==> idx[0] == 0 && idx[V4_BUCKETS] == |low|
    ensures idx[0] == 0 ==> Rises(idx, |low|, 0)
  {
    hide Starts4;
  }

  lemma RisesStep(idx: seq<u32>, low: seq<u16>, bk: nat)
    requires |idx| == V4_BUCKETS + 1 && bk < V4_BUCKETS && Rises(idx, |low|, bk)
    ensures idx[bk] <= idx[bk + 1] <= |low| ==> Rises(idx, |low|, bk + 1)
    ensures Valid4(idx, low) ==> idx[bk] <= idx[bk + 1] <= |low|
  {
    hide Starts4;
    assert Valid4(idx, low) ==> idx[bk + 1] <= idx[V4_BUCKETS];
  }

  lemma RisesAll(idx: seq<u32>, low: seq<u16>)
    requires |idx| == V4_BUCKETS + 1 && |low| < 0x8000_0000 && Rises(idx, |low|, V4_BUCKETS)
    requires idx[0] == 0 && idx[V4_BUCKETS] == |low|
    requires forall g: nat :: g < V4_BUCKETS ==> BucketAscends(idx, low, g)
    ensures Valid4(idx, low)
  {
    hide BucketAscends, Starts4;
    BucketsAscend(idx, low);
  }

  lemma BucketDone(idx: seq<u32>, low: seq<u16>, g: nat)
    requires g + 1 < |idx| && idx[g + 1] <= |low|
    requires forall x :: idx[g] < x < idx[g + 1] ==> low[x - 1] < low[x]
    ensures BucketAscends(idx, low, g)
  {
  }

  // ---- IPv6 ----------------------------------------------------------------------

  /** The exception checks of checkIPv6. */
  method CheckExceptions(nV6: nat, v6excIdx: bytes, v6excLo: bytes) returns (ok: bool)
    requires |v6excIdx| / 4 == |v6excLo| / 8
    ensures ok <==> ValidExceptions(nV6, U32s(v6excIdx), U64s(v6excLo))
  {
    hide LE32, LE64;
    ghost var idx, lo := U32s(v6excIdx), U64s(v6excLo);
    for j := 0 to |v6excIdx| / 4
      invariant forall x :: 0 <= x < j ==> idx[x] < nV6 && lo[x] != 0 && (x > 0 ==> idx[x - 1] < idx[x])
    {
      var i := U32At(v6excIdx, j);
      if i >= nV6 {
        return false;
      }
      if j > 0 && i <= U32At(v6excIdx, j - 1) {
        return false;
      }
      if U64At(v6excLo, j) == 0 {
        return false;
      }
    }
    AscendingBySteps(idx);
    return true;
  }

  /** checkIPv6, its merge pointer running over the exceptions. */
  method CheckIPv6(v6hi: bytes, v6excIdx: bytes, v6excLo: bytes) returns (ok: bool)
    requires |v6excIdx| / 4 == |v6excLo| / 8 && |v6hi| / 8 < MAX_V6
    ensures ok <==> Valid6(U64s(v6hi), U32s(v6excIdx), U64s(v6excLo))
  {
    hide LE32, LE64, Starts6, Ascending;
    var nV6, nExc := |v6hi| / 8, |v6excIdx| / 4;
    ok := CheckExceptions(nV6, v6excIdx, v6excLo);
    if !ok {
      return;
    }
    ghost var hi, idx, los := U64s(v6hi), U32s(v6excIdx), U64s(v6excLo);
    ghost var starts := Starts6(hi, idx, los);
    var j: nat := 0;
    var ph: u64, pl: u64 := 0, 0;
    MergeStart(idx);
    for i := 0 to nV6
      invariant Cut(idx, j, i)
      invariant i > 0 ==> ph == hi[i - 1] && pl == LowOf(idx, los, i - 1)
      invariant forall k :: 0 < k < i ==> starts[k - 1] < starts[k]
    {
      var h, l: u64 := U64At(v6hi, i), 0;
      ghost var j0 := j;
      MergeStep(idx, los, j, i);
      if j < nExc && U32At(v6excIdx, j) == i {
        l := U64At(v6excLo, j);
        j := j + 1;
      }
      if i > 0 {
        CompareStart(hi, idx, los, i, ph, pl);
        PreviousStart(hi, idx, los, i - 1);
        if h < ph {
          NotAscending(starts, i);
          return false;
        }
        if !Less128(ph, pl, h, l) {
          NotAscending(starts, i);
          return false;
        }
      }
      ph, pl := h, l;
    }
    AscendingBySteps(starts);
    return true;
  }

  lemma MergeStart(idx: seq<u32>)
    ensures Cut(idx, 0, 0)
  {
  }

  /** The merge pointer finds boundary i's low half, as LowOf does. */
  lemma MergeStep(idx: seq<u32>, los: seq<u64>, j: nat, i: nat)
    requires Cut(idx, j, i) && Ascending(idx) && |idx| == |los|
    ensures if j < |idx| && idx[j] == i then LowOf(idx, los, i) == los[j] && Cut(idx, j + 1, i + 1)
            else LowOf(idx, los, i) == 0 && Cut(idx, j, i + 1)
  {
    if j < |idx| && idx[j] == i {
      LowOfAt(idx, los, j);
    } else {
      assert i !in idx;
    }
  }

  lemma PreviousStart(hi: seq<u64>, idx: seq<u32>, los: seq<u64>, i: nat)
    requires |idx| == |los| && i < |hi|
    ensures Starts6(hi, idx, los)[i] == hi[i] * TWO64 + LowOf(idx, los, i)
  {
  }

  lemma NotAscending(s: seq<int>, i: nat)
    requires 0 < i < |s| && s[i] <= s[i - 1]
    ensures !Ascending(s)
  {
  }
}
