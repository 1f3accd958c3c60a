/** transcode's range tables (geo1.go): IPv4 starts become a bucket index and
    u16 values, IPv6 starts become top halves and exceptions, ids shrink to the
    minimal width. The absolute starts and the ids stay the same. */
module Geo1Tables {
  import opened Words
  import opened Ids
  import opened Addresses
  import opened Boundaries
  import opened Geo1Format

  lemma Append16(b: bytes, v: nat)
    requires |b| % 2 == 0
    ensures |b + Put16(v)| == |b| + 2 && U16s(b + Put16(v)) == U16s(b) + [v % 0x1_0000]
  {
    var c, d := b + Put16(v), Put16(v);
    assert LE16(c, |b|) == LE16(d, 0);
    assert forall i :: 0 <= i < |b| / 2 ==> LE16(c, i * 2) == LE16(b, i * 2);
  }

  lemma Append32(b: bytes, v: nat)
    requires |b| % 4 == 0 && v < TWO32
    ensures |b + Put32(v)| == |b| + 4 && U32s(b + Put32(v)) == U32s(b) + [v]
  {
    hide Put32;
    var c, d := b + Put32(v), Put32(v);
    assert LE32(c, |b|) == LE32(d, 0);
    assert forall i :: 0 <= i < |b| / 4 ==> LE32(c, i * 4) == LE32(b, i * 4);
  }

  lemma Append64(b: bytes, v: nat)
    requires |b| % 8 == 0 && v < TWO64
    ensures |b + Put64(v)| == |b| + 8 && U64s(b + Put64(v)) == U64s(b) + [v]
  {
    hide Put64;
    var c, d := b + Put64(v), Put64(v);
    assert LE64(c, |b|) == LE64(d, 0);
    assert forall i :: 0 <= i < |b| / 8 ==> LE64(c, i * 8) == LE64(b, i * 8);
  }

  /** The ids of a table, narrowed. */
  method NarrowIds(ids: bytes, rc: nat) returns (out: bytes)
    requires 1 <= rc <= TWO32 && IdsBelow(ids, rc)
    ensures IdsOf(out, IDWidth(rc)) == U32s(ids) && |out| == Size(|ids| / 4, IDWidth(rc))
  {
    hide ReadID, AppendID, IDWidth;
    var w := IDWidth(rc);
    out := [];
    ghost var all := U32s(ids);
    for i := 0 to |ids| / 4
      invariant |out| == Size(i, w) && IdsOf(out, w) == all[..i]
    {
      AppendReadBack(out, w, U32At(ids, i), i);
      out := AppendID(out, w, U32At(ids, i));
      assert all[..i + 1] == all[..i] + [all[i]];
    }
    assert all[..|ids| / 4] == all;
  }

  // ---- IPv4 ----------------------------------------------------------------------------------

  ghost function Buckets(starts: seq<int>): (b: seq<int>)
    ensures |b| == |starts|
  {
    seq(|starts|, i requires 0 <= i < |starts| => starts[i] / 0x1_0000)
  }

  ghost predicate InSpace4(starts: seq<int>) {
    Ascending(starts) && forall i :: 0 <= i < |starts| ==> 0 <= starts[i] < TWO32
  }

  /** The first b entries of V4IDX: entry x is the first boundary of bucket x or later. */
  ghost predicate IndexSoFar(idx: seq<u32>, starts: seq<int>) {
    forall x :: 0 <= x < |idx| ==> Cut(Buckets(starts), idx[x], x)
  }

  /** The low 16 bits of the first n starts. */
  ghost predicate LowsSoFar(low: seq<u16>, starts: seq<int>, n: nat) {
    |low| == n <= |starts| && forall j :: 0 <= j < n ==> low[j] == starts[j] % 0x1_0000
  }

  lemma NothingSoFar(starts: seq<int>)
    ensures IndexSoFar([], starts) && LowsSoFar([], starts, 0)
  {
  }

  lemma NextLow(low: seq<u16>, starts: seq<int>, n: nat)
    requires LowsSoFar(low, starts, n) && n < |starts|
    ensures LowsSoFar(low + [starts[n] % 0x1_0000], starts, n + 1)
  {
  }

  lemma NextIndex(idx: seq<u32>, starts: seq<int>, i: nat, x: nat)
    requires InSpace4(starts) && i <= |starts| && |idx| == x && i < TWO32
    requires i > 0 ==> starts[i - 1] / 0x1_0000 < x
    requires i < |starts| ==> x <= starts[i] / 0x1_0000
    requires IndexSoFar(idx, starts)
    ensures IndexSoFar(idx + [i], starts)
  {
    hide Cut, InSpace4;
    NextEntry(starts, i, x);
  }

  /** Boundary i begins every bucket past those of earlier boundaries. */
  lemma NextEntry(starts: seq<int>, i: nat, x: nat)
    requires InSpace4(starts) && i <= |starts|
    requires i > 0 ==> starts[i - 1] / 0x1_0000 < x
    requires i < |starts| ==> x <= starts[i] / 0x1_0000
    ensures Cut(Buckets(starts), i, x)
  {
    var b := Buckets(starts);
    forall j | 0 <= j < i
      ensures b[j] < x
    {
      assert j < i - 1 ==> starts[j] < starts[i - 1];
      DivMonotone(starts[j], starts[i - 1], 0x1_0000);
    }
    forall j | i <= j < |starts|
      ensures x <= b[j]
    {
      assert i < j ==> starts[i] < starts[j];
      DivMonotone(starts[i], starts[j], 0x1_0000);
    }
  }

  /** A complete index is a valid V4IDX, and splits every start losslessly. */
  lemma IndexSplits(idx: seq<u32>, low: seq<u16>, starts: seq<int>)
    requires InSpace4(starts) && |idx| == V4_BUCKETS + 1 && IndexSoFar(idx, starts)
    requires |low| == |starts| < 0x8000_0000 && LowsSoFar(low, starts, |starts|)
    ensures Valid4(idx, low) && Starts4(idx, low) == starts
  {
    var b := Buckets(starts);
    IndexShape(idx, starts);
    forall i | 0 <= i < |starts|
      ensures Starts4(idx, low)[i] == starts[i]
    {
      var g := starts[i] / 0x1_0000;
      assert b[i] == g && 0 <= g < V4_BUCKETS;
      assert Cut(b, idx[g], g) && Cut(b, idx[g + 1], g + 1);
      BucketUnique(idx, |low|, i, g);
    }
  }

  lemma IndexShape(idx: seq<u32>, starts: seq<int>)
    requires InSpace4(starts) && |idx| == V4_BUCKETS + 1 && IndexSoFar(idx, starts)
    ensures Shape4(idx, |starts|)
  {
    var b := Buckets(starts);
    forall g, h | 0 <= g <= h <= V4_BUCKETS
      ensures idx[g] <= idx[h]
    {
      CutOrder(b, idx[g], g, idx[h], h);
    }
    assert Cut(b, idx[0], 0) && Cut(b, idx[V4_BUCKETS], V4_BUCKETS);
    assert forall i :: 0 <= i < |b| ==> 0 <= b[i] < V4_BUCKETS;
    var n := idx[V4_BUCKETS];
    var after := if n < |b| then b[n] else V4_BUCKETS;
    var before := if idx[0] > 0 && |b| > 0 then b[0] else -1;
    assert after >= V4_BUCKETS && before < 0;
  }

  method SplitStarts4(starts4: bytes) returns (v4idx: bytes, v4starts: bytes)
    requires Ascending(Flat4(starts4)) && |starts4| / 4 < 0x8000_0000
    ensures |v4idx| == 262148 && |v4starts| == |starts4| / 4 * 2
    ensures Valid4(U32s(v4idx), U16s(v4starts)) && Starts4(U32s(v4idx), U16s(v4starts)) == Flat4(starts4)
  {
    hide LE32, LE16, Put32, Put16, Ascending, Buckets, Cut, Starts4, Shape4, Valid4, IndexSoFar, LowsSoFar;
    var n4 := |starts4| / 4;
    ghost var starts := Flat4(starts4);
    v4idx, v4starts := [], [];
    NothingSoFar(starts);
    assert U32s(v4idx) == [] && U16s(v4starts) == [];
    var b := 0;
    for i := 0 to n4
      invariant |v4idx| == b * 4 && b <= V4_BUCKETS && |v4starts| == i * 2
      invariant IndexSoFar(U32s(v4idx), starts)
      invariant LowsSoFar(U16s(v4starts), starts, i)
      invariant if i > 0 then b == starts[i - 1] / 0x1_0000 + 1 else b == 0
    {
      var s := U32At(starts4, i);
      assert s == starts[i];
      StartOrder(starts, i);
      while b <= s / 0x1_0000
        invariant |v4idx| == b * 4 && b <= s / 0x1_0000 + 1
        invariant IndexSoFar(U32s(v4idx), starts)
        invariant i > 0 ==> starts[i - 1] / 0x1_0000 < b
      {
        NextIndex(U32s(v4idx), starts, i, b);
        Append32(v4idx, i);
        v4idx := v4idx + Put32(i);
        b := b + 1;
      }
      NextLow(U16s(v4starts), starts, i);
      Append16(v4starts, s);
      v4starts := v4starts + Put16(s);
    }
    while b <= V4_BUCKETS
      invariant |v4idx| == b * 4 && b <= V4_BUCKETS + 1
      invariant IndexSoFar(U32s(v4idx), starts)
      invariant n4 > 0 ==> starts[n4 - 1] / 0x1_0000 < b
    {
      NextIndex(U32s(v4idx), starts, n4, b);
      Append32(v4idx, n4);
      v4idx := v4idx + Put32(n4);
      b := b + 1;
    }
    IndexSplits(U32s(v4idx), U16s(v4starts), starts);
  }

  /** The bucket of a start is not below the one before it. */
  lemma StartOrder(starts: seq<int>, i: nat)
    requires InSpace4(starts) && i < |starts|
    ensures i > 0 ==> starts[i - 1] / 0x1_0000 <= starts[i] / 0x1_0000
  {
    if i > 0 {
      assert starts[i - 1] < starts[i];
      DivMonotone(starts[i - 1], starts[i], 0x1_0000);
    }
  }

  // ---- IPv6 ----------------------------------------------------------------------------------

  /** The exceptions of the first i boundaries are their non-zero low halves. */
  ghost predicate ExceptionsSoFar(idx: seq<u32>, lo: seq<u64>, starts: seq<int>, i: nat)
    requires i <= |starts| && forall j :: 0 <= j < |starts| ==> 0 <= starts[j] < TWO128
  {
    && ValidExceptions(i, idx, lo)
    && forall j :: 0 <= j < i ==> LowOf(idx, lo, j) == starts[j] % TWO64
  }

  lemma OneMoreException(idx: seq<u32>, lo: seq<u64>, starts: seq<int>, i: nat)
    requires i < |starts| && i < TWO32 && forall j :: 0 <= j < |starts| ==> 0 <= starts[j] < TWO128
    requires ExceptionsSoFar(idx, lo, starts, i)
    ensures var l := starts[i] % TWO64;
      if l == 0 then ExceptionsSoFar(idx, lo, starts, i + 1) else ExceptionsSoFar(idx + [i], lo + [l], starts, i + 1)
  {
    var l := starts[i] % TWO64;
    var idx', lo' := if l == 0 then idx else idx + [i], if l == 0 then lo else lo + [l];
    assert i !in idx;
    assert ValidExceptions(i + 1, idx', lo');
    forall j | 0 <= j < i + 1
      ensures LowOf(idx', lo', j) == starts[j] % TWO64
    {
      if j in idx {
        var x :| 0 <= x < |idx| && idx[x] == j;
        LowOfAt(idx, lo, x);
        assert idx'[x] == j;
        LowOfAt(idx', lo', x);
      } else if j == i && l != 0 {
        assert idx'[|idx|] == j;
        LowOfAt(idx', lo', |idx|);
      } else {
        assert j !in idx';
      }
    }
  }

  method SplitStarts6(starts6: bytes) returns (v6hi: bytes, v6excIdx: bytes, v6excLo: bytes)
    requires Ascending(Flat6(starts6)) && |starts6| / 16 < MAX_V6
    ensures |v6hi| == |starts6| / 16 * 8 && |v6excIdx| / 4 == |v6excLo| / 8
    ensures Valid6(U64s(v6hi), U32s(v6excIdx), U64s(v6excLo))
    ensures Starts6(U64s(v6hi), U32s(v6excIdx), U64s(v6excLo)) == Flat6(starts6)
  {
    hide LE32, LE64, BE64, Put32, Put64, Ascending, Starts6, LowOf;
    ghost var starts := Flat6(starts6);
    v6hi, v6excIdx, v6excLo := [], [], [];
    NoExceptions(starts);
    for i := 0 to |starts6| / 16
      invariant |v6hi| == i * 8 && |v6excIdx| % 4 == 0 && |v6excLo| == |v6excIdx| / 4 * 8
      invariant forall j :: 0 <= j < i ==> U64s(v6hi)[j] == starts[j] / TWO64
      invariant ExceptionsSoFar(U32s(v6excIdx), U64s(v6excLo), starts, i)
    {
      var hi, lo := BE64(starts6, i * 16), BE64(starts6, i * 16 + 8);
      assert starts[i] == Join(hi, lo);
      assert starts[i] / TWO64 == hi && starts[i] % TWO64 == lo;
      Append64(v6hi, hi);
      v6hi := v6hi + Put64(hi);
      OneMoreException(U32s(v6excIdx), U64s(v6excLo), starts, i);
      if lo != 0 {
        Append32(v6excIdx, i);
        Append64(v6excLo, lo);
        v6excIdx := v6excIdx + Put32(i);
        v6excLo := v6excLo + Put64(lo);
      }
    }
    HalvesJoin(U64s(v6hi), U32s(v6excIdx), U64s(v6excLo), starts);
  }

  lemma NoExceptions(starts: seq<int>)
    requires forall j :: 0 <= j < |starts| ==> 0 <= starts[j] < TWO128
    ensures ExceptionsSoFar(U32s([]), U64s([]), starts, 0)
  {
    assert U32s([]) == [] && U64s([]) == [];
  }

  lemma HalvesJoin(hi: seq<u64>, idx: seq<u32>, lo: seq<u64>, starts: seq<int>)
    requires |hi| == |starts| < MAX_V6 && Ascending(starts) && forall j :: 0 <= j < |starts| ==> 0 <= starts[j] < TWO128
    requires ExceptionsSoFar(idx, lo, starts, |starts|)
    requires forall j :: 0 <= j < |hi| ==> hi[j] == starts[j] / TWO64
    ensures Starts6(hi, idx, lo) == starts && Valid6(hi, idx, lo)
  {
    forall j | 0 <= j < |hi|
      ensures Starts6(hi, idx, lo)[j] == starts[j]
    {
      assert starts[j] == starts[j] / TWO64 * TWO64 + starts[j] % TWO64;
    }
  }
}
