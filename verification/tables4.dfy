/** The top-20 IPv4 jump table of reader.go and the window search over it. */
module Tables4 {
  import opened Words
  import opened Boundaries

  const SLOTS4: nat := 0x10_0000  // 1 << v4IdxBits
  const SPAN4: nat := 0x1000      // 1 << v4Shift

  /** lo4[g] is the index of the first boundary at or above g << v4Shift. */
  ghost predicate Jump4(starts: seq<int>, lo4: seq<int>) {
    && |lo4| == SLOTS4 + 1
    && forall g :: 0 <= g <= SLOTS4 ==> Cut(starts, lo4[g], g * SPAN4)
  }

  /** The first n entries of a jump table are done. */
  ghost predicate CutsTo(starts: seq<int>, lo4: seq<int>, n: nat) {
    n <= |lo4| == SLOTS4 + 1 && forall x :: 0 <= x < n ==> Cut(starts, lo4[x], x * SPAN4)
  }

  lemma NoCuts(starts: seq<int>, lo4: seq<int>)
    requires |lo4| == SLOTS4 + 1
    ensures CutsTo(starts, lo4, 0)
  {
  }

  lemma NextCut(starts: seq<int>, before: seq<int>, lo4: seq<int>, n: nat)
    requires CutsTo(starts, before, n) && n < SLOTS4 && |lo4| == SLOTS4 + 1 && Cut(starts, lo4[n], n * SPAN4)
    requires lo4 == before[n := lo4[n]]
    ensures CutsTo(starts, lo4, n + 1)
  {
    hide Cut;
  }

  /** The last entry is past every boundary. */
  lemma AllCuts(idx: seq<u32>, low: seq<u16>, before: seq<int>, lo4: seq<int>)
    requires Valid4(idx, low) && CutsTo(Starts4(idx, low), before, SLOTS4)
    requires lo4 == before[SLOTS4 := |low|]
    ensures Jump4(Starts4(idx, low), lo4)
  {
    forall i | 0 <= i < |low|
      ensures Starts4(idx, low)[i] < SLOTS4 * SPAN4
    {
      StartInBucket(idx, low, i, 0);
    }
    assert Cut(Starts4(idx, low), |low|, SLOTS4 * SPAN4);
  }

  lemma IndexBounds(idx: seq<u32>, low: seq<u16>, g: nat)
    requires Valid4(idx, low) && g < V4_BUCKETS
    ensures |idx| == V4_BUCKETS + 1 && 0 <= idx[g] <= idx[g + 1] <= |low|
  {
    assert idx[g + 1] <= idx[V4_BUCKETS];
  }

  /** The bounds of boundary i's bucket, and of its absolute start. */
  lemma StartInBucket(idx: seq<u32>, low: seq<u16>, i: int, g: int)
    requires Shape4(idx, |low|) && 0 <= i < |low| && 0 <= g < V4_BUCKETS
    ensures var s := Starts4(idx, low)[i];
      && (i < idx[g] ==> s < g * 0x1_0000)
      && (idx[g] <= i < idx[g + 1] ==> s == g * 0x1_0000 + low[i])
      && (idx[g + 1] <= i ==> (g + 1) * 0x1_0000 <= s)
      && 0 <= s < TWO32
  {
    var b := Bucket(idx, |low|, i);
    if idx[g] <= i < idx[g + 1] {
      BucketUnique(idx, |low|, i, g);
    }
  }

  lemma Ascends4(idx: seq<u32>, low: seq<u16>)
    requires Valid4(idx, low)
    ensures Shape4(idx, |low|) && Ascending(Starts4(idx, low))
  {
  }

  /** Where bucket g's scan stops is where its sub-bucket k begins. */
  lemma SubBucketCut(idx: seq<u32>, low: seq<u16>, g: int, k: int, i: int)
    requires Valid4(idx, low) && 0 <= g < V4_BUCKETS && 0 <= k < 16
    requires idx[g] <= i <= idx[g + 1]
    requires forall j :: idx[g] <= j < i ==> low[j] < k * SPAN4
    requires i < idx[g + 1] ==> k * SPAN4 <= low[i]
    ensures Cut(Starts4(idx, low), i, (g * 16 + k) * SPAN4)
  {
    var s, x := Starts4(idx, low), g * 0x1_0000 + k * 0x1000;
    assert x == (g * 16 + k) * SPAN4;
    IndexBounds(idx, low, g);
    Ascends4(idx, low);
    hide Valid4, Shape4, Starts4;
    forall j | 0 <= j < i
      ensures s[j] < x
    {
      StartInBucket(idx, low, j, g);
    }
    forall j | i <= j < |s|
      ensures x <= s[j]
    {
      StartInBucket(idx, low, j, g);
      if j < idx[g + 1] {
        StartInBucket(idx, low, i, g);
        AscendingSplit(s, i);
      }
    }
  }

  /** Inside a window, comparing the low 16 bits compares absolute starts. */
  lemma WindowCompare(idx: seq<u32>, low: seq<u16>, key: u32, i: int)
    requires Shape4(idx, |low|) && 0 <= i < |low|
    requires var s := Starts4(idx, low)[i]; key / SPAN4 * SPAN4 <= s < (key / SPAN4 + 1) * SPAN4
    ensures low[i] > key % 0x1_0000 <==> Starts4(idx, low)[i] > key
  {
    var b := Bucket(idx, |low|, i);
    var s := Starts4(idx, low)[i];
    assert s == b * 0x1_0000 + low[i];
    assert s / 0x1_0000 == b;
    assert s / SPAN4 == key / SPAN4;
    assert s / 0x1_0000 == s / SPAN4 / 16;
    assert key / 0x1_0000 == key / SPAN4 / 16;
  }

  /** The window of a key: every boundary before it is at or below the key,
      every boundary after it above, and inside it the low halves decide. */
  lemma WindowOfKey(idx: seq<u32>, low: seq<u16>, lo4: seq<int>, key: u32)
    requires Shape4(idx, |low|) && Jump4(Starts4(idx, low), lo4)
    ensures |lo4| == SLOTS4 + 1
    ensures var g, s := key / SPAN4, Starts4(idx, low);
      && g < SLOTS4 && 0 <= lo4[g] <= lo4[g + 1] <= |s|
      && (forall j :: 0 <= j < lo4[g] ==> s[j] <= key)
      && (forall j :: lo4[g + 1] <= j < |s| ==> key < s[j])
      && (forall j :: lo4[g] <= j < lo4[g + 1] ==> (low[j] > key % 0x1_0000 <==> s[j] > key))
  {
    var g, s := key / SPAN4, Starts4(idx, low);
    var l, h := lo4[g], lo4[g + 1];
    assert Cut(s, l, g * SPAN4) && Cut(s, h, (g + 1) * SPAN4);
    CutOrder(s, l, g * SPAN4, h, (g + 1) * SPAN4);
    forall j | l <= j < h
      ensures low[j] > key % 0x1_0000 <==> s[j] > key
    {
      WindowCompare(idx, low, key, j);
    }
  }
}
