/** The two-level IPv6 table of reader.go: a directory of top-16 buckets, each
    with its own power-of-two number of level-2 slots, the exception flags and
    the exception bitmap. */
module Tables6 {
  import opened Words
  import opened Boundaries
  import opened Bitmaps

  const MAX_L2_BITS: nat := 16
  const SLOT_STARTS: nat := 8
  const KBITS: nat := 32            // 1 << v6KBits
  const SLOT_EXC: nat := 0x8000_0000
  const BUCKETS6: nat := 0x1_0000
  const MAX_SLOTS: nat := 0x800_0000  // slots << v6KBits fits a u32

  function Top(hi: u64): (g: nat)
    ensures g < BUCKETS6
  {
    hi / 0x1_0000_0000_0000
  }

  /** The shifts of v6Slot, on 64-bit words. */
  function V6Slot(hi: u64, k: nat): nat
    requires k <= MAX_L2_BITS
  {
    hi * 0x1_0000 % 0x1_0000_0000_0000_0000 / 2 / Pow2((63 - k) % 64)
  }

  /** v6Slot is the k bits after the top 16. */
  lemma V6SlotMeaning(hi: u64, k: nat)
    requires k <= MAX_L2_BITS
    ensures V6Slot(hi, k) == hi % 0x1_0000_0000_0000 / Pow2(48 - k)
    ensures V6Slot(hi, k) < Pow2(k)
  {
    Pow2Words();
    hide Pow2;
    var x := hi % 0x1_0000_0000_0000;
    ShiftUp(hi);
    Pow2Add(15, 48 - k);
    ModSplit(x * 0x8000, 0x8000, Pow2(48 - k));
    Pow2Add(k, 48 - k);
    DivBelow(x, Pow2(k), Pow2(48 - k));
  }

  lemma ShiftUp(hi: u64)
    ensures hi * 0x1_0000 % 0x1_0000_0000_0000_0000 / 2 == hi % 0x1_0000_0000_0000 * 0x8000
    ensures hi % 0x1_0000_0000_0000 * 0x8000 / 0x8000 == hi % 0x1_0000_0000_0000
  {
    var x, q := hi % 0x1_0000_0000_0000, hi / 0x1_0000_0000_0000;
    DivModUnique(hi * 0x1_0000, 0x1_0000_0000_0000_0000, q, x * 0x1_0000);
  }

  lemma V6SlotMonotone(a: u64, b: u64, k: nat)
    requires k <= MAX_L2_BITS && a <= b && Top(a) == Top(b)
    ensures V6Slot(a, k) <= V6Slot(b, k)
  {
    V6SlotMeaning(a, k);
    V6SlotMeaning(b, k);
    DivMonotone(a % 0x1_0000_0000_0000, b % 0x1_0000_0000_0000, Pow2(48 - k));
  }

  // ---- the directory --------------------------------------------------------

  function Off(d: int): int { d / KBITS }
  function Bits(d: int): int { d % KBITS }
  function End(d: int): int { Off(d) + Pow2(Bits(d)) }

  predicate Adjacent(dir: seq<int>, g: nat)
    requires g + 1 < |dir|
  {
    End(dir[g]) == Off(dir[g + 1])
  }

  /** The first n buckets tile the slots [0, slots) in order. */
  ghost predicate Tiled(dir: seq<int>, n: nat, slots: nat) {
    && n <= |dir|
    && (forall g :: 0 <= g < n ==> 0 <= Off(dir[g]) && Bits(dir[g]) <= MAX_L2_BITS)
    && (forall g, h :: 0 <= g < h < n ==> End(dir[g]) <= Off(dir[h]))
    && (forall g :: 0 <= g < n - 1 ==> Adjacent(dir, g))
    && (if n == 0 then slots == 0 else Off(dir[0]) == 0 && End(dir[n - 1]) == slots)
  }

  ghost predicate Dir(dir: seq<int>, slots: nat) {
    |dir| == BUCKETS6 && slots < MAX_SLOTS && Tiled(dir, BUCKETS6, slots)
  }

  /** The level-2 slot of a top half, counted over all buckets. */
  function SlotOf(dir: seq<int>, hi: u64): int
    requires |dir| == BUCKETS6 && Bits(dir[Top(hi)]) <= MAX_L2_BITS
  {
    Off(dir[Top(hi)]) + V6Slot(hi, Bits(dir[Top(hi)]))
  }

  lemma SlotInBucket(dir: seq<int>, slots: nat, hi: u64)
    requires Dir(dir, slots)
    ensures |dir| == BUCKETS6
    ensures var d := dir[Top(hi)];
      0 <= Bits(d) <= MAX_L2_BITS && 0 <= Off(d) <= SlotOf(dir, hi) < End(d) <= slots
  {
    var g := Top(hi);
    V6SlotMeaning(hi, Bits(dir[g]));
    assert g < BUCKETS6 - 1 ==> End(dir[g]) <= Off(dir[BUCKETS6 - 1]);
  }

  lemma SlotMonotone(dir: seq<int>, slots: nat, a: u64, b: u64)
    requires Dir(dir, slots) && a <= b
    ensures SlotOf(dir, a) <= SlotOf(dir, b)
  {
    SlotInBucket(dir, slots, a);
    SlotInBucket(dir, slots, b);
    DivMonotone(a, b, 0x1_0000_0000_0000);
    if Top(a) == Top(b) {
      V6SlotMonotone(a, b, Bits(dir[Top(a)]));
    } else {
      assert End(dir[Top(a)]) <= Off(dir[Top(b)]);
    }
  }

  ghost function SlotsOf(dir: seq<int>, slots: nat, hi: seq<u64>): (s: seq<int>)
    requires Dir(dir, slots)
    ensures |s| == |hi|
  {
    seq(|hi|, i requires 0 <= i < |hi| => SlotOf(dir, hi[i]))
  }

  // ---- level 2 --------------------------------------------------------------

  /** The entries of both levels are 32-bit words. */
  ghost predicate Words32(dir: seq<int>, l2: seq<int>) {
    && (forall g :: 0 <= g < |dir| ==> dir[g] < TWO32)
    && (forall s :: 0 <= s < |l2| ==> 0 <= l2[s] < TWO32)
  }

  /** The index bits of every level-2 entry: the first start in its slot or a
      later one. */
  ghost predicate Level2(dir: seq<int>, slots: nat, l2: seq<int>, hi: seq<u64>) {
    && Dir(dir, slots)
    && |l2| == slots + 1 && Words32(dir, l2)
    && (forall s :: 0 <= s <= slots ==> Cut(SlotsOf(dir, slots, hi), l2[s] % SLOT_EXC, s))
  }

  /** Bit 31 of an entry: whether its slot holds an exception. */
  ghost predicate Flags(dir: seq<int>, slots: nat, l2: seq<int>, hi: seq<u64>, exc: seq<u32>)
    requires Level2(dir, slots, l2, hi) && forall j :: 0 <= j < |exc| ==> exc[j] < |hi|
  {
    forall s :: 0 <= s < slots ==>
      (l2[s] >= SLOT_EXC <==> exists j :: 0 <= j < |exc| && SlotOf(dir, hi[exc[j]]) == s)
  }

  lemma SlotInTable(dir: seq<int>, slots: nat, l2: seq<int>, hi: seq<u64>, key: u64)
    requires Level2(dir, slots, l2, hi)
    ensures |dir| == BUCKETS6 && |l2| == slots + 1 && 0 <= Bits(dir[Top(key)]) <= MAX_L2_BITS
    ensures 0 <= SlotOf(dir, key) < slots && 0 <= l2[SlotOf(dir, key)]
  {
    hide Dir;
    SlotInBucket(dir, slots, key);
  }

  /** The starts outside the key's slot are strictly on their side of it. */
  lemma WindowOfKey(dir: seq<int>, slots: nat, l2: seq<int>, hi: seq<u64>, key: u64)
    requires Level2(dir, slots, l2, hi)
    ensures |dir| == BUCKETS6 && Bits(dir[Top(key)]) <= MAX_L2_BITS
    ensures var s := SlotOf(dir, key);
      && 0 <= s < slots
      && var l, h := l2[s] % SLOT_EXC, l2[s + 1] % SLOT_EXC;
      && l <= h <= |hi|
      && (forall j :: 0 <= j < l ==> hi[j] < key)
      && (forall j :: h <= j < |hi| ==> key < hi[j])
      && (forall j :: l <= j < h ==> SlotOf(dir, hi[j]) == s)
  {
    SlotInTable(dir, slots, l2, hi, key);
    hide Dir, SlotOf, SlotsOf, Cut;
    var s := SlotOf(dir, key);
    WindowBounds(dir, slots, hi, key, l2[s] % SLOT_EXC, l2[s + 1] % SLOT_EXC);
  }

  lemma WindowBounds(dir: seq<int>, slots: nat, hi: seq<u64>, key: u64, l: int, h: int)
    requires Dir(dir, slots)
    requires Cut(SlotsOf(dir, slots, hi), l, SlotOf(dir, key)) && Cut(SlotsOf(dir, slots, hi), h, SlotOf(dir, key) + 1)
    ensures 0 <= l <= h <= |hi|
    ensures forall j :: 0 <= j < l ==> hi[j] < key
    ensures forall j :: h <= j < |hi| ==> key < hi[j]
    ensures forall j :: l <= j < h ==> SlotOf(dir, hi[j]) == SlotOf(dir, key)
  {
    var s, S := SlotOf(dir, key), SlotsOf(dir, slots, hi);
    hide Dir, SlotOf;
    CutOrder(S, l, s, h, s + 1);
    forall j | 0 <= j < l
      ensures hi[j] < key
    {
      assert S[j] < s;
      SlotBelow(dir, slots, hi[j], key);
    }
    forall j | h <= j < |hi|
      ensures key < hi[j]
    {
      assert s + 1 <= S[j];
      SlotBelow(dir, slots, key, hi[j]);
    }
    forall j | l <= j < h
      ensures SlotOf(dir, hi[j]) == s
    {
      assert s <= S[j] < s + 1;
    }
  }

  lemma SlotBelow(dir: seq<int>, slots: nat, a: u64, b: u64)
    requires Dir(dir, slots) && SlotOf(dir, a) < SlotOf(dir, b)
    ensures a < b
  {
    if b <= a {
      SlotMonotone(dir, slots, b, a);
    }
  }

  // ---- the exception bitmap -------------------------------------------------

  /** Bit i is set exactly for the exceptions. */
  ghost predicate Bitmap(words: seq<nat>, n: nat, exc: seq<u32>) {
    && |words| == (n + 63) / 64
    && (forall x :: 0 <= x < |words| ==> words[x] < TWO64)
    && forall i :: 0 <= i < n ==> (Marked(words, i) <==> i in exc)
  }

  // ---- building -------------------------------------------------------------

  /** v6L2Bits: the least k <= 16 whose 2^k slots leave at most 8 starts each
      on average, and never more than a quarter of a slot per start. */
  method L2Bits(count: nat) returns (k: nat)
    ensures k <= MAX_L2_BITS
    ensures k == MAX_L2_BITS || count <= SLOT_STARTS * Pow2(k)
    ensures forall m: nat :: m < k ==> SLOT_STARTS * Pow2(m) < count
    ensures 4 * Pow2(k) <= 4 + count
  {
    k := 0;
    while k < MAX_L2_BITS && count > SLOT_STARTS * Pow2(k)
      invariant k <= MAX_L2_BITS
      invariant forall m: nat :: m < k ==> SLOT_STARTS * Pow2(m) < count
      invariant 4 * Pow2(k) <= 4 + count
    {
      k := k + 1;
    }
  }

  /** The number of starts in buckets below g. */
  ghost predicate BucketCut(hi: seq<u64>, i: int, g: int) {
    && 0 <= i <= |hi|
    && (forall j :: 0 <= j < i ==> Top(hi[j]) < g)
    && (forall j :: i <= j < |hi| ==> g <= Top(hi[j]))
  }

  lemma NoBuckets(dir: seq<int>)
    ensures Tiled(dir, 0, 0)
  {
  }

  /** An entry unpacks to the offset and bits it was packed from. */
  lemma Unpack(slots: nat, k: nat)
    requires k < KBITS
    ensures Off(slots * KBITS + k) == slots && Bits(slots * KBITS + k) == k
  {
  }

  lemma EndsBelow(dir: seq<int>, g: nat, slots: nat)
    requires Tiled(dir, g, slots)
    ensures forall h :: 0 <= h < g ==> End(dir[h]) <= slots
  {
    hide Off, Bits, Pow2;
    forall h | 0 <= h < g
      ensures End(dir[h]) <= slots
    {
      assert h < g - 1 ==> End(dir[h]) <= Off(dir[g - 1]) <= End(dir[g - 1]);
    }
  }

  lemma AddBucket(before: seq<int>, dir: seq<int>, g: nat, slots: nat, k: nat)
    requires Tiled(before, g, slots) && g < |before| && k <= MAX_L2_BITS
    requires dir == before[g := slots * KBITS + k]
    ensures Off(dir[g]) == slots && Bits(dir[g]) == k
    ensures Tiled(dir, g + 1, slots + Pow2(k))
  {
    EndOf(dir[g], slots, k);
    AddEntry(before, dir, g, slots);
  }

  lemma AddEntry(before: seq<int>, dir: seq<int>, g: nat, slots: nat)
    requires Tiled(before, g, slots) && g < |before|
    requires |dir| == |before| && dir == before[g := dir[g]]
    requires Off(dir[g]) == slots && 0 <= Bits(dir[g]) <= MAX_L2_BITS && 0 <= End(dir[g])
    ensures Tiled(dir, g + 1, End(dir[g]))
  {
    EndsBelow(before, g, slots);
    AdjacentStep(before, dir, g, slots);
    hide Off, Bits, Adjacent, End;
    assert forall h :: 0 <= h < g ==> dir[h] == before[h];
  }

  lemma EndOf(d: int, slots: nat, k: nat)
    requires k < KBITS && d == slots * KBITS + k
    ensures 0 <= d && Off(d) == slots && Bits(d) == k && End(d) == slots + Pow2(k)
  {
    hide Pow2;
    Unpack(slots, k);
  }

  lemma AdjacentStep(before: seq<int>, dir: seq<int>, g: nat, slots: nat)
    requires Tiled(before, g, slots) && g < |before| == |dir| && Off(dir[g]) == slots
    requires forall h :: 0 <= h < g ==> dir[h] == before[h]
    ensures forall h :: 0 <= h < g ==> Adjacent(dir, h)
  {
    hide Off, Bits, Pow2;
    forall h | 0 <= h < g
      ensures Adjacent(dir, h)
    {
      assert h < g - 1 ==> Adjacent(before, h);
    }
  }

  lemma TopMonotone(a: u64, b: u64)
    requires a <= b
    ensures Top(a) <= Top(b)
  {
  }

  /** A scan over the starts of one bucket ends at the next bucket's first. */
  lemma BucketScanned(hi: seq<u64>, first: int, end: int, g: nat)
    requires Sorted(hi) && BucketCut(hi, first, g) && first <= end <= |hi|
    requires forall j :: first <= j < end ==> Top(hi[j]) == g
    requires end < |hi| ==> Top(hi[end]) != g
    ensures BucketCut(hi, end, g + 1)
  {
    forall j | end <= j < |hi|
      ensures g + 1 <= Top(hi[j])
    {
      TopMonotone(hi[end], hi[j]);
    }
  }

  ghost predicate Sorted(hi: seq<u64>) {
    forall i, j :: 0 <= i <= j < |hi| ==> hi[i] <= hi[j]
  }

  /** Where bucket g's scan stops at slot s is the first start of global slot
      Off(g) + s or a later one. */
  lemma SlotCut(dir: seq<int>, slots: nat, hi: seq<u64>, g: int, s: nat, i: int, first: int, end: int)
    requires Dir(dir, slots) && Sorted(hi) && 0 <= g < BUCKETS6 && s < Pow2(Bits(dir[g]))
    requires BucketCut(hi, first, g) && BucketCut(hi, end, g + 1) && first <= i <= end
    requires forall j :: first <= j < i ==> V6Slot(hi[j], Bits(dir[g])) < s
    requires i < end ==> s <= V6Slot(hi[i], Bits(dir[g]))
    ensures Cut(SlotsOf(dir, slots, hi), i, Off(dir[g]) + s)
  {
    var S := SlotsOf(dir, slots, hi);
    forall j | 0 <= j < i
      ensures S[j] < Off(dir[g]) + s
    {
      SlotInBucket(dir, slots, hi[j]);
      assert Top(hi[j]) < g ==> End(dir[Top(hi[j])]) <= Off(dir[g]);
    }
    forall j | i <= j < |hi|
      ensures Off(dir[g]) + s <= S[j]
    {
      SlotInBucket(dir, slots, hi[j]);
      assert g < Top(hi[j]) ==> End(dir[g]) <= Off(dir[Top(hi[j])]);
      if j < end {
        assert Top(hi[i]) == g && Top(hi[j]) == g;
        V6SlotMonotone(hi[i], hi[j], Bits(dir[g]));
      }
    }
  }

  lemma BucketFits(dir: seq<int>, slots: nat, g: nat)
    requires Dir(dir, slots) && g < BUCKETS6
    ensures 0 <= Off(dir[g]) && 0 <= Bits(dir[g]) <= MAX_L2_BITS && End(dir[g]) <= slots
  {
    assert g < BUCKETS6 - 1 ==> End(dir[g]) <= Off(dir[BUCKETS6 - 1]);
  }

  /** Where the starts of bucket g end. */
  ghost function BucketEnd(hi: seq<u64>, first: int, g: nat): (e: int)
    requires Sorted(hi) && BucketCut(hi, first, g)
    ensures first <= e && BucketCut(hi, e, g + 1)
    ensures forall j :: first <= j < e ==> Top(hi[j]) == g
    ensures e < |hi| ==> Top(hi[e]) != g
    decreases |hi| - first
  {
    var e := BucketEndFrom(hi, first, g);
    BucketScanned(hi, first, e, g);
    e
  }

  ghost function BucketEndFrom(hi: seq<u64>, i: int, g: nat): (e: int)
    requires 0 <= i <= |hi|
    ensures i <= e <= |hi|
    ensures forall j :: i <= j < e ==> Top(hi[j]) == g
    ensures e < |hi| ==> Top(hi[e]) != g
    decreases |hi| - i
  {
    if i == |hi| || Top(hi[i]) != g then i else BucketEndFrom(hi, i + 1, g)
  }

  /** Filling every bucket fills level 2. */
  lemma Level2Filled(dir: seq<int>, slots: nat, l2: seq<int>, hi: seq<u64>)
    requires Dir(dir, slots) && |l2| == slots + 1 && |hi| < SLOT_EXC && l2[slots] == |hi|
    requires forall x :: 0 <= x < slots ==> Cut(SlotsOf(dir, slots, hi), l2[x], x)
    requires forall g :: 0 <= g < BUCKETS6 ==> dir[g] < TWO32
    ensures Level2(dir, slots, l2, hi)
    ensures forall x :: 0 <= x < slots ==> l2[x] < SLOT_EXC
  {
    hide Tiled;
    var S := SlotsOf(dir, slots, hi);
    forall i | 0 <= i < |hi|
      ensures S[i] < slots
    {
      SlotInBucket(dir, slots, hi[i]);
    }
    assert Cut(S, l2[slots], slots);
    forall x | 0 <= x <= slots
      ensures 0 <= l2[x] < SLOT_EXC && Cut(S, l2[x] % SLOT_EXC, x)
    {
      assert Cut(S, l2[x], x);
      assert l2[x] % SLOT_EXC == l2[x];
    }
  }

  lemma FlagBit(e: nat)
    ensures (e + SLOT_EXC) % SLOT_EXC == e % SLOT_EXC
    ensures if e / SLOT_EXC % 2 == 1 then e >= SLOT_EXC else e < TWO32 ==> e < SLOT_EXC
  {
    var q, r := e / 0x8000_0000, e % 0x8000_0000;
    DivModUnique(e + 0x8000_0000, 0x8000_0000, q + 1, r);
    assert e < TWO32 ==> q < 2;
  }

  /** Bit 31 of an entry. */
  function SetExc(e: nat): (f: nat)
    ensures f % SLOT_EXC == e % SLOT_EXC && f >= SLOT_EXC
    ensures e < TWO32 ==> f < TWO32
  {
    FlagBit(e);
    if e / SLOT_EXC % 2 == 1 then e else e + SLOT_EXC
  }

  /** Setting a flag keeps the index bits. */
  lemma LevelKept(dir: seq<int>, slots: nat, l2: seq<int>, hi: seq<u64>, at: int, l2': seq<int>)
    requires Level2(dir, slots, l2, hi) && 0 <= at < slots && l2' == l2[at := SetExc(l2[at])]
    ensures Level2(dir, slots, l2', hi) && |l2| == slots + 1
  {
    hide Dir, SlotsOf;
    var S := SlotsOf(dir, slots, hi);
    forall s | 0 <= s <= slots
      ensures 0 <= l2'[s] < TWO32 && Cut(S, l2'[s] % SLOT_EXC, s)
    {
      assert Cut(S, l2[s] % SLOT_EXC, s);
    }
  }

  /** Flagging the slot of one more exception. */
  lemma FlagOne(dir: seq<int>, slots: nat, l2: seq<int>, hi: seq<u64>, exc: seq<u32>, j: nat, l2': seq<int>)
    requires Level2(dir, slots, l2, hi) && j < |exc| && forall x :: 0 <= x < |exc| ==> exc[x] < |hi|
    requires Flags(dir, slots, l2, hi, exc[..j])
    requires var s := SlotOf(dir, hi[exc[j]]);
      0 <= s < slots && l2' == l2[s := SetExc(l2[s])]
    ensures Level2(dir, slots, l2', hi) && Flags(dir, slots, l2', hi, exc[..j + 1])
  {
    LevelKept(dir, slots, l2, hi, SlotOf(dir, hi[exc[j]]), l2');
    hide Dir, V6Slot, Level2;
    var at := SlotOf(dir, hi[exc[j]]);
    var before, after := exc[..j], exc[..j + 1];
    assert after[j] == exc[j];
    forall s | 0 <= s < slots
      ensures l2'[s] >= SLOT_EXC <==> exists x :: 0 <= x < |after| && SlotOf(dir, hi[after[x]]) == s
    {
      if s == at {
        assert SlotOf(dir, hi[after[j]]) == s;
      } else {
        assert forall x :: 0 <= x < j ==> after[x] == before[x];
      }
    }
  }

  /** The slots of the buckets below g. */
  ghost function Before(dir: seq<int>, slots: nat, g: nat): (s: nat)
    requires Dir(dir, slots) && g <= BUCKETS6
    ensures s <= slots
    ensures g < BUCKETS6 ==> s == Off(dir[g])
    ensures g > 0 ==> s == End(dir[g - 1])
    ensures g == 0 ==> s == 0
    ensures g == BUCKETS6 ==> s == slots
  {
    assert 0 < g < BUCKETS6 ==> Adjacent(dir, g - 1);
    if g < BUCKETS6 then BucketFits(dir, slots, g); Off(dir[g]) else slots
  }

  lemma NoFlags(dir: seq<int>, slots: nat, l2: seq<int>, hi: seq<u64>)
    requires Level2(dir, slots, l2, hi) && forall x :: 0 <= x < slots ==> l2[x] < SLOT_EXC
    ensures Flags(dir, slots, l2, hi, [])
  {
  }

  lemma NoneMarked(words: seq<nat>, n: nat)
    requires |words| == (n + 63) / 64 && forall x :: 0 <= x < |words| ==> words[x] == 0
    ensures Bitmap(words, n, [])
  {
    forall i | 0 <= i < n
      ensures !Marked(words, i)
    {
      assert words[i / 64] == 0;
      DivBelow(0, 1, Pow2(i % 64));
    }
  }

  lemma MarkFits(words: seq<nat>, e: nat)
    requires e / 64 < |words| && forall x :: 0 <= x < |words| ==> words[x] < TWO64
    ensures var w := words[e / 64 := OrBit(words[e / 64], e % 64)]; forall x :: 0 <= x < |w| ==> w[x] < TWO64
  {
    hide OrBit, Pow2;
    Pow2Words();
    OrBitFits(words[e / 64], e % 64, 64);
  }

  lemma MarkOne(words: seq<nat>, n: nat, exc: seq<u32>, j: nat)
    requires j < |exc| && exc[j] < n && Bitmap(words, n, exc[..j])
    ensures Bitmap(words[exc[j] / 64 := OrBit(words[exc[j] / 64], exc[j] % 64)], n, exc[..j + 1])
  {
    var marked := words[exc[j] / 64 := OrBit(words[exc[j] / 64], exc[j] % 64)];
    var seen := exc[..j + 1];
    assert seen == exc[..j] + [exc[j]];
    MarkFits(words, exc[j]);
    hide OrBit, Marked;
    forall i | 0 <= i < n
      ensures Marked(marked, i) <==> i in seen
    {
      Mark(words, exc[j], i);
    }
  }

  /** A slot without the flag holds no exception. */
  lemma Unflagged(dir: seq<int>, slots: nat, l2: seq<int>, hi: seq<u64>, exc: seq<u32>, i: nat)
    requires Level2(dir, slots, l2, hi) && forall j :: 0 <= j < |exc| ==> exc[j] < |hi|
    requires Flags(dir, slots, l2, hi, exc) && i < |hi|
    requires 0 <= SlotOf(dir, hi[i]) < slots && l2[SlotOf(dir, hi[i])] < SLOT_EXC
    ensures i !in exc
  {
  }
}
