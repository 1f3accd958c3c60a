module Readers {
  import opened Words
  import opened Boundaries
  import opened Ids
  import opened Databases
  import opened Tables4
  import Tables6
  import opened Bitmaps
  import opened Addresses
  import opened Clipping
  import opened Ranges
  import opened XLayouts
  import opened Geo2Records
  import opened Details

  class Reader {
    const s: Database
    var lo4: array<int>
    var v6dir: array<int>
    var v6l2: array<int>
    var v6exc: array<nat>
    var lang: nat
    var nameOff: array<int>
    var alt: bool

    constructor (db: Database)
      requires db.Valid() && db.ValidRecords()
      ensures s == db && fresh(nameOff) && nameOff.Length == NUM_KINDS && Indexed() && Separate()
    {
      s := db;
      lo4, v6dir, v6l2, v6exc := new int[0], new int[0], new int[0], new nat[0];
      lang, nameOff, alt := 0, new int[NUM_KINDS], db.profile == ASN;
      new;
      BuildIndex();
    }

    /** The name offsets are not one of the index tables. */
    ghost predicate Separate()
      reads this`nameOff, this`lo4, this`v6dir, this`v6l2
    {
      nameOff != lo4 && nameOff != v6dir && nameOff != v6l2
    }

    ghost predicate Indexed4()
      reads this`lo4, lo4
    {
      s.Valid() && Jump4(s.S4(), lo4[..])
    }

    method BuildIndex4()
      requires s.Valid()
      modifies this`lo4
      ensures fresh(lo4) && Indexed4()
    {
      hide Valid4, Shape4, Starts4, Cut, Ascending, Valid6, Starts6, Jump4, CutsTo, LE16, LE32;
      var lo := new int[SLOTS4 + 1];
      ghost var idx, low := U32s(s.v4idx), U16s(s.v4starts);
      NoCuts(s.S4(), lo[..]);
      for g := 0 to V4_BUCKETS
        invariant CutsTo(s.S4(), lo[..], g * 16)
      {
        IndexBounds(idx, low, g);
        var i, end := LE32(s.v4idx, g * 4), LE32(s.v4idx, g * 4 + 4);
        assert i == idx[g] && end == idx[g + 1];
        for k := 0 to 16
          invariant idx[g] <= i <= idx[g + 1]
          invariant forall j :: idx[g] <= j < i ==> k > 0 && low[j] < (k - 1) * SPAN4
          invariant CutsTo(s.S4(), lo[..], g * 16 + k)
        {
          while i < end && LE16(s.v4starts, i * 2) < k * SPAN4
            invariant idx[g] <= i <= idx[g + 1]
            invariant forall j :: idx[g] <= j < i ==> low[j] < k * SPAN4
          {
            assert low[i] == LE16(s.v4starts, i * 2);
            i := i + 1;
          }
          assert i < end ==> low[i] == LE16(s.v4starts, i * 2);
          SubBucketCut(idx, low, g, k, i);
          ghost var before := lo[..];
          lo[g * 16 + k] := i;
          NextCut(s.S4(), before, lo[..], g * 16 + k);
        }
      }
      ghost var before := lo[..];
      lo[SLOTS4] := s.N4();
      AllCuts(idx, low, before, lo[..]);
      lo4 := lo;
    }

    method Index4(key: u32) returns (i: int)
      requires Indexed4()
      ensures i == Last(s.S4(), key)
    {
      hide Valid6, Starts6, Starts4, Shape4, Cut, Jump4, IdsOf, Ascending;
      ghost var low, starts := U16s(s.v4starts), s.S4();
      WindowOfKey(U32s(s.v4idx), low, lo4[..], key);
      var g := key / SPAN4;
      var l, h := lo4[g], lo4[g + 1];
      ghost var l0, h0 := l, h;
      var k := key % 0x1_0000;
      while l < h
        invariant l0 <= l <= h <= h0
        invariant forall j :: 0 <= j < l ==> starts[j] <= key
        invariant forall j :: h <= j < |starts| ==> key < starts[j]
      {
        var mid := (l + h) / 2;
        if U16At(s.v4starts, mid) > k {
          AscendingSplit(starts, mid);
          h := mid;
        } else {
          AscendingSplit(starts, mid);
          l := mid + 1;
        }
      }
      LastUnique(starts, key, l - 1);
      return l - 1;
    }
  
    ghost function Slots(): nat
      reads this`v6l2, v6l2
    {
      if v6l2.Length == 0 then 0 else v6l2.Length - 1
    }

    ghost predicate Indexed6()
      reads this`v6dir, v6dir, this`v6l2, v6l2, this`v6exc, v6exc
    {
      && s.Valid()
      && var hi, exc := U64s(s.v6hi), U32s(s.v6excIdx);
      && Tables6.Level2(v6dir[..], Slots(), v6l2[..], hi)
      && Tables6.Flags(v6dir[..], Slots(), v6l2[..], hi, exc)
      && Tables6.Bitmap(v6exc[..], |hi|, exc)
    }

    method BuildDir() returns (dir: array<int>, slots: nat)
      requires s.Valid()
      ensures fresh(dir) && Tables6.Dir(dir[..], slots)
      ensures 4 * slots <= 4 * Tables6.BUCKETS6 + s.N6()
      ensures forall g :: 0 <= g < Tables6.BUCKETS6 ==> dir[g] < TWO32
    {
      hide Valid4, Starts4, Starts6, Ascending, ValidExceptions, Tables6.Tiled, Tables6.Top, LE64, IdsOf,
        Pow2;
      var n := |s.v6hi| / 8;
      dir := new int[Tables6.BUCKETS6];
      slots := 0;
      Tables6.NoBuckets(dir[..]);
      var i := 0;
      for g := 0 to Tables6.BUCKETS6
        invariant 0 <= i <= n && 4 * slots <= 4 * g + i
        invariant Tables6.Tiled(dir[..], g, slots)
        invariant forall h :: 0 <= h < g ==> dir[h] < TWO32
      {
        var j := i;
        while j < n && Tables6.Top(U64At(s.v6hi, j)) == g
          invariant i <= j <= n
        {
          j := j + 1;
        }
        var k := Tables6.L2Bits(j - i);
        ghost var before := dir[..];
        dir[g] := slots * Tables6.KBITS + k;
        Tables6.AddBucket(before, dir[..], g, slots, k);
        slots := slots + Pow2(k);
        i := j;
      }
    }
  
    /** The starts of one bucket, filled slot by slot. */
    method FillBucket(dir: array<int>, ghost slots: nat, l2: array<int>, g: nat, first: nat) returns (end: nat)
      requires s.Valid() && Tables6.Dir(dir[..], slots) && Tables6.Sorted(U64s(s.v6hi))
      requires g < Tables6.BUCKETS6 && l2.Length == slots + 1 && l2 != dir
      requires Tables6.BucketCut(U64s(s.v6hi), first, g)
      requires forall x :: 0 <= x < Tables6.Off(dir[g]) ==> Cut(Tables6.SlotsOf(dir[..], slots, U64s(s.v6hi)), l2[x], x)
      modifies l2
      ensures Tables6.BucketCut(U64s(s.v6hi), end, g + 1)
      ensures forall x :: 0 <= x < Tables6.End(dir[g]) ==> Cut(Tables6.SlotsOf(dir[..], slots, U64s(s.v6hi)), l2[x], x)
    {
      hide Valid4, Valid6, Starts4, Starts6, LE64, IdsOf, Cut, Tables6.Top, Tables6.SlotsOf, Tables6.Sorted,
        Tables6.Tiled, Pow2, Tables6.V6Slot;
      ghost var hi, S := U64s(s.v6hi), Tables6.SlotsOf(dir[..], slots, U64s(s.v6hi));
      var n := |s.v6hi| / 8;
      var o, k := Tables6.Off(dir[g]), Tables6.Bits(dir[g]);
      Tables6.BucketFits(dir[..], slots, g);
      ghost var last := Tables6.BucketEnd(hi, first, g);
      var i := first;
      for t := 0 to Pow2(k)
        invariant first <= i <= last
        invariant forall j :: first <= j < i ==> t > 0 && Tables6.V6Slot(hi[j], k) < t - 1
        invariant forall x :: 0 <= x < o + t ==> Cut(S, l2[x], x)
      {
        while i < n && Tables6.Top(U64At(s.v6hi, i)) == g && Tables6.V6Slot(U64At(s.v6hi, i), k) < t
          invariant first <= i <= last
          invariant forall j :: first <= j < i ==> Tables6.V6Slot(hi[j], k) < t
        {
          i := i + 1;
        }
        Tables6.SlotCut(dir[..], slots, hi, g, t, i, first, last);
        l2[o + t] := i;
      }
      while i < n && Tables6.Top(U64At(s.v6hi, i)) == g
        invariant first <= i <= last
      {
        i := i + 1;
      }
      end := i;
    }
  
    method BuildIndex6()
      requires s.Valid()
      modifies this`v6dir, this`v6l2
      ensures fresh(v6dir) && fresh(v6l2) && v6dir != v6l2
      ensures Tables6.Level2(v6dir[..], Slots(), v6l2[..], U64s(s.v6hi))
      ensures forall x :: 0 <= x < Slots() ==> v6l2[x] < Tables6.SLOT_EXC
    {
      hide Valid4, Starts4, Starts6, LE64, IdsOf, Cut, Tables6.Top, Tables6.SlotsOf, Tables6.Tiled, Pow2,
        Tables6.V6Slot;
      ghost var hi := U64s(s.v6hi);
      forall i, j | 0 <= i <= j < |hi|
        ensures hi[i] <= hi[j]
      {
        TopHalvesSorted(hi, U32s(s.v6excIdx), U64s(s.v6excLo), i, j);
      }
      var dir, slots := BuildDir();
      ghost var built := dir[..];
      var l2 := new int[slots + 1];
      var i := 0;
      for g := 0 to Tables6.BUCKETS6
        invariant dir[..] == built && Tables6.BucketCut(hi, i, g)
        invariant forall x :: 0 <= x < Tables6.Before(dir[..], slots, g) ==>
                                Cut(Tables6.SlotsOf(dir[..], slots, hi), l2[x], x)
      {
        i := FillBucket(dir, slots, l2, g, i);
        assert Tables6.Before(dir[..], slots, g + 1) == Tables6.End(dir[g]);
      }
      l2[slots] := |s.v6hi| / 8;
      Tables6.Level2Filled(dir[..], slots, l2[..], hi);
      v6dir, v6l2 := dir, l2;
    }

    method BuildIndex()
      requires s.Valid()
      modifies this`lo4, this`v6dir, this`v6l2, this`v6exc
      ensures fresh(lo4) && fresh(v6dir) && fresh(v6l2) && fresh(v6exc)
      ensures Indexed4() && Indexed6()
    {
      hide Valid4, Starts4, Starts6, LE64, IdsOf, Cut, Jump4, Ascending, Tables6.SlotsOf, Tables6.Dir, Pow2,
        Tables6.V6Slot, Marked, OrBit, LE32, Tables6.Level2, Tables6.Flags, Tables6.Bitmap;
      BuildIndex4();
      BuildIndex6();
      ghost var hi, excIdx := U64s(s.v6hi), U32s(s.v6excIdx);
      var n6 := |s.v6hi| / 8;
      var exc := new nat[(n6 + 63) / 64](_ => 0);
      var dir, l2 := v6dir, v6l2;
      ghost var built, jump, filled := dir[..], lo4, lo4[..];
      Tables6.NoneMarked(exc[..], n6);
      Tables6.NoFlags(v6dir[..], Slots(), v6l2[..], hi);
      for j := 0 to |s.v6excIdx| / 4
        invariant dir == v6dir && l2 == v6l2 && dir[..] == built && fresh(dir) && fresh(l2) && dir != l2
        invariant jump == lo4 && jump[..] == filled && fresh(jump) && jump != l2
        invariant Tables6.Level2(v6dir[..], Slots(), v6l2[..], hi)
        invariant Tables6.Flags(v6dir[..], Slots(), v6l2[..], hi, excIdx[..j])
        invariant Tables6.Bitmap(exc[..], n6, excIdx[..j])
      {
        var i := U32At(s.v6excIdx, j);
        ghost var words, before := exc[..], l2[..];
        exc[i / 64] := OrBit(exc[i / 64], i % 64);
        Tables6.MarkOne(words, n6, excIdx, j);
        var h := U64At(s.v6hi, i);
        Tables6.SlotInTable(v6dir[..], Slots(), v6l2[..], hi, h);
        var slot := Tables6.SlotOf(dir[..], h);
        l2[slot] := Tables6.SetExc(l2[slot]);
        Tables6.FlagOne(v6dir[..], Slots(), before, hi, excIdx, j, v6l2[..]);
      }
      assert excIdx[..|excIdx|] == excIdx;
      v6exc := exc;
    }
  
    // ---- IPv6 search ------------------------------------------------------

    method V6ExcLo(i: nat) returns (lo: u64)
      requires s.Valid() && i in U32s(s.v6excIdx)
      ensures lo == LowOf(U32s(s.v6excIdx), U64s(s.v6excLo), i)
    {
      hide Valid4, Starts6, IdsOf;
      ghost var idx := U32s(s.v6excIdx);
      var l, h := 0, |s.v6excIdx| / 4;
      while l < h
        invariant 0 <= l <= h <= |idx|
        invariant forall j :: 0 <= j < l ==> idx[j] < i
        invariant forall j :: h <= j < |idx| ==> i <= idx[j]
      {
        var mid := (l + h) / 2;
        AscendingSplit(idx, mid);
        if U32At(s.v6excIdx, mid) < i {
          l := mid + 1;
        } else {
          h := mid;
        }
      }
      ghost var j :| 0 <= j < |idx| && idx[j] == i;
      AscendingSplit(idx, l);
      AscendingSplit(idx, j);
      LowOfAt(idx, U64s(s.v6excLo), l);
      lo := U64At(s.v6excLo, l);
    }

    method V6StepBack(from: int, hi: u64, lo: u64) returns (i: int)
      requires Indexed6() && -1 <= from < s.N6()
      requires from >= 0 ==> U64s(s.v6hi)[from] <= hi
      requires forall j :: from < j < s.N6() ==> hi * TWO64 + lo < s.S6()[j]
      ensures i == Last(s.S6(), hi * TWO64 + lo)
    {
      hide Valid4, IdsOf, Tables6.Level2, Tables6.Flags, Marked, Ascending, Starts6, LowOf;
      ghost var v, exc, los, starts := U64s(s.v6hi), U32s(s.v6excIdx), U64s(s.v6excLo), s.S6();
      i := from;
      while i >= 0 && U64At(s.v6hi, i) == hi && Marked(v6exc[..], i)
        invariant -1 <= i <= from
        invariant i >= 0 ==> v[i] <= hi
        invariant forall j :: i < j < |starts| ==> hi * TWO64 + lo < starts[j]
        decreases i
      {
        var low := V6ExcLo(i);
        if low <= lo {
          break;
        }
        CompareStart(v, exc, los, i, hi, lo);
        SortedSplit(v, exc, los, i);
        i := i - 1;
      }
      if i >= 0 {
        CompareStart(v, exc, los, i, hi, lo);
        LowOfOther(exc, los, i);
      }
      LastUnique(starts, hi * TWO64 + lo, i);
    }

    method Index6(hi: u64, lo: u64) returns (i: int)
      requires Indexed6()
      ensures i == Last(s.S6(), hi * TWO64 + lo)
    {
      hide Valid4, IdsOf, Tables6.Bitmap, Tables6.Dir, Tables6.V6Slot, Tables6.Flags, Starts6, LowOf;
      ghost var v, exc, los, starts := U64s(s.v6hi), U32s(s.v6excIdx), U64s(s.v6excLo), s.S6();
      Tables6.WindowOfKey(v6dir[..], Slots(), v6l2[..], v, hi);
      var slot := Tables6.SlotOf(v6dir[..], hi);
      var e := v6l2[slot];
      var l, h := e % Tables6.SLOT_EXC, v6l2[slot + 1] % Tables6.SLOT_EXC;
      var first := l;
      ghost var l0, h0 := l, h;
      while l < h
        invariant l0 <= l <= h <= h0
        invariant forall j :: 0 <= j < l ==> v[j] <= hi && (j < l0 ==> v[j] < hi)
        invariant forall j :: h <= j < |v| ==> hi < v[j]
      {
        var mid := (l + h) / 2;
        SortedSplit(v, exc, los, mid);
        if U64At(s.v6hi, mid) > hi {
          h := mid;
        } else {
          l := mid + 1;
        }
      }
      i := l - 1;
      forall j | i < j < |starts|
        ensures hi * TWO64 + lo < starts[j]
      {
        CompareStart(v, exc, los, j, hi, lo);
      }
      if e >= Tables6.SLOT_EXC && i >= first {
        i := V6StepBack(i, hi, lo);
      } else {
        if i >= 0 {
          CompareStart(v, exc, los, i, hi, lo);
          if i >= first {
            Tables6.Unflagged(v6dir[..], Slots(), v6l2[..], v, exc, i);
            LowOfOther(exc, los, i);
          }
        }
        LastUnique(starts, hi * TWO64 + lo, i);
      }
    }
  
    // ---- lookups ------------------------------------------------------------

    /** The whole map from addresses to record ids. */
    ghost function AnswerOf(ip: Addr): u32
      requires s.Valid()
    {
      if ip == NoAddr then 0
      else match KeyOf4(ip)
        case Some(a) => Answer(s.S4(), s.Ids4(), a)
        case None => Answer(s.S6(), s.Ids6(), ip.b)
    }

    ghost predicate Indexed()
      reads this`lo4, lo4, this`v6dir, v6dir, this`v6l2, v6l2, this`v6exc, v6exc
    {
      Indexed4() && Indexed6()
    }

    method Search4(key: u32) returns (id: u32)
      requires Indexed4()
      ensures id == Answer(s.S4(), s.Ids4(), key)
    {
      hide Valid4, Valid6, Jump4, Starts4;
      var i := Index4(key);
      id := if i < 0 then 0 else ReadID(s.v4ids, s.idWidth, i);
    }

    method Search6(hi: u64, lo: u64) returns (id: u32)
      requires Indexed6()
      ensures id == Answer(s.S6(), s.Ids6(), hi * TWO64 + lo)
    {
      hide Valid4, Valid6, Starts6, Tables6.Level2, Tables6.Flags, Tables6.Bitmap;
      var i := Index6(hi, lo);
      id := if i < 0 then 0 else ReadID(s.v6ids, s.idWidth, i);
    }

    method Find(ip: Addr) returns (id: u32)
      requires Indexed()
      ensures id == AnswerOf(ip)
    {
      hide Valid4, Valid6, Jump4, Starts4, Starts6, Answer, IdsOf, Tables6.Level2, Tables6.Flags,
        Tables6.Bitmap;
      if ip.Is4() || ip.Is4In6() {
        id := Search4(if ip.Is4() then ip.a else ip.b % TWO32);
      } else if ip.IsValid() {
        match EmbeddedV4(ip.b)
        case Some(v4) => id := Search4(v4);
        case None => id := Search6(High(ip.b), Low(ip.b));
      } else {
        id := 0;
      }
    }

    // ---- boundary starts ------------------------------------------------------

    method Start4(i: nat, hint: nat) returns (v: u32)
      requires s.Valid() && i < s.N4() && hint < V4_BUCKETS
      ensures v == s.S4()[i]
    {
      hide Valid6, Starts6, Ascending, LE32, LE16;
      ghost var idx, low := U32s(s.v4idx), U16s(s.v4starts);
      if U32At(s.v4idx, hint) <= i < U32At(s.v4idx, hint + 1) {
        StartInBucket(idx, low, i, hint);
        return hint * 0x1_0000 + U16At(s.v4starts, i);
      }
      var l, h := 1, V4_BUCKETS;
      while l < h
        invariant 1 <= l <= h <= V4_BUCKETS
        invariant idx[l - 1] <= i < idx[h]
      {
        var mid := (l + h) / 2;
        if U32At(s.v4idx, mid) > i {
          h := mid;
        } else {
          l := mid + 1;
        }
      }
      StartInBucket(idx, low, i, l - 1);
      return (l - 1) * 0x1_0000 + U16At(s.v4starts, i);
    }

    method Start6(i: nat) returns (hi: u64, lo: u64)
      requires Indexed6() && i < s.N6()
      ensures hi * TWO64 + lo == s.S6()[i]
    {
      hide Valid4, Tables6.Level2, Tables6.Flags, Ascending, Marked;
      hi, lo := U64At(s.v6hi, i), 0;
      if Marked(v6exc[..], i) {
        lo := V6ExcLo(i);
      }
    }

    // ---- range lookups ----------------------------------------------------------

    method Range4(key: u32) returns (r: Block, id: u32)
      requires Indexed4()
      ensures r == RangeOf(s.S4(), MAX4, key)
      ensures id == Answer(s.S4(), s.Ids4(), key)
    {
      hide Valid4, Valid6, Jump4, Starts4, Starts6;
      var i := Index4(key);
      var first: u32, last: u32 := 0, MAX4;
      id := 0;
      var g := key / 0x1_0000;
      if i >= 0 {
        first := Start4(i, g);
        id := ReadID(s.v4ids, s.idWidth, i);
      }
      if i + 1 < s.N4() {
        var next := Start4(i + 1, g);
        last := next - 1;
      }
      r := Block(first, last);
    }
  
    method Range6(hi: u64, lo: u64) returns (r: Block, id: u32)
      requires Indexed6() && !InSome(ALIASES, Join(hi, lo))
      ensures r == ClippedRange(s.S6(), MAX6, ALIASES, Join(hi, lo))
      ensures id == Answer(s.S6(), s.Ids6(), Join(hi, lo))
    {
      hide Valid4, Valid6, Starts6, Tables6.Level2, Tables6.Flags, Tables6.Bitmap, Tables6.Dir, InSome, Clip;
      ghost var key := Join(hi, lo);
      var i := Index6(hi, lo);
      var fh: u64, fl: u64 := 0, 0;
      var lh: u64, ll: u64 := TWO64 - 1, TWO64 - 1;
      id := 0;
      if i >= 0 {
        fh, fl := Start6(i);
        id := ReadID(s.v6ids, s.idWidth, i);
      }
      if i + 1 < s.N6() {
        lh, ll := Start6(i + 1);
        var d := Dec128(lh, ll);
        lh, ll := d.0, d.1;
      }
      ghost var b := RangeOf(s.S6(), MAX6, key);
      assert Join(fh, fl) == b.first && Join(lh, ll) == b.last;
      fh, fl, lh, ll := ClipHalves(fh, fl, lh, ll, hi, lo);
      r := Block(Join(fh, fl), Join(lh, ll));
    }

    /** The range LookupRange answers with, in the form of the table it is in. */
    ghost function LookupOf(ip: Addr): (Block, bool)
      requires s.Valid() && ip != NoAddr
    {
      match KeyOf4(ip)
      case Some(a) => (RangeOf(s.S4(), MAX4, a), true)
      case None => (ClippedRange(s.S6(), MAX6, ALIASES, ip.b), false)
    }

    method LookupRange(ip: Addr) returns (r: Block, v4: bool, ok: bool)
      requires Indexed()
      ensures ip != NoAddr ==> (r, v4) == LookupOf(ip)
      ensures ip == NoAddr ==> r == NO_RANGE
      ensures ok == (AnswerOf(ip) != 0)
    {
      hide Valid4, Valid6, Jump4, Starts4, Starts6, Answer, IdsOf, Tables6.Level2, Tables6.Flags,
        Tables6.Bitmap, InSome;
      var id;
      if ip.Is4() || ip.Is4In6() {
        r, id := Range4(if ip.Is4() then ip.a else ip.b % TWO32);
        v4 := true;
      } else if ip.IsValid() {
        match EmbeddedV4(ip.b)
        case Some(a) =>
          r, id := Range4(a);
          v4 := true;
        case None =>
          AliasesAreEmbedded(ip.b);
          r, id := Range6(High(ip.b), Low(ip.b));
          v4 := false;
      } else {
        r, v4, id := NO_RANGE, false, 0;
      }
      ok := id != 0;
    }
  
    // ---- the enumeration --------------------------------------------------------

    /** ranges4's cursor: the bucket of boundary i, found from an earlier one. */
    method NextStart4(g0: nat, i: nat) returns (g: nat, v: u32)
      requires s.Valid() && i < s.N4() && g0 < V4_BUCKETS && U32s(s.v4idx)[g0] <= i
      ensures g < V4_BUCKETS && U32s(s.v4idx)[g] <= i && v == s.S4()[i]
    {
      hide Valid6, Starts6, Ascending, IdsOf;
      ghost var idx := U32s(s.v4idx);
      g := g0;
      while U32At(s.v4idx, g + 1) <= i
        invariant g0 <= g < V4_BUCKETS && idx[g] <= i
        decreases V4_BUCKETS - g
      {
        g := g + 1;
      }
      StartInBucket(idx, U16s(s.v4starts), i, g);
      v := g * 0x1_0000 + U16At(s.v4starts, i);
    }

    /** The exceptions below boundary i are the first j. */
    ghost predicate Merged(j: nat, i: nat) {
      Cut(U32s(s.v6excIdx), j, i)
    }

    /** ranges6's cursor: the next exception, merged with the boundaries. */
    method NextStart6(j0: nat, i: nat) returns (j: nat, hi: u64, lo: u64)
      requires s.Valid() && i < s.N6() && Merged(j0, i)
      ensures Merged(j, i + 1) && hi * TWO64 + lo == s.S6()[i]
    {
      hide Valid4, Starts4, IdsOf;
      ghost var exc := U32s(s.v6excIdx);
      hi, lo, j := U64At(s.v6hi, i), 0, j0;
      if j < |s.v6excIdx| / 4 && U32At(s.v6excIdx, j) == i {
        lo := U64At(s.v6excLo, j);
        LowOfAt(exc, U64s(s.v6excLo), j);
        j := j + 1;
      }
    }

    ghost function Covered4(): seq<Item>
      requires s.Valid()
    {
      Covered(s.S4(), s.Ids4(), MAX4, [], 0)
    }

    ghost function Covered6(): seq<Item>
      requires s.Valid()
    {
      Covered(s.S6(), s.Ids6(), MAX6, ALIASES, 0)
    }

    /** The details of each record in the reader's language. */
    ghost function Info(): u32 -> FullRecord
      reads this`lang
    {
      var j := lang;
      (id: u32) => DetailsOf(s, j, id)
    }

    method Ranges4(y: Consumer<FullRecord>) returns (more: bool)
      requires s.Valid() && Speaking() && y.Informed(Info())
      modifies y`got, y`details
      ensures y.Informed(Info())
      ensures (y.got, more) == Deliver(old(y.got), Covered4(), y.wants)
    {
      hide Valid4, Valid6, Starts4, Starts6, Deliver, Label, Parts, ReadID, LE32, LE16, DetailsOf,
        Database.ValidRecords;
      var n := s.N4();
      ghost var starts, ids := s.S4(), s.Ids4();
      ghost var all := Deliver(y.got, Covered4(), y.wants);
      var g: nat, first: u32 := 0, 0;
      FirstIndex();
      if n > 0 {
        g, first := NextStart4(g, 0);
      }
      for i := 0 to n
        invariant g < V4_BUCKETS && |s.v4idx| / 4 == V4_BUCKETS + 1
        invariant (i < n ==> U32s(s.v4idx)[g] <= i && first == starts[i])
        invariant Deliver(y.got, Covered(starts, ids, MAX4, [], i), y.wants) == all && y.Informed(Info())
      {
        var next: u32, last: u32 := 0, MAX4;
        var f := first;
        if i + 1 < n {
          g, next := NextStart4(g, i + 1);
          assert next == starts[i + 1] > starts[i] by { StartsAscend4(i, i + 1); }
          last := next - 1;
        }
        var id := ReadID(s.v4ids, s.idWidth, i);
        CoveredStep(starts, ids, MAX4, [], i, y.got, y.wants);
        if id != 0 {
          IdIsRecord4(i);
          var d := FillDetails(id);
          LeftWhole(y.got, Block(f, last), id, y.wants);
          more := y.Yield(Item(Block(f, last), id), d);
          if !more {
            return;
          }
        }
        first := next;
      }
      DeliverNone(y.got, y.wants);
      more := true;
    }

    lemma IdIsRecord4(i: nat)
      requires s.Valid() && s.ValidRecords() && i < s.N4() && s.Ids4()[i] != 0
      ensures IsRecord(s, s.Ids4()[i])
    {
      hide IdsOf, Valid4, Valid6, RecordsOk, XRecordsOk;
    }

    lemma IdIsRecord6(i: nat)
      requires s.Valid() && s.ValidRecords() && i < s.N6() && s.Ids6()[i] != 0
      ensures IsRecord(s, s.Ids6()[i])
    {
      hide IdsOf, Valid4, Valid6, RecordsOk, XRecordsOk;
    }

    lemma FirstIndex()
      requires s.Valid()
      ensures |s.v4idx| / 4 == V4_BUCKETS + 1 && U32s(s.v4idx)[0] == 0
    {
    }

    lemma StartsAscend4(i: int, j: int)
      requires s.Valid() && 0 <= i < j < s.N4()
      ensures s.S4()[i] < s.S4()[j]
    {
    }

    lemma StartsAscend6(i: int, j: int)
      requires s.Valid() && 0 <= i < j < s.N6()
      ensures s.S6()[i] < s.S6()[j]
    {
    }

    method Ranges6(y: Consumer<FullRecord>) returns (more: bool)
      requires s.Valid() && Speaking() && y.Informed(Info())
      modifies y`got, y`details
      ensures y.Informed(Info())
      ensures (y.got, more) == Deliver(old(y.got), Covered6(), y.wants)
    {
      hide Valid4, Valid6, Starts4, Starts6, Deliver, Merged, Label, Parts, ReadID, LE32, LE64, DetailsOf,
        Database.ValidRecords;
      var n := s.N6();
      ghost var starts, ids := s.S6(), s.Ids6();
      ghost var all := Deliver(y.got, Covered6(), y.wants);
      var j := 0;
      var fh: u64, fl: u64 := 0, 0;
      if n > 0 {
        NoneMerged();
        j, fh, fl := NextStart6(j, 0);
      }
      for i := 0 to n
        invariant i < n ==> Merged(j, i + 1) && fh * TWO64 + fl == starts[i]
        invariant Deliver(y.got, Covered(starts, ids, MAX6, ALIASES, i), y.wants) == all && y.Informed(Info())
      {
        var nh: u64, nl: u64, lh: u64, ll: u64 := 0, 0, TWO64 - 1, TWO64 - 1;
        if i + 1 < n {
          j, nh, nl := NextStart6(j, i + 1);
          StartsAscend6(i, i + 1);
          var d := Dec128(nh, nl);
          lh, ll := d.0, d.1;
        }
        var id := ReadID(s.v6ids, s.idWidth, i);
        CoveredStep(starts, ids, MAX6, ALIASES, i, y.got, y.wants);
        if id != 0 {
          IdIsRecord6(i);
          var d := FillDetails(id);
          more := YieldUnaliased(y, fh, fl, lh, ll, id, d, Info());
          if !more {
            return;
          }
        }
        fh, fl := nh, nl;
      }
      DeliverNone(y.got, y.wants);
      more := true;
    }

    lemma NoneMerged()
      requires s.Valid()
      ensures Merged(0, 0)
    {
    }

    /** Ranges: the IPv4 ranges, then the IPv6 ones unless the consumer stopped. */
    method Ranges(y: Consumer<FullRecord>)
      requires s.Valid() && Speaking() && y.Informed(Info())
      modifies y`got, y`details
      ensures y.Informed(Info())
      ensures y.got == Deliver(old(y.got), Covered4() + Covered6(), y.wants).0
    {
      DeliverConcat(y.got, Covered4(), Covered6(), y.wants);
      var more := Ranges4(y);
      if more {
        more := Ranges6(y);
      }
    }
  
    // ---- what the answers mean together -------------------------------------------

    lemma StartsInSpace()
      requires s.Valid()
      ensures InSpace(s.S4(), MAX4) && InSpace(s.S6(), MAX6)
    {
      hide IdsOf;
      forall i | 0 <= i < s.N4()
        ensures 0 <= s.S4()[i] <= MAX4
      {
        StartInBucket(U32s(s.v4idx), U16s(s.v4starts), i, 0);
      }
    }

    /** An IPv4 address and all its IPv6 forms get the same answer and range. */
    lemma FormsAgree(a: u32, rest: nat)
      requires s.Valid() && rest < TWO64
      ensures AnswerOf(V4(a)) == AnswerOf(V6(MAPPED.first + a)) == AnswerOf(V6(a))
           == AnswerOf(V6((0x2001_0000 * TWO32 + a) * TWO64 + rest))
           == AnswerOf(V6((0x2002 * TWO32 + a) * TWO16 * TWO64 + rest))
      ensures LookupOf(V4(a)) == LookupOf(V6(MAPPED.first + a)) == LookupOf(V6(a))
           == LookupOf(V6((0x2001_0000 * TWO32 + a) * TWO64 + rest))
           == LookupOf(V6((0x2002 * TWO32 + a) * TWO16 * TWO64 + rest))
    {
      hide Answer, RangeOf, IdsOf, KeyOf4, Valid4, Valid6;
      FormsOfV4(a, rest);
    }

    /** The addresses a range stands for, in the form of its table. */
    function Member(v4: bool, x: nat): Addr
      requires if v4 then x < TWO32 else x < TWO128
    {
      if v4 then V4(x) else V6(x)
    }

    /** A looked-up range holds the address it was asked for, and every address
        in it has the same answer, is in the same table and gets the same range. */
    lemma LookupRangeMeaning(ip: Addr, x: nat)
      requires s.Valid() && ip != NoAddr && (ip.V6? ==> KeyOf4(ip) == None)
      ensures var (r, v4) := LookupOf(ip);
        && v4 == ip.V4? && 0 <= r.first <= r.last <= (if v4 then MAX4 else MAX6)
        && r.Holds(if v4 then ip.a else ip.b)
        && (r.Holds(x) ==>
              && LookupOf(Member(v4, x)) == (r, v4) && AnswerOf(Member(v4, x)) == AnswerOf(ip)
              && (!v4 ==> KeyOf4(V6(x)) == None))
    {
      hide IdsOf, Valid4, Valid6, KeyOf4, ClippedRange, Clip, InSome;
      StartsInSpace();
      AliasesDisjoint();
      if ip.V4? {
        assert KeyOf4(ip) == Some(ip.a) by { FormsOfV4(ip.a, 0); }
        NoneIn(ip.a);
        ClippedRangeMeaning(s.S4(), MAX4, [], ip.a);
        Unclipped(s.S4(), MAX4, ip.a);
        if LookupOf(ip).0.Holds(x) {
          FormsOfV4(x, 0);
          Unclipped(s.S4(), MAX4, x);
        }
      } else {
        AliasesAreEmbedded(ip.b);
        ClippedRangeMeaning(s.S6(), MAX6, ALIASES, ip.b);
        if LookupOf(ip).0.Holds(x) {
          AliasesAreEmbedded(x);
        }
      }
    }

    lemma NoneIn(x: int)
      ensures !InSome([], x)
    {
    }

    lemma Unclipped(starts: seq<int>, max: int, x: int)
      ensures ClippedRange(starts, max, [], x) == RangeOf(starts, max, x)
    {
    }

    /** Ranges enumerates exactly the covered addresses, in order, each in the
        range LookupRange gives for it and with the answer Lookup gives for it. */
    lemma EnumerationExact(v4: bool, x: nat, id: u32)
      requires s.Valid() && if v4 then x < TWO32 else x < TWO128
      ensures InOrder(Covered4(), 0, MAX4) && InOrder(Covered6(), 0, MAX6)
      ensures Has(if v4 then Covered4() else Covered6(), x, id)
              <==> id != 0 && AnswerOf(Member(v4, x)) == id && (!v4 ==> KeyOf4(V6(x)) == None)
    {
      hide IdsOf, Valid4, Valid6, KeyOf4, InSome, Covered;
      StartsInSpace();
      AliasesDisjoint();
      InOrderAll();
      NoneIn(x);
      if v4 {
        FormsOfV4(x, 0);
        CoveredExact(s.S4(), s.Ids4(), MAX4, [], 0, x, id);
      } else {
        AliasesAreEmbedded(x);
        CoveredExact(s.S6(), s.Ids6(), MAX6, ALIASES, 0, x, id);
      }
    }

    lemma InOrderAll()
      requires s.Valid()
      ensures InOrder(Covered4(), 0, MAX4) && InOrder(Covered6(), 0, MAX6)
    {
      StartsInSpace();
      AliasesDisjoint();
      CoveredInOrder(s.S4(), s.Ids4(), MAX4, [], 0);
      CoveredInOrder(s.S6(), s.Ids6(), MAX6, ALIASES, 0);
      Wider(Covered4(), if s.N4() > 0 then s.S4()[0] else MAX4 + 1, MAX4);
      Wider(Covered6(), if s.N6() > 0 then s.S6()[0] else MAX6 + 1, MAX6);
    }

    lemma Wider(items: seq<Item>, f: int, l: int)
      requires 0 <= f
      ensures InOrder(items, f, l) ==> InOrder(items, 0, l)
    {
    }

    lemma EnumeratedAreLookups(v4: bool, k: nat, x: nat)
      requires s.Valid() && if v4 then x < TWO32 else x < TWO128
      requires var items := if v4 then Covered4() else Covered6(); k < |items| && items[k].range.Holds(x)
      ensures var item := (if v4 then Covered4() else Covered6())[k];
        LookupOf(Member(v4, x)) == (item.range, v4) && AnswerOf(Member(v4, x)) == item.id
    {
      hide IdsOf, Valid4, Valid6, KeyOf4, InSome, Covered, ClippedRange;
      StartsInSpace();
      AliasesDisjoint();
      var item := (if v4 then Covered4() else Covered6())[k];
      EnumerationExact(v4, x, item.id);
      if v4 {
        FormsOfV4(x, 0);
        CoveredAreLookups(s.S4(), s.Ids4(), MAX4, [], 0, k, x);
        Unclipped(s.S4(), MAX4, x);
      } else {
        CoveredAreLookups(s.S6(), s.Ids6(), MAX6, ALIASES, 0, k, x);
        var items := Covered6();
        assert Has(items, x, items[k].id);
      }
    }
  
    // ---- languages and records ------------------------------------------------------

    /** lang, nameOff and alt describe one of the database's languages. */
    ghost predicate Speaking()
      reads this`lang, this`alt, this`nameOff, nameOff
    {
      && Speaks(s, lang) && nameOff.Length == NUM_KINDS
      && (forall k :: 0 <= k < NUM_KINDS ==> nameOff[k] == if lang > 0 then NameOffset(s.xl, lang, k) else -1)
      && alt == (s.profile == ASN || lang > 0)
    }

    method SetLanguage(language: bytes) returns (ok: bool)
      requires s.ValidRecords() && nameOff.Length == NUM_KINDS && Separate() && Indexed()
      modifies this`lang, this`alt, nameOff
      ensures Indexed()
      ensures ok <==> language == [] || language in s.langs
      ensures ok ==> Speaking() && (language != [] ==> s.langs[lang] == language) && (language == [] ==> lang == 0)
      ensures !ok ==> lang == old(lang) && alt == old(alt) && nameOff[..] == old(nameOff[..])
    {
      hide Database.ValidRecords, NameOffset, Indexed;
      var j := 0;
      if language != [] {
        while j < |s.langs| && s.langs[j] != language
          invariant j <= |s.langs| && language !in s.langs[..j]
        {
          j := j + 1;
        }
        if j == |s.langs| {
          return false;
        }
      }
      lang := j;
      for k := 0 to NUM_KINDS
        invariant lang == j && Indexed()
        invariant forall x :: 0 <= x < k ==> nameOff[x] == if j > 0 then NameOffset(s.xl, j, x) else -1
      {
        nameOff[k] := -1;
        if j > 0 {
          var off := s.xl.NameOff(j, k);
          OffsetFound(j, k, off);
          nameOff[k] := off;
        }
      }
      alt := s.profile == ASN || j > 0;
      return true;
    }

    lemma OffsetFound(j: nat, k: nat, off: int)
      requires s.ValidRecords() && 1 <= j < |s.langs|
      requires k in s.xl.kinds ==> exists i :: 0 <= i < |s.xl.kinds| && s.xl.kinds[i] == k && off == s.xl.SlotOff(j, i)
      requires k !in s.xl.kinds ==> off == -1
      ensures off == NameOffset(s.xl, j, k)
    {
      if k in s.xl.kinds {
        var i :| 0 <= i < |s.xl.kinds| && s.xl.kinds[i] == k && off == s.xl.SlotOff(j, i);
        NameOffsetUnique(s.xl, s.profile, s.fields, |s.langs|, j, i);
      }
    }

    /** Names fall back to the primary language when the entry has none. */
    method Localize(id: nat, k: nat, primary: bytes) returns (name: bytes)
      requires Speaking() && lang > 0 && IsRecord(s, id) && k < NUM_KINDS
      ensures name == NameIn(s, lang, id, k, primary)
    {
      hide Database.ValidRecords, Entry, LE24, NameOffset;
      name := primary;
      var off := nameOff[k];
      if off >= 0 {
        NameRead(s, lang, id, k);
        var n := LE24(Entry(s, id), off);
        if n != 0 {
          name := s.strings[n];
        }
      }
    }

    lemma IndexedIsValid()
      requires Indexed()
      ensures s.Valid()
    {
    }

    lemma AnswerIsRecord(ip: Addr)
      requires s.Valid() && s.ValidRecords() && AnswerOf(ip) != 0
      ensures IsRecord(s, AnswerOf(ip))
    {
      hide IdsOf, Valid4, Valid6, RecordsOk, XRecordsOk;
    }

    /** An empty Record for an ASN database, else the Record in the language. */
    method DecodeAlt(id: nat) returns (rec: Record)
      requires Speaking() && alt && IsRecord(s, id)
      ensures rec == if s.profile == ASN then NO_RECORD else LocalRecord(s, lang, id)
    {
      hide Database.Valid, Database.ValidRecords, Decode, NameIn;
      if s.profile == ASN {
        return NO_RECORD;
      }
      rec := Decode(s, id);
      var country := Localize(id, NAME_COUNTRY, rec.countryName);
      var region := Localize(id, NAME_REGION, rec.regionName);
      var city := Localize(id, NAME_CITY, rec.city);
      rec := rec.(countryName := country, regionName := region, city := city);
    }

    method Lookup(ip: Addr) returns (rec: Record, ok: bool)
      requires Indexed() && Speaking()
      ensures ok == (AnswerOf(ip) != 0)
      ensures ok ==> IsRecord(s, AnswerOf(ip))
      ensures ok && s.profile != ASN ==> rec == LocalRecord(s, lang, AnswerOf(ip))
      ensures !ok || s.profile == ASN ==> rec == NO_RECORD
    {
      hide Database.Valid, Database.ValidRecords, Decode, NameIn, Indexed, LocalRecord, LocalExtra, AnswerOf,
        NameOffset;
      IndexedIsValid();
      var id := Find(ip);
      rec, ok := NO_RECORD, id != 0;
      if ok {
        AnswerIsRecord(ip);
        if alt {
          rec := DecodeAlt(id);
        } else {
          rec := Decode(s, id);
          PrimaryNames(id);
        }
      }
    }

    lemma PrimaryNames(id: nat)
      requires Speaks(s, 0) && IsRecord(s, id)
      ensures s.profile != ASN ==> LocalRecord(s, 0, id) == Decode(s, id)
      ensures LocalExtra(s, 0, id) == DecodeExtra(s, id)
    {
    }

    /** details: the record, or the AS, and the blocks of the entry, with names in
        the reader's language. */
    method FillDetails(id: nat) returns (d: FullRecord)
      requires Speaking() && IsRecord(s, id)
      ensures d == DetailsOf(s, lang, id)
    {
      hide Database.Valid, Decode, DecodeExtra, NameIn, RecordsOk, XRecordsOk, IdsOf, IsLayout;
      if s.profile == ASN {
        return NO_DETAILS.(asn := DecodeAsn(s, id));
      }
      var rec, x := Decode(s, id), DecodeExtra(s, id);
      if s.xl.width == 0 || lang == 0 {
        NoNames(id);
        return NO_DETAILS.(rec := rec, x := x);
      }
      var country := Localize(id, NAME_COUNTRY, rec.countryName);
      var region := Localize(id, NAME_REGION, rec.regionName);
      var city := Localize(id, NAME_CITY, rec.city);
      rec := rec.(countryName := country, regionName := region, city := city);
      var continent := Localize(id, NAME_CONTINENT, x.continentName);
      var region2 := Localize(id, NAME_REGION2, x.region2Name);
      var registered := Localize(id, NAME_REGISTERED, x.registered.name);
      var represented := Localize(id, NAME_REPRESENTED, x.represented.name);
      x := x.(continentName := continent, region2Name := region2,
              registered := x.registered.(name := registered), represented := x.represented.(name := represented));
      return NO_DETAILS.(rec := rec, x := x);
    }

    method LookupDetails(ip: Addr) returns (d: FullRecord, ok: bool)
      requires Indexed() && Speaking()
      ensures ok == (AnswerOf(ip) != 0)
      ensures d == if ok then DetailsOf(s, lang, AnswerOf(ip)) else NO_DETAILS
    {
      hide Database.Valid, Database.ValidRecords, DetailsOf, Indexed, AnswerOf;
      IndexedIsValid();
      var id := Find(ip);
      d, ok := NO_DETAILS, id != 0;
      if ok {
        AnswerIsRecord(ip);
        d := FillDetails(id);
      }
    }

    lemma NoNames(id: nat)
      requires Speaks(s, lang) && IsRecord(s, id) && (s.xl.width == 0 || lang == 0)
      ensures s.profile != ASN ==> LocalRecord(s, lang, id) == Decode(s, id)
      ensures LocalExtra(s, lang, id) == DecodeExtra(s, id)
    {
      if lang > 0 {
        NoWidthNoNames(s.xl, s.profile, s.fields, |s.langs|);
        forall k: nat | k < NUM_KINDS
          ensures NameOffset(s.xl, lang, k) == -1
        {
        }
      }
    }
  }

  lemma NoWidthNoNames(l: XLayout, profile: nat, fields: nat, n: nat)
    requires n > 1 && IsLayout(l, profile, fields, n) && l.width == 0
    ensures l.kinds == []
  {
    var K := |l.kinds|;
    MulMonotone(K, 3, (n - 1) * 3);
    assert K * ((n - 1) * 3) == (n - 1) * 3 * K;
  }
}
