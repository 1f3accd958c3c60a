/** Fixed-width integers and the little- and big-endian loads and stores that
    every table of the format is read and written with. */
module Words {
  type u8 = x: nat | x < 0x100
  type u16 = x: nat | x < 0x1_0000
  type u24 = x: nat | x < 0x100_0000
  type u32 = x: nat | x < 0x1_0000_0000
  type u64 = x: nat | x < 0x1_0000_0000_0000_0000
  type u128 = x: nat | x < 0x1_0000_0000_0000_0000_0000_0000_0000_0000

  type bytes = seq<u8>

  const TWO16: nat := 0x1_0000
  const TWO32: nat := 0x1_0000_0000
  const TWO48: nat := 0x1_0000_0000_0000
  const TWO64: nat := 0x1_0000_0000_0000_0000
  const TWO128: nat := 0x1_0000_0000_0000_0000_0000_0000_0000_0000

  /** Byte o of b, as an unbounded integer. */
  function At(b: bytes, o: nat): int
    requires o < |b|
  {
    b[o]
  }

  function LE16(b: bytes, o: nat): u16
    requires o + 2 <= |b|
  {
    At(b, o) + 0x100 * At(b, o + 1)
  }

  function LE24(b: bytes, o: nat): u24
    requires o + 3 <= |b|
  {
    At(b, o) + 0x100 * At(b, o + 1) + 0x1_0000 * At(b, o + 2)
  }

  function LE32(b: bytes, o: nat): u32
    requires o + 4 <= |b|
  {
    LE16(b, o) + 0x1_0000 * LE16(b, o + 2)
  }

  function LE64(b: bytes, o: nat): u64
    requires o + 8 <= |b|
  {
    LE32(b, o) + 0x1_0000_0000 * LE32(b, o + 4)
  }

  function BE32(b: bytes, o: nat): u32
    requires o + 4 <= |b|
  {
    0x100_0000 * At(b, o) + 0x1_0000 * At(b, o + 1) + 0x100 * At(b, o + 2) + At(b, o + 3)
  }

  function BE64(b: bytes, o: nat): u64
    requires o + 8 <= |b|
  {
    0x1_0000_0000 * BE32(b, o) + BE32(b, o + 4)
  }

  /** The elements of a table of little-endian words. */
  function U16s(b: bytes): seq<u16> {
    seq(|b| / 2, i requires 0 <= i < |b| / 2 => LE16(b, i * 2))
  }

  function U32s(b: bytes): seq<u32> {
    seq(|b| / 4, i requires 0 <= i < |b| / 4 => LE32(b, i * 4))
  }

  function U64s(b: bytes): seq<u64> {
    seq(|b| / 8, i requires 0 <= i < |b| / 8 => LE64(b, i * 8))
  }

  /** Element i of a table of words. */
  function U16At(b: bytes, i: nat): (w: u16)
    requires i < |b| / 2
    ensures w == U16s(b)[i]
  {
    LE16(b, i * 2)
  }

  function U32At(b: bytes, i: nat): (w: u32)
    requires i < |b| / 4
    ensures w == U32s(b)[i]
  {
    LE32(b, i * 4)
  }

  function U64At(b: bytes, i: nat): (w: u64)
    requires i < |b| / 8
    ensures w == U64s(b)[i]
  {
    LE64(b, i * 8)
  }

  // ---- stores ---------------------------------------------------------------

  function Put16(v: nat): (b: bytes)
    ensures |b| == 2 && LE16(b, 0) == v % 0x1_0000
  {
    [v % 0x100, v / 0x100 % 0x100]
  }

  function Put24(v: nat): (b: bytes)
    ensures |b| == 3 && LE24(b, 0) == v % 0x100_0000
  {
    var r, q := v % 0x1_0000, v / 0x1_0000;
    ModSplit(v, 0x1_0000, 0x100);
    Put16(r) + [q % 0x100]
  }

  function Put32(v: nat): (b: bytes)
    ensures |b| == 4 && LE32(b, 0) == v % 0x1_0000_0000
  {
    var lo, hi := Put16(v), Put16(v / 0x1_0000);
    ModSplit(v, 0x1_0000, 0x1_0000);
    LE16Append(lo, hi);
    lo + hi
  }

  lemma LE16Append(lo: bytes, hi: bytes)
    requires |lo| == |hi| == 2
    ensures LE16(lo + hi, 0) == LE16(lo, 0) && LE16(lo + hi, 2) == LE16(hi, 0)
  {
  }

  lemma LE32Append(lo: bytes, hi: bytes)
    requires |lo| == |hi| == 4
    ensures LE32(lo + hi, 0) == LE32(lo, 0) && LE32(lo + hi, 4) == LE32(hi, 0)
  {
  }

  // ---- loads of appended stores, and stores of loads -------------------------------

  lemma Load16(a: bytes, d: bytes)
    requires |d| == 2
    ensures LE16(a + d, |a|) == LE16(d, 0)
    ensures LoadsKept(a, d)
  {
  }

  lemma Load24(a: bytes, d: bytes)
    requires |d| == 3
    ensures LE24(a + d, |a|) == LE24(d, 0)
    ensures LoadsKept(a, d)
  {
  }

  lemma Load32(a: bytes, d: bytes)
    requires |d| == 4
    ensures LE32(a + d, |a|) == LE32(d, 0)
    ensures LoadsKept(a, d)
  {
  }

  /** Appending changes no earlier load. */
  ghost predicate LoadsKept(a: bytes, d: bytes) {
    && (forall k :: 0 <= k && k + 2 <= |a| ==> LE16(a + d, k) == LE16(a, k))
    && (forall k :: 0 <= k && k + 3 <= |a| ==> LE24(a + d, k) == LE24(a, k))
    && (forall k :: 0 <= k && k + 4 <= |a| ==> LE32(a + d, k) == LE32(a, k))
  }

  /** Loads of a piece are loads of the whole. */
  lemma LoadsInside(e: bytes, o: nat, w: nat, k: nat)
    requires o + w <= |e|
    ensures k < w ==> e[o..o + w][k] == e[o + k]
    ensures k + 2 <= w ==> LE16(e, o + k) == LE16(e[o..o + w], k)
    ensures k + 3 <= w ==> LE24(e, o + k) == LE24(e[o..o + w], k)
    ensures k + 4 <= w ==> LE32(e, o + k) == LE32(e[o..o + w], k)
  {
  }

  lemma SameLoads(b: bytes, o: nat, p: bytes, k: nat)
    requires o + |p| <= |b| && b[o..o + |p|] == p
    ensures k + 3 <= |p| ==> LE24(b, o + k) == LE24(p, k)
    ensures k + 4 <= |p| ==> LE32(b, o + k) == LE32(p, k)
  {
    hide LE24, LE32;
    LoadsInside(b, o, |p|, k);
  }

  /** Loads that lie in the first of two pieces, or in the second. */
  lemma LoadsSplit(a: bytes, b: bytes, k: nat)
    ensures k + 3 <= |a| ==> LE24(a + b, k) == LE24(a, k)
    ensures k + 4 <= |a| ==> LE32(a + b, k) == LE32(a, k)
    ensures k + 3 <= |b| ==> LE24(a + b, |a| + k) == LE24(b, k)
    ensures k + 4 <= |b| ==> LE32(a + b, |a| + k) == LE32(b, k)
  {
  }

  lemma PutLoaded16(b: bytes, o: nat)
    requires o + 2 <= |b|
    ensures Put16(LE16(b, o)) == b[o..o + 2]
  {
  }

  lemma PutLoaded32(b: bytes, o: nat)
    requires o + 4 <= |b|
    ensures Put32(LE32(b, o)) == b[o..o + 4]
  {
    var lo: int, hi: int := LE16(b, o), LE16(b, o + 2);
    var v: int := LE32(b, o);
    PutLoaded16(b, o);
    PutLoaded16(b, o + 2);
    assert v == 0x1_0000 * hi + lo;
    hide LE16, LE32;
    DivModUnique(v, 0x1_0000, hi, lo);
    Put16Mod(v);
    hide Put16;
    assert Put32(v) == Put16(v) + Put16(v / 0x1_0000);
    assert b[o..o + 4] == b[o..o + 2] + b[o + 2..o + 4];
  }

  lemma PutLoaded64(b: bytes, o: nat)
    requires o + 8 <= |b|
    ensures Put64(LE64(b, o)) == b[o..o + 8]
  {
    var lo: int, hi: int := LE32(b, o), LE32(b, o + 4);
    var v: int := LE64(b, o);
    PutLoaded32(b, o);
    PutLoaded32(b, o + 4);
    assert v == 0x1_0000_0000 * hi + lo;
    hide LE32, LE64, Put32;
    DivModUnique(v, 0x1_0000_0000, hi, lo);
    assert b[o..o + 8] == b[o..o + 4] + b[o + 4..o + 8];
  }

  /** 32-bit words one after the other. */
  function PackWords(ws: seq<u32>): (b: bytes)
    ensures |b| == 4 * |ws|
  {
    if ws == [] then [] else PackWords(ws[..|ws| - 1]) + Put32(ws[|ws| - 1])
  }

  lemma {:induction false} WordAt(ws: seq<u32>, k: nat)
    requires k < |ws|
    ensures LE32(PackWords(ws), 4 * k) == ws[k]
  {
    hide LE32, Put32;
    var n := |ws| - 1;
    Load32(PackWords(ws[..n]), Put32(ws[n]));
    if k < n {
      WordAt(ws[..n], k);
    }
  }

  lemma WordsRead(ws: seq<u32>)
    ensures U32s(PackWords(ws)) == ws
  {
    hide LE32, PackWords;
    forall k | 0 <= k < |ws|
      ensures U32s(PackWords(ws))[k] == ws[k]
    {
      WordAt(ws, k);
    }
  }

  lemma Put16Mod(v: nat)
    ensures Put16(v) == Put16(v % 0x1_0000)
  {
  }

  function Put64(v: nat): (b: bytes)
    ensures |b| == 8 && LE64(b, 0) == v % 0x1_0000_0000_0000_0000
  {
    Put64Loads(v);
    Put32(v % 0x1_0000_0000) + Put32(v / 0x1_0000_0000)
  }

  lemma Put64Loads(v: nat)
    ensures LE64(Put32(v % 0x1_0000_0000) + Put32(v / 0x1_0000_0000), 0) == v % 0x1_0000_0000_0000_0000
  {
    hide Put32, LE32;
    ModSplit(v, 0x1_0000_0000, 0x1_0000_0000);
    LE32Append(Put32(v % 0x1_0000_0000), Put32(v / 0x1_0000_0000));
  }

  function Pow2(n: nat): (r: nat)
    ensures r >= 1
  {
    if n == 0 then 1 else 2 * Pow2(n - 1)
  }

  lemma {:induction false} Pow2Add(a: nat, b: nat)
    ensures Pow2(a + b) == Pow2(a) * Pow2(b)
  {
    if a > 0 {
      Pow2Add(a - 1, b);
      assert Pow2(a + b) == 2 * Pow2(a - 1 + b);
    }
  }

  lemma Pow2Words()
    ensures Pow2(15) == 0x8000 && Pow2(16) == 0x1_0000 && Pow2(48) == 0x1_0000_0000_0000
    ensures Pow2(32) == TWO32 && Pow2(64) == TWO64
  {
    assert Pow2(8) == 0x100;
    Pow2Add(8, 8);
    assert Pow2(16) == 2 * Pow2(15);
    hide Pow2;
    Pow2Add(16, 16);
    Pow2Add(16, 32);
    Pow2Add(16, 48);
  }

  lemma {:induction false} Pow2Monotone(a: nat, b: nat)
    requires a <= b
    ensures Pow2(a) <= Pow2(b)
  {
    if a < b {
      Pow2Monotone(a, b - 1);
    }
  }

  lemma MulCancel(d: nat, x: int, y: int)
    requires d * x < d * y
    ensures x < y
  {
  }

  lemma DivMonotone(a: nat, b: nat, d: nat)
    requires a <= b && d > 0
    ensures a / d <= b / d
  {
    var q, p := a / d, b / d;
    assert d * q <= a <= b < d * p + d == d * (p + 1);
    MulCancel(d, q, p + 1);
  }

  lemma DivBelow(a: nat, m: nat, d: nat)
    requires d > 0 && a < m * d
    ensures a / d < m
  {
    assert d * (a / d) <= a < d * m;
    MulCancel(d, a / d, m);
  }

  lemma DivModUnique(v: int, m: nat, p: int, r: int)
    requires m > 0 && v == m * p + r && 0 <= r < m
    ensures v / m == p && v % m == r
  {
    var q, t := v / m, v % m;
    assert v == m * q + t && m * (p - q) == t - r;
    if p > q {
      MulCancel(m, p - q, 1);
    } else if p < q {
      assert m * (q - p) == r - t;
      MulCancel(m, q - p, 1);
    }
  }

  lemma MulMonotone(a: nat, x: int, y: int)
    requires x <= y
    ensures a * x <= a * y
  {
  }

  lemma MulBelow(a: nat, t: nat, b: nat, r: nat)
    requires t < b && r < a
    ensures 0 <= a * t + r < a * b
  {
    MulMonotone(a, t + 1, b);
    assert a * (t + 1) == a * t + a;
  }

  lemma MulRegroup(a: int, b: int, p: int, t: int)
    ensures a * (b * p + t) == a * b * p + a * t
  {
  }

  lemma ModSplit(v: nat, a: nat, b: nat)
    requires a > 0 && b > 0
    ensures a * b > 0 && v % (a * b) == v % a + a * (v / a % b)
    ensures v / a / b == v / (a * b)
  {
    var q, r := v / a, v % a;
    var p, t := q / b, q % b;
    MulBelow(a, t, b, r);
    MulRegroup(a, b, p, t);
    assert v == a * q + r && q == b * p + t;
    DivModUnique(v, a * b, p, a * t + r);
  }

  // ---- what loads read -------------------------------------------------------------

  /** The number whose bytes are b, the most significant first. */
  function Big(b: bytes): nat {
    if b == [] then 0 else 0x100 * Big(b[..|b| - 1]) + b[|b| - 1]
  }

  function Reversed(b: bytes): (r: bytes)
    ensures |r| == |b|
  {
    if b == [] then [] else Reversed(b[1..]) + [b[0]]
  }

  /** The number whose bytes are b, the least significant first. */
  function Little(b: bytes): nat {
    Big(Reversed(b))
  }

  lemma LittleStep(b: bytes)
    requires b != []
    ensures Little(b) == b[0] + 0x100 * Little(b[1..])
  {
    var r := Reversed(b);
    assert r[..|r| - 1] == Reversed(b[1..]);
  }

  /** Each load reads the number of its bytes: LE the low byte first, BE the high. */
  lemma LoadsRead(b: bytes, o: nat)
    ensures o + 2 <= |b| ==> LE16(b, o) == Little(b[o..o + 2])
    ensures o + 3 <= |b| ==> LE24(b, o) == Little(b[o..o + 3])
    ensures o + 4 <= |b| ==> LE32(b, o) == Little(b[o..o + 4]) && BE32(b, o) == Big(b[o..o + 4])
  {
    if o + 2 <= |b| {
      Little2(b[o], b[o + 1]);
      assert b[o..o + 2] == [b[o], b[o + 1]];
    }
    if o + 3 <= |b| {
      Little3(b[o], b[o + 1], b[o + 2]);
      assert b[o..o + 3] == [b[o], b[o + 1], b[o + 2]];
    }
    if o + 4 <= |b| {
      Little4(b[o], b[o + 1], b[o + 2], b[o + 3]);
      Big4(b[o], b[o + 1], b[o + 2], b[o + 3]);
      assert b[o..o + 4] == [b[o], b[o + 1], b[o + 2], b[o + 3]];
    }
  }

  lemma Little2(x: u8, y: u8)
    ensures Little([x, y]) == x as int + 0x100 * y as int
  {
    LittleStep([x, y]);
    LittleStep([y]);
    assert [x, y][1..] == [y] && [y][1..] == [];
  }

  lemma Little3(x: u8, y: u8, z: u8)
    ensures Little([x, y, z]) == x as int + 0x100 * y as int + 0x1_0000 * z as int
  {
    LittleStep([x, y, z]);
    Little2(y, z);
    assert [x, y, z][1..] == [y, z];
  }

  lemma Little4(x: u8, y: u8, z: u8, t: u8)
    ensures Little([x, y, z, t]) == x as int + 0x100 * y as int + 0x1_0000 * z as int + 0x100_0000 * t as int
  {
    LittleStep([x, y, z, t]);
    LittleStep([y, z, t]);
    Little2(z, t);
    assert [x, y, z, t][1..] == [y, z, t] && [y, z, t][1..] == [z, t];
  }

  lemma Big4(x: u8, y: u8, z: u8, t: u8)
    ensures Big([x, y, z, t]) == 0x100_0000 * x as int + 0x1_0000 * y as int + 0x100 * z as int + t as int
  {
    assert [x, y, z, t][..3] == [x, y, z] && [x, y, z][..2] == [x, y] && [x, y][..1] == [x] && [x][..0] == [];
    assert Big([x]) == x;
    assert Big([x, y]) == 0x100 * Big([x]) + y;
    assert Big([x, y, z]) == 0x100 * Big([x, y]) + z;
    assert Big([x, y, z, t]) == 0x100 * Big([x, y, z]) + t;
  }

  /** Two 32-bit halves make a 64-bit load. */
  lemma Loads64(b: bytes, o: nat)
    requires o + 8 <= |b|
    ensures LE64(b, o) == Little(b[o..o + 8]) && BE64(b, o) == Big(b[o..o + 8])
  {
    hide LE32, BE32, Big, Reversed;
    LoadsRead(b, o);
    LoadsRead(b, o + 4);
    var lo, hi := b[o..o + 4], b[o + 4..o + 8];
    assert b[o..o + 8] == lo + hi;
    BigConcat4(lo, hi);
    BigConcat4(Reversed(hi), Reversed(lo));
    ReversedConcat(lo, hi);
  }

  lemma {:induction false} ReversedConcat(a: bytes, b: bytes)
    ensures Reversed(a + b) == Reversed(b) + Reversed(a)
  {
    if a == [] {
      assert a + b == b && Reversed(b) + [] == Reversed(b);
    } else {
      assert (a + b)[1..] == a[1..] + b;
      ReversedConcat(a[1..], b);
    }
  }

  /** Appending bytes shifts the number up by them. */
  lemma {:induction false} BigConcat(a: bytes, b: bytes)
    ensures Big(a + b) == Big(a) * Pow2(8 * |b|) + Big(b)
    ensures Big(b) < Pow2(8 * |b|)
    decreases |b|
  {
    hide Reversed;
    assert Pow2(0) == 1;
    if b == [] {
      assert a + b == a;
    } else {
      var n := |b| - 1;
      var init, last: int := b[..n], b[n];
      assert (a + b)[..|a + b| - 1] == a + init;
      BigConcat(a, init);
      Pow2Byte(n);
      ShiftByte(Big(a), Pow2(8 * n), Big(init), last);
    }
  }

  lemma Pow2Byte(n: nat)
    ensures Pow2(8 * (n + 1)) == 0x100 * Pow2(8 * n)
  {
    assert Pow2(8) == 0x100;
    Pow2Add(8, 8 * n);
  }

  lemma ShiftByte(a: nat, p: nat, x: int, c: int)
    ensures 0x100 * (a * p + x) + c == a * (0x100 * p) + (0x100 * x + c)
  {
  }

  lemma BigConcat4(a: bytes, b: bytes)
    requires |b| == 4
    ensures Big(a + b) == Big(a) * 0x1_0000_0000 + Big(b)
  {
    Pow2Words();
    hide Pow2, Big;
    BigConcat(a, b);
  }

  lemma BigConcat8(a: bytes, b: bytes)
    requires |b| == 8
    ensures Big(a + b) == Big(a) * 0x1_0000_0000_0000_0000 + Big(b)
  {
    Pow2Words();
    hide Pow2, Big;
    BigConcat(a, b);
  }

  /** Byte order: the first byte that differs decides. */
  ghost predicate Earlier(a: bytes, b: bytes) {
    exists k :: 0 <= k < |a| && k < |b| && a[..k] == b[..k] && a[k] < b[k]
  }

  /** Numbers of as many bytes are ordered as their bytes are. */
  lemma {:induction false} BigOrder(a: bytes, b: bytes)
    requires |a| == |b|
    ensures Big(a) < Big(b) <==> Earlier(a, b)
    ensures Big(a) == Big(b) <==> a == b
    decreases |a|
  {
    if a != [] {
      var n := |a| - 1;
      var p, q := a[..n], b[..n];
      BigOrder(p, q);
      assert a == p + [a[n]] && b == q + [b[n]];
      EarlierStep(a, b);
    }
  }

  lemma EarlierStep(a: bytes, b: bytes)
    requires |a| == |b| > 0
    ensures var n := |a| - 1;
      Earlier(a, b) <==> Earlier(a[..n], b[..n]) || (a[..n] == b[..n] && a[n] < b[n])
  {
    var n := |a| - 1;
    var p, q := a[..n], b[..n];
    if Earlier(a, b) {
      var k :| 0 <= k < |a| && a[..k] == b[..k] && a[k] < b[k];
      if k < n {
        assert p[..k] == a[..k] && q[..k] == b[..k] && p[k] < q[k];
      }
    }
    if Earlier(p, q) {
      var k :| 0 <= k < n && p[..k] == q[..k] && p[k] < q[k];
      assert p[..k] == a[..k] && q[..k] == b[..k];
    }
  }
}
