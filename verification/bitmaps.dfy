/** A bitmap of 64-bit words, one bit per index. */
module Bitmaps {
  import opened Words

  predicate Bit(w: nat, b: nat) {
    w / Pow2(b) % 2 == 1
  }

  /** w | 1 << b */
  function OrBit(w: nat, b: nat): nat {
    if Bit(w, b) then w else w + Pow2(b)
  }

  lemma BitHalf(w: nat, b: nat)
    requires b > 0
    ensures Bit(w, b) <==> Bit(w / 2, b - 1)
  {
    ModSplit(w, 2, Pow2(b - 1));
  }

  lemma OrBitHalf(w: nat, b: nat)
    requires b > 0
    ensures OrBit(w, b) / 2 == OrBit(w / 2, b - 1) && OrBit(w, b) % 2 == w % 2
  {
    BitHalf(w, b);
    assert Pow2(b) == 2 * Pow2(b - 1);
  }

  lemma {:induction false} SetBit(w: nat, b: nat, c: nat)
    ensures Bit(OrBit(w, b), c) <==> Bit(w, c) || b == c
    decreases b
  {
    assert Pow2(0) == 1;
    if b == 0 {
      assert OrBit(w, b) / 2 == w / 2;
      if c > 0 {
        BitHalf(OrBit(w, b), c);
        BitHalf(w, c);
      }
    } else {
      OrBitHalf(w, b);
      if c > 0 {
        BitHalf(OrBit(w, b), c);
        BitHalf(w, c);
        SetBit(w / 2, b - 1, c - 1);
      }
    }
  }

  /** Setting a bit of an n-bit word leaves an n-bit word. */
  lemma {:induction false} OrBitFits(w: nat, b: nat, n: nat)
    requires b < n && w < Pow2(n)
    ensures OrBit(w, b) < Pow2(n)
  {
    assert Pow2(n) == 2 * Pow2(n - 1);
    if b > 0 {
      OrBitHalf(w, b);
      OrBitFits(w / 2, b - 1, n - 1);
    }
  }

  /** A word has no bit but the low m exactly when it is below 2^m. */
  lemma {:induction false} LowBits(c: nat, m: nat, n: nat)
    requires m <= n && c < Pow2(n)
    ensures (forall k: nat :: m <= k < n ==> !Bit(c, k)) <==> c < Pow2(m)
    decreases n
  {
    if m == n {
    } else {
      var top := Pow2(n - 1);
      assert Pow2(n) == 2 * top;
      if c < top {
        assert !Bit(c, n - 1) by { DivModUnique(c, top, 0, c); }
        LowBits(c, m, n - 1);
      } else {
        assert Bit(c, n - 1) by { DivModUnique(c, top, 1, c - top); }
        Pow2Monotone(m, n - 1);
      }
    }
  }

  predicate Marked(words: seq<nat>, i: nat)
    requires i < 64 * |words|
  {
    Bit(words[i / 64], i % 64)
  }

  /** Setting bit e marks e and nothing else. */
  lemma Mark(words: seq<nat>, e: nat, i: nat)
    requires e < 64 * |words| && i < 64 * |words|
    ensures var w := words[e / 64 := OrBit(words[e / 64], e % 64)];
      Marked(w, i) <==> Marked(words, i) || i == e
  {
    hide Bit, OrBit;
    SetBit(words[e / 64], e % 64, i % 64);
  }
}
