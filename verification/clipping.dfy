/** Carving prefixes out of a range: what range6, yieldUnaliased and the CSV
    reader do at the alias prefixes, over any ascending list of blocks. */
module Clipping {
  import opened Words
  import opened Addresses

  ghost predicate Disjoint(blocks: seq<Block>) {
    && (forall k :: 0 <= k < |blocks| ==> 0 <= blocks[k].first <= blocks[k].last)
    && (forall j, k :: 0 <= j < k < |blocks| ==> blocks[j].last < blocks[k].first)
  }

  lemma AliasesDisjoint()
    ensures Disjoint(ALIASES)
  {
  }

  // ---- clipping around a key ---------------------------------------------------

  /** The bounds of [f, l] cut at the blocks below and above the key. */
  function Clip(blocks: seq<Block>, f: int, l: int, key: int): (int, int) {
    if blocks == [] then (f, l)
    else
      var a := blocks[0];
      Clip(blocks[1..],
           if a.last < key && f <= a.last then a.last + 1 else f,
           if key < a.first && a.first <= l then a.first - 1 else l,
           key)
  }

  /** The result holds the key, stays inside, meets no block, cannot grow, and
      is the result for every address in it. */
  lemma {:induction false} ClipMeaning(blocks: seq<Block>, f: int, l: int, key: int)
    requires f <= key <= l && !InSome(blocks, key)
    requires forall k :: 0 <= k < |blocks| ==> blocks[k].first <= blocks[k].last
    ensures var r := Clip(blocks, f, l, key);
      && f <= r.0 <= key <= r.1 <= l
      && (forall x :: r.0 <= x <= r.1 ==> !InSome(blocks, x))
      && (r.0 == f || InSome(blocks, r.0 - 1))
      && (r.1 == l || InSome(blocks, r.1 + 1))
      && (forall x :: r.0 <= x <= r.1 ==> Clip(blocks, f, l, x) == r)
  {
    hide InSome;
    InNone(key);
    forall x
      ensures blocks == [] ==> !InSome(blocks, x)
    {
      InNone(x);
    }
    if blocks != [] {
      var a, rest := blocks[0], blocks[1..];
      InFirst(blocks, key);
      var f', l' := if a.last < key && f <= a.last then a.last + 1 else f,
                    if key < a.first && a.first <= l then a.first - 1 else l;
      ClipMeaning(rest, f', l', key);
      var r := Clip(blocks, f, l, key);
      forall x | r.0 <= x <= r.1
        ensures !InSome(blocks, x) && Clip(blocks, f, l, x) == r
      {
        InFirst(blocks, x);
      }
      InFirst(blocks, r.0 - 1);
      InFirst(blocks, r.1 + 1);
    }
  }

  lemma InFirst(blocks: seq<Block>, x: int)
    requires blocks != []
    ensures InSome(blocks, x) <==> blocks[0].Holds(x) || InSome(blocks[1..], x)
  {
    var rest := blocks[1..];
    if InSome(rest, x) {
      var k :| 0 <= k < |rest| && rest[k].Holds(x);
      assert blocks[k + 1].Holds(x);
    }
    assert forall k :: 1 <= k < |blocks| ==> blocks[k] == rest[k - 1];
  }

  /** range6's loop over the aliases, on 64-bit halves. */
  method ClipHalves(f1: u64, f0: u64, l1: u64, l0: u64, hi: u64, lo: u64)
    returns (fh: u64, fl: u64, lh: u64, ll: u64)
    ensures (Join(fh, fl), Join(lh, ll)) == Clip(ALIASES, Join(f1, f0), Join(l1, l0), Join(hi, lo))
  {
    fh, fl, lh, ll := f1, f0, l1, l0;
    assert ALIASES[0..] == ALIASES;
    for k := 0 to |ALIASES|
      invariant Clip(ALIASES[k..], Join(fh, fl), Join(lh, ll), Join(hi, lo))
             == Clip(ALIASES, Join(f1, f0), Join(l1, l0), Join(hi, lo))
    {
      assert ALIASES[k..][0] == ALIASES[k] && ALIASES[k..][1..] == ALIASES[k + 1..];
      fh, fl, lh, ll := CutAt(k, fh, fl, lh, ll, hi, lo);
    }
  }

  // ---- the parts of a range outside the blocks -------------------------------

  /** The maximal pieces of [f, l] outside the blocks, in order. */
  function Parts(blocks: seq<Block>, f: int, l: int): seq<Block> {
    if blocks == [] then [Block(f, l)]
    else
      var a := blocks[0];
      if a.last < f then Parts(blocks[1..], f, l)
      else if l < a.first then [Block(f, l)]
      else (if f < a.first then [Block(f, a.first - 1)] else [])
           + (if l <= a.last then [] else Parts(blocks[1..], a.last + 1, l))
  }

  /** Non-empty blocks in ascending order, with room between any two. */
  ghost predicate Pieces(p: seq<Block>, f: int, l: int) {
    && (forall k :: 0 <= k < |p| ==> f <= p[k].first <= p[k].last <= l)
    && (forall j, k :: 0 <= j < k < |p| ==> p[j].last + 1 < p[k].first)
  }

  lemma InConcat(a: seq<Block>, b: seq<Block>, x: int)
    ensures InSome(a + b, x) <==> InSome(a, x) || InSome(b, x)
  {
    var c := a + b;
    if InSome(a, x) {
      var k :| 0 <= k < |a| && a[k].Holds(x);
      assert c[k].Holds(x);
    }
    if InSome(b, x) {
      var k :| 0 <= k < |b| && b[k].Holds(x);
      assert c[|a| + k].Holds(x);
    }
  }

  lemma PiecesConcat(p: seq<Block>, q: seq<Block>, f: int, m: int, n: int, l: int)
    requires Pieces(p, f, m) && Pieces(q, n, l) && m + 1 < n && f <= n && m <= l
    ensures Pieces(p + q, f, l)
  {
  }

  lemma PiecesUpTo(f: int, m: int)
    ensures Pieces([], f, m)
    ensures f <= m ==> Pieces([Block(f, m)], f, m)
  {
  }

  lemma {:induction false} PartsOrdered(blocks: seq<Block>, f: int, l: int)
    requires Disjoint(blocks) && f <= l
    ensures Pieces(Parts(blocks, f, l), f, l)
  {
    hide Pieces, Disjoint, InSome;
    PiecesUpTo(f, l);
    if blocks != [] {
      var a, rest := blocks[0], blocks[1..];
      InRest(blocks, f);
      if a.last < f {
        PartsOrdered(rest, f, l);
      } else if a.first <= l {
        var left := if f < a.first then [Block(f, a.first - 1)] else [];
        var right := if l <= a.last then [] else Parts(rest, a.last + 1, l);
        PiecesUpTo(f, a.first - 1);
        PiecesUpTo(a.last + 1, l);
        if a.last < l {
          PartsOrdered(rest, a.last + 1, l);
        }
        FirstBlock(blocks);
        PiecesConcatAll(left, right, f, a, l);
      }
    }
  }

  lemma FirstBlock(blocks: seq<Block>)
    requires Disjoint(blocks) && blocks != []
    ensures 0 <= blocks[0].first <= blocks[0].last
  {
  }

  lemma PiecesConcatAll(left: seq<Block>, right: seq<Block>, f: int, a: Block, l: int)
    requires f <= l && f <= a.last && a.first <= l && a.first <= a.last
    requires left == if f < a.first then [Block(f, a.first - 1)] else []
    requires Pieces(right, a.last + 1, l)
    ensures Pieces(left + right, f, l)
  {
    hide Pieces;
    if f < a.first {
      PiecesUpTo(f, a.first - 1);
      PiecesConcat(left, right, f, a.first - 1, a.last + 1, l);
    } else {
      assert left + right == right;
      PiecesWiden(right, a.last + 1, f, l);
    }
  }

  lemma PiecesWiden(p: seq<Block>, f: int, e: int, l: int)
    requires Pieces(p, f, l) && e <= f
    ensures Pieces(p, e, l)
  {
  }

  lemma InSingle(f: int, l: int, x: int)
    ensures InSome([Block(f, l)], x) <==> f <= x <= l
  {
    assert [Block(f, l)][0].Holds(x) <==> f <= x <= l;
  }

  /** The first block comes before the others. */
  lemma InRest(blocks: seq<Block>, x: int)
    requires Disjoint(blocks) && blocks != []
    ensures InSome(blocks, x) <==> blocks[0].Holds(x) || InSome(blocks[1..], x)
    ensures InSome(blocks[1..], x) ==> blocks[0].last < x
    ensures Disjoint(blocks[1..])
  {
    var a, rest := blocks[0], blocks[1..];
    assert blocks == [a] + rest;
    InConcat([a], rest, x);
    InSingle(a.first, a.last, x);
  }

  /** The parts are exactly the range minus the blocks. */
  lemma {:induction false} PartsExact(blocks: seq<Block>, f: int, l: int, x: int)
    requires Disjoint(blocks) && f <= l
    ensures InSome(Parts(blocks, f, l), x) <==> f <= x <= l && !InSome(blocks, x)
  {
    hide InSome, Disjoint;
    InSingle(f, l, x);
    InNone(x);
    if blocks != [] {
      var a, rest := blocks[0], blocks[1..];
      InRest(blocks, x);
      FirstBlock(blocks);
      if a.last < f {
        PartsExact(rest, f, l, x);
      } else if a.first <= l {
        if a.last < l {
          PartsExact(rest, a.last + 1, l, x);
        }
        var right := if l <= a.last then [] else Parts(rest, a.last + 1, l);
        PartsSplit(f, l, a, right, x);
      }
    }
  }

  lemma PartsSplit(f: int, l: int, a: Block, right: seq<Block>, x: int)
    requires f <= a.last && a.first <= l
    ensures var left := if f < a.first then [Block(f, a.first - 1)] else [];
      InSome(left + right, x) <==> f <= x < a.first || InSome(right, x)
  {
    var left := if f < a.first then [Block(f, a.first - 1)] else [];
    InConcat(left, right, x);
    InSingle(f, a.first - 1, x);
    InNone(x);
  }

  lemma InNone(x: int)
    ensures !InSome([], x)
  {
  }

  /** A maximal interval around a key is unique, so the part that holds a key
      is the range clipped around it. */
  lemma PartIsClip(blocks: seq<Block>, f: int, l: int, k: int, key: int)
    requires Disjoint(blocks) && f <= l
    requires 0 <= k < |Parts(blocks, f, l)| && Parts(blocks, f, l)[k].Holds(key)
    ensures !InSome(blocks, key)
    ensures var p, r := Parts(blocks, f, l)[k], Clip(blocks, f, l, key); p.first == r.0 && p.last == r.1
  {
    var p := Parts(blocks, f, l)[k];
    NonEmptyBlocks(blocks);
    hide InSome, Disjoint, Parts, Clip;
    PartOpen(blocks, f, l, k, key);
    ClipMeaning(blocks, f, l, key);
    PartClosed(blocks, f, l, k, p.first - 1);
    PartClosed(blocks, f, l, k, p.last + 1);
    var r := Clip(blocks, f, l, key);
    PartOpen(blocks, f, l, k, r.0 - 1);
    PartOpen(blocks, f, l, k, r.1 + 1);
  }

  lemma NonEmptyBlocks(blocks: seq<Block>)
    requires Disjoint(blocks)
    ensures forall k :: 0 <= k < |blocks| ==> blocks[k].first <= blocks[k].last
  {
  }

  /** Every address of a part is in the range and outside the blocks. */
  lemma PartOpen(blocks: seq<Block>, f: int, l: int, k: int, x: int)
    requires Disjoint(blocks) && f <= l && 0 <= k < |Parts(blocks, f, l)|
    ensures Parts(blocks, f, l)[k].Holds(x) ==> f <= x <= l && !InSome(blocks, x)
  {
    PartsExact(blocks, f, l, x);
  }

  /** The neighbours of a part are not. */
  lemma PartClosed(blocks: seq<Block>, f: int, l: int, k: int, x: int)
    requires Disjoint(blocks) && f <= l && 0 <= k < |Parts(blocks, f, l)|
    requires var p := Parts(blocks, f, l)[k]; x == p.first - 1 || x == p.last + 1
    ensures !(f <= x <= l) || InSome(blocks, x)
  {
    var parts := Parts(blocks, f, l);
    PartsOrdered(blocks, f, l);
    PartsExact(blocks, f, l, x);
    forall j | 0 <= j < |parts|
      ensures !parts[j].Holds(x)
    {
    }
  }
}
