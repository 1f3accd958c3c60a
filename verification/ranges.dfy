/** The meaning of range lookups and of the enumeration of covered ranges
    (ranges.go): both describe the map from addresses to answers. */
module Ranges {
  import opened Words
  import opened Boundaries
  import opened Databases
  import opened Addresses
  import opened Clipping

  const MAX4: int := TWO32 - 1
  const MAX6: int := TWO128 - 1

  /** The zero Range, which holds no address. */
  const NO_RANGE := Block(0, -1)

  /** The addresses of boundary i, up to the next start or the end of the space. */
  function BoundaryRange(starts: seq<int>, max: int, i: int): Block
    requires -1 <= i < |starts|
  {
    Block(if i >= 0 then starts[i] else 0,
          if i + 1 < |starts| then starts[i + 1] - 1 else max)
  }

  /** The boundary range of a key. */
  ghost function RangeOf(starts: seq<int>, max: int, key: int): Block {
    BoundaryRange(starts, max, Last(starts, key))
  }

  ghost predicate InSpace(starts: seq<int>, max: int) {
    Ascending(starts) && forall i :: 0 <= i < |starts| ==> 0 <= starts[i] <= max
  }

  /** The addresses of a boundary range are those its boundary answers for. */
  lemma RangeHolds(starts: seq<int>, max: int, i: int, x: int)
    requires InSpace(starts, max) && -1 <= i < |starts| && 0 <= x <= max
    ensures BoundaryRange(starts, max, i).Holds(x) <==> Last(starts, x) == i
  {
    if BoundaryRange(starts, max, i).Holds(x) {
      LastUnique(starts, x, i);
    }
  }

  /** range6's result: the boundary range of the key, cut at the alias prefixes. */
  ghost function ClippedRange(starts: seq<int>, max: int, blocks: seq<Block>, key: int): Block {
    var r := RangeOf(starts, max, key);
    var c := Clip(blocks, r.first, r.last, key);
    Block(c.0, c.1)
  }

  /** A looked-up range holds its key, has one answer throughout, meets no
      block, is returned for each of its addresses, and cannot be extended. */
  lemma ClippedRangeMeaning(starts: seq<int>, max: int, blocks: seq<Block>, key: int)
    requires InSpace(starts, max) && Disjoint(blocks)
    requires 0 <= key <= max && !InSome(blocks, key)
    ensures var r := ClippedRange(starts, max, blocks, key);
      && 0 <= r.first <= key <= r.last <= max
      && (forall x :: r.Holds(x) ==>
            Last(starts, x) == Last(starts, key) && !InSome(blocks, x) && ClippedRange(starts, max, blocks, x) == r)
      && (r.first == 0 || InSome(blocks, r.first - 1) || Last(starts, r.first - 1) != Last(starts, key))
      && (r.last == max || InSome(blocks, r.last + 1) || Last(starts, r.last + 1) != Last(starts, key))
  {
    var i := Last(starts, key);
    var b := RangeOf(starts, max, key);
    RangeHolds(starts, max, i, key);
    ClipMeaning(blocks, b.first, b.last, key);
    var r := ClippedRange(starts, max, blocks, key);
    forall x | r.Holds(x)
      ensures Last(starts, x) == i && !InSome(blocks, x) && ClippedRange(starts, max, blocks, x) == r
    {
      RangeHolds(starts, max, i, x);
    }
    if r.first > 0 {
      RangeHolds(starts, max, i, r.first - 1);
    }
    if r.last < max {
      RangeHolds(starts, max, i, r.last + 1);
    }
  }

  /** Two looked-up ranges are the same or have no address in common: the
      results of LookupRange partition the addresses outside the blocks. */
  lemma RangesPartition(starts: seq<int>, max: int, blocks: seq<Block>, x: int, y: int, z: int)
    requires InSpace(starts, max) && Disjoint(blocks)
    requires 0 <= x <= max && !InSome(blocks, x) && 0 <= y <= max && !InSome(blocks, y)
    ensures ClippedRange(starts, max, blocks, x).Holds(z) && ClippedRange(starts, max, blocks, y).Holds(z)
            ==> ClippedRange(starts, max, blocks, x) == ClippedRange(starts, max, blocks, y)
  {
    ClippedRangeMeaning(starts, max, blocks, x);
    ClippedRangeMeaning(starts, max, blocks, y);
  }

  // ---- the enumeration ----------------------------------------------------------

  datatype Item = Item(range: Block, id: u32)

  function Label(parts: seq<Block>, id: u32): (r: seq<Item>)
    ensures |r| == |parts|
  {
    seq(|parts|, k requires 0 <= k < |parts| => Item(parts[k], id))
  }

  /** What Ranges yields from boundary i on. */
  ghost function Covered(starts: seq<int>, ids: seq<u32>, max: int, blocks: seq<Block>, i: nat): seq<Item>
    requires |ids| == |starts| && i <= |starts|
    decreases |starts| - i
  {
    if i == |starts| then []
    else
      var r := BoundaryRange(starts, max, i);
      (if ids[i] != 0 then Label(Parts(blocks, r.first, r.last), ids[i]) else [])
      + Covered(starts, ids, max, blocks, i + 1)
  }

  ghost predicate Has(items: seq<Item>, x: int, id: u32) {
    exists k :: 0 <= k < |items| && items[k].range.Holds(x) && items[k].id == id
  }

  lemma HasConcat(a: seq<Item>, b: seq<Item>, x: int, id: u32)
    ensures Has(a + b, x, id) <==> Has(a, x, id) || Has(b, x, id)
  {
    var c := a + b;
    if Has(a, x, id) {
      var k :| 0 <= k < |a| && a[k].range.Holds(x) && a[k].id == id;
      assert c[k].range.Holds(x);
    }
    if Has(b, x, id) {
      var k :| 0 <= k < |b| && b[k].range.Holds(x) && b[k].id == id;
      assert c[|a| + k].range.Holds(x);
    }
  }

  lemma HasLabel(parts: seq<Block>, x: int, id: u32, d: u32)
    ensures Has(Label(parts, d), x, id) <==> InSome(parts, x) && id == d
  {
    var l := Label(parts, d);
    if InSome(parts, x) {
      var k :| 0 <= k < |parts| && parts[k].Holds(x);
      assert l[k].range.Holds(x);
    }
    if Has(l, x, id) {
      var k :| 0 <= k < |l| && l[k].range.Holds(x) && l[k].id == id;
      assert parts[k].Holds(x);
    }
  }

  /** The enumeration covers exactly the addresses with an answer, outside the
      blocks, each with its answer. */
  lemma {:induction false} CoveredExact(
    starts: seq<int>, ids: seq<u32>, max: int, blocks: seq<Block>, i: nat, x: int, id: u32)
    requires InSpace(starts, max) && Disjoint(blocks) && |ids| == |starts| && i <= |starts|
    requires 0 <= x <= max
    ensures Has(Covered(starts, ids, max, blocks, i), x, id)
            <==> Last(starts, x) >= i && ids[Last(starts, x)] == id && id != 0 && !InSome(blocks, x)
    decreases |starts| - i
  {
    if i < |starts| {
      var r := BoundaryRange(starts, max, i);
      var own := if ids[i] != 0 then Label(Parts(blocks, r.first, r.last), ids[i]) else [];
      CoveredExact(starts, ids, max, blocks, i + 1, x, id);
      HasConcat(own, Covered(starts, ids, max, blocks, i + 1), x, id);
      RangeHolds(starts, max, i, x);
      RangeNonEmpty(starts, max, i);
      PartsExact(blocks, r.first, r.last, x);
      HasLabel(Parts(blocks, r.first, r.last), x, id, ids[i]);
    }
  }

  lemma RangeNonEmpty(starts: seq<int>, max: int, i: nat)
    requires InSpace(starts, max) && i < |starts|
    ensures var r := BoundaryRange(starts, max, i); 0 <= r.first <= r.last <= max
  {
  }

  /** Ascending, disjoint, non-empty ranges between two addresses. */
  ghost predicate InOrder(items: seq<Item>, f: int, l: int) {
    && (forall k :: 0 <= k < |items| ==> f <= items[k].range.first <= items[k].range.last <= l)
    && (forall j, k :: 0 <= j < k < |items| ==> items[j].range.last < items[k].range.first)
  }

  lemma InOrderConcat(a: seq<Item>, b: seq<Item>, f: int, m: int, l: int)
    requires InOrder(a, f, m) && InOrder(b, m + 1, l) && f <= m + 1 && m <= l
    ensures InOrder(a + b, f, l)
  {
  }

  lemma {:induction false} CoveredInOrder(starts: seq<int>, ids: seq<u32>, max: int, blocks: seq<Block>, i: nat)
    requires InSpace(starts, max) && Disjoint(blocks) && |ids| == |starts| && i <= |starts|
    ensures InOrder(Covered(starts, ids, max, blocks, i), if i < |starts| then starts[i] else max + 1, max)
    decreases |starts| - i
  {
    if i < |starts| {
      var r := BoundaryRange(starts, max, i);
      var parts := Parts(blocks, r.first, r.last);
      var own := if ids[i] != 0 then Label(parts, ids[i]) else [];
      RangeNonEmpty(starts, max, i);
      PartsOrdered(blocks, r.first, r.last);
      assert InOrder(own, r.first, r.last);
      CoveredInOrder(starts, ids, max, blocks, i + 1);
      InOrderConcat(own, Covered(starts, ids, max, blocks, i + 1), r.first, r.last, max);
    }
  }

  /** Each yielded range is the one LookupRange returns for its addresses. */
  lemma {:induction false} CoveredAreLookups(
    starts: seq<int>, ids: seq<u32>, max: int, blocks: seq<Block>, i: nat, k: nat, x: int)
    requires InSpace(starts, max) && Disjoint(blocks) && |ids| == |starts| && i <= |starts|
    requires k < |Covered(starts, ids, max, blocks, i)| && Covered(starts, ids, max, blocks, i)[k].range.Holds(x)
    ensures var item := Covered(starts, ids, max, blocks, i)[k];
      item.range == ClippedRange(starts, max, blocks, x) && item.id == Answer(starts, ids, x) != 0
    decreases |starts| - i
  {
    hide InSpace, Disjoint, Clip, Parts;
    var r := BoundaryRange(starts, max, i);
    var own := if ids[i] != 0 then Label(Parts(blocks, r.first, r.last), ids[i]) else [];
    var rest := Covered(starts, ids, max, blocks, i + 1);
    assert Covered(starts, ids, max, blocks, i) == own + rest;
    if k < |own| {
      OwnIsLookup(starts, ids, max, blocks, i, k, x);
    } else {
      CoveredAreLookups(starts, ids, max, blocks, i + 1, k - |own|, x);
    }
  }

  lemma OwnIsLookup(starts: seq<int>, ids: seq<u32>, max: int, blocks: seq<Block>, i: nat, k: nat, x: int)
    requires InSpace(starts, max) && Disjoint(blocks) && |ids| == |starts| && i < |starts|
    requires var r := BoundaryRange(starts, max, i);
      k < |Parts(blocks, r.first, r.last)| && Parts(blocks, r.first, r.last)[k].Holds(x)
    ensures var r := BoundaryRange(starts, max, i);
      Parts(blocks, r.first, r.last)[k] == ClippedRange(starts, max, blocks, x) && Last(starts, x) == i
  {
    var r := BoundaryRange(starts, max, i);
    RangeNonEmpty(starts, max, i);
    PartsOrdered(blocks, r.first, r.last);
    RangeHolds(starts, max, i, x);
    PartIsClip(blocks, r.first, r.last, k, x);
  }

  // ---- delivery to a consumer that may stop ---------------------------------------

  /** A range-over-func body: it collects what it is given and says, from what
      it has, whether it wants more. Each range comes with its record's details. */
  class Consumer<D> {
    var got: seq<Item>
    var details: seq<D>
    const wants: seq<Item> -> bool

    constructor (w: seq<Item> -> bool)
      ensures got == [] && details == [] && wants == w
    {
      got, details, wants := [], [], w;
    }

    /** Every range came with the details of its record. */
    ghost predicate Informed(of: u32 -> D)
      reads this
    {
      |details| == |got| && forall k :: 0 <= k < |got| ==> details[k] == of(got[k].id)
    }

    method Yield(x: Item, d: D) returns (more: bool)
      modifies this`got, this`details
      ensures got == old(got) + [x] && details == old(details) + [d] && more == wants(got)
    {
      got, details := got + [x], details + [d];
      more := wants(got);
    }
  }

  /** Handing a list to a consumer until it stops: what it has afterwards, and
      whether it wants more. */
  ghost function Deliver(got: seq<Item>, items: seq<Item>, wants: seq<Item> -> bool): (seq<Item>, bool)
    decreases |items|
  {
    if items == [] then (got, true)
    else
      var g := got + [items[0]];
      if wants(g) then Deliver(g, items[1..], wants) else (g, false)
  }

  lemma {:induction false} DeliverConcat(got: seq<Item>, a: seq<Item>, b: seq<Item>, wants: seq<Item> -> bool)
    ensures var d := Deliver(got, a, wants);
      Deliver(got, a + b, wants) == if d.1 then Deliver(d.0, b, wants) else d
    decreases |a|
  {
    if a == [] {
      assert a + b == b;
    } else {
      assert (a + b)[1..] == a[1..] + b;
      DeliverConcat(got + [a[0]], a[1..], b, wants);
    }
  }

  /** Stopping early leaves a prefix of the list, and the whole list is
      delivered when the consumer never stops. */
  lemma {:induction false} DeliverPrefix(got: seq<Item>, items: seq<Item>, wants: seq<Item> -> bool)
    ensures var d := Deliver(got, items, wants);
      && got <= d.0 <= got + items
      && (d.1 ==> d.0 == got + items)
      && (!d.1 ==> !wants(d.0))
      && (forall n :: |got| < n < |d.0| ==> wants(d.0[..n]))
    decreases |items|
  {
    if items != [] {
      var g := got + [items[0]];
      assert g + items[1..] == got + items;
      if wants(g) {
        DeliverPrefix(g, items[1..], wants);
        var d := Deliver(g, items[1..], wants);
        assert d.0[..|g|] == g;
      }
    }
  }

  lemma DeliverFirst(got: seq<Item>, x: Item, rest: seq<Item>, wants: seq<Item> -> bool)
    ensures Deliver(got, [x] + rest, wants)
         == if wants(got + [x]) then Deliver(got + [x], rest, wants) else (got + [x], false)
  {
    assert ([x] + rest)[1..] == rest;
  }

  lemma LabelFirst(p: Block, rest: seq<Block>, id: u32)
    ensures Label([p] + rest, id) == [Item(p, id)] + Label(rest, id)
  {
  }

  /** What is left to deliver at alias k, once [f, l] has no part before it. */
  ghost function Left(got: seq<Item>, k: nat, f: int, l: int, id: u32, wants: seq<Item> -> bool): (seq<Item>, bool)
    requires k <= |ALIASES|
  {
    Deliver(got, Label(Parts(ALIASES[k..], f, l), id), wants)
  }

  /** The parts at alias k: what comes before the alias, and what comes after. */
  lemma PartsAt(k: nat, f: int, l: int)
    requires k < |ALIASES| && f <= l
    ensures var a, parts := ALIASES[k], Parts(ALIASES[k..], f, l);
      var right := if l <= a.last then [] else Parts(ALIASES[k + 1..], a.last + 1, l);
      if a.last < f then parts == Parts(ALIASES[k + 1..], f, l)
      else if l < a.first then parts == [Block(f, l)]
      else if f < a.first then parts == [Block(f, a.first - 1)] + right
      else parts == right
  {
    var blocks := ALIASES[k..];
    assert blocks[0] == ALIASES[k] && blocks[1..] == ALIASES[k + 1..];
    hide ALIASES;
    PartsFirst(blocks, f, l);
  }

  lemma PartsFirst(blocks: seq<Block>, f: int, l: int)
    requires blocks != []
    ensures var a, parts := blocks[0], Parts(blocks, f, l);
      var right := if l <= a.last then [] else Parts(blocks[1..], a.last + 1, l);
      if a.last < f then parts == Parts(blocks[1..], f, l)
      else if l < a.first then parts == [Block(f, l)]
      else if f < a.first then parts == [Block(f, a.first - 1)] + right
      else parts == right
  {
    var right := if l <= blocks[0].last then [] else Parts(blocks[1..], blocks[0].last + 1, l);
    assert [] + right == right;
  }

  /** The cases of yieldUnaliased's loop at alias k. */
  lemma LeftCases(got: seq<Item>, k: nat, f: int, l: int, id: u32, wants: seq<Item> -> bool)
    requires k < |ALIASES| && f <= l
    ensures var a, left, whole := ALIASES[k], Left(got, k, f, l, id, wants), got + [Item(Block(f, l), id)];
      var part := got + [Item(Block(f, a.first - 1), id)];
      && (a.last < f ==> left == Left(got, k + 1, f, l, id, wants))
      && (l < a.first ==> left == (whole, wants(whole)))
      && (f < a.first <= l && f <= a.last ==>
            left == if !wants(part) then (part, false) else Rest(part, k, l, id, wants))
      && (a.first <= f <= a.last && a.first <= l ==> left == Rest(got, k, l, id, wants))
  {
    PartsAt(k, f, l);
    LeftLast(got, f, l, id, wants);
    LeftPart(got, k, f, l, id, wants);
    DeliverNone(got, wants);
    assert Label([], id) == [];
    hide Parts, Deliver, Label, ALIASES;
  }

  /** What is left to deliver after alias k. */
  ghost function Rest(got: seq<Item>, k: nat, l: int, id: u32, wants: seq<Item> -> bool): (seq<Item>, bool)
    requires k < |ALIASES|
  {
    if l <= ALIASES[k].last then (got, true) else Left(got, k + 1, ALIASES[k].last + 1, l, id, wants)
  }

  /** The part before alias k comes first. */
  lemma LeftPart(got: seq<Item>, k: nat, f: int, l: int, id: u32, wants: seq<Item> -> bool)
    requires k < |ALIASES|
    ensures var a := ALIASES[k];
      var right := if l <= a.last then [] else Parts(ALIASES[k + 1..], a.last + 1, l);
      var part := got + [Item(Block(f, a.first - 1), id)];
      Deliver(got, Label([Block(f, a.first - 1)] + right, id), wants)
      == if wants(part) then Rest(part, k, l, id, wants) else (part, false)
  {
    hide Parts, Deliver, ALIASES;
    var a := ALIASES[k];
    var right := if l <= a.last then [] else Parts(ALIASES[k + 1..], a.last + 1, l);
    var p := Block(f, a.first - 1);
    LabelFirst(p, right, id);
    DeliverFirst(got, Item(p, id), Label(right, id), wants);
    DeliverNone(got + [Item(p, id)], wants);
    assert Label([], id) == [];
  }

  lemma LeftLast(got: seq<Item>, f: int, l: int, id: u32, wants: seq<Item> -> bool)
    ensures var whole := got + [Item(Block(f, l), id)];
      && Deliver(got, Label([Block(f, l)], id), wants) == (whole, wants(whole))
      && Left(got, |ALIASES|, f, l, id, wants) == (whole, wants(whole))
      && Deliver(got, [Item(Block(f, l), id)], wants) == (whole, wants(whole))
  {
    var i := Item(Block(f, l), id);
    assert Label([Block(f, l)], id) == [i];
    assert [i][1..] == [];
    assert ALIASES[|ALIASES|..] == [];
  }

  /** The parts of the IPv6 range fh:fl to lh:ll outside the aliases. */
  method YieldUnaliased<D>(y: Consumer<D>, f1: u64, f0: u64, lh: u64, ll: u64, id: u32, d: D, ghost of: u32 -> D)
    returns (more: bool)
    requires Join(f1, f0) <= Join(lh, ll) && y.Informed(of) && d == of(id)
    modifies y`got, y`details
    ensures y.Informed(of)
    ensures (y.got, more) == Deliver(old(y.got), Label(Parts(ALIASES, Join(f1, f0), Join(lh, ll)), id), y.wants)
  {
    hide Left, Deliver, Parts, ALIASES, V6_ALIASES;
    var fh, fl := f1, f0;
    ghost var all := Left(y.got, 0, Join(f1, f0), Join(lh, ll), id, y.wants);
    assert all == Deliver(y.got, Label(Parts(ALIASES, Join(f1, f0), Join(lh, ll)), id), y.wants) by {
      LeftAll(y.got, Join(f1, f0), Join(lh, ll), id, y.wants);
    }
    for k := 0 to |ALIASES|
      invariant Join(fh, fl) <= Join(lh, ll) && y.Informed(of)
      invariant Left(y.got, k, Join(fh, fl), Join(lh, ll), id, y.wants) == all
    {
      HalvesAreAliases(k);
      var a := V6_ALIASES[k];
      LeftCases(y.got, k, Join(fh, fl), Join(lh, ll), id, y.wants);
      if Less128(a.lh, a.ll, fh, fl) {
        continue;
      }
      if Less128(lh, ll, a.fh, a.fl) {
        more := y.Yield(Item(Block(Join(fh, fl), Join(lh, ll)), id), d);
        return;
      }
      if Less128(fh, fl, a.fh, a.fl) {
        var p := Dec128(a.fh, a.fl);
        more := y.Yield(Item(Block(Join(fh, fl), Join(p.0, p.1)), id), d);
        if !more {
          return;
        }
      }
      if !Less128(a.lh, a.ll, lh, ll) {
        return true;
      }
      var n := Inc128(a.lh, a.ll);
      fh, fl := n.0, n.1;
    }
    LeftLast(y.got, Join(fh, fl), Join(lh, ll), id, y.wants);
    more := y.Yield(Item(Block(Join(fh, fl), Join(lh, ll)), id), d);
  }

  lemma LeftAll(got: seq<Item>, f: int, l: int, id: u32, wants: seq<Item> -> bool)
    ensures Left(got, 0, f, l, id, wants) == Deliver(got, Label(Parts(ALIASES, f, l), id), wants)
  {
    assert ALIASES[0..] == ALIASES;
  }

  /** Boundary i's own ranges are delivered first. */
  lemma CoveredStep(
    starts: seq<int>, ids: seq<u32>, max: int, blocks: seq<Block>, i: nat, got: seq<Item>, wants: seq<Item> -> bool)
    requires |ids| == |starts| && i < |starts|
    ensures var r := BoundaryRange(starts, max, i);
      var d := if ids[i] == 0 then (got, true) else Deliver(got, Label(Parts(blocks, r.first, r.last), ids[i]), wants);
      Deliver(got, Covered(starts, ids, max, blocks, i), wants)
      == if d.1 then Deliver(d.0, Covered(starts, ids, max, blocks, i + 1), wants) else d
  {
    var r := BoundaryRange(starts, max, i);
    var own := if ids[i] != 0 then Label(Parts(blocks, r.first, r.last), ids[i]) else [];
    DeliverConcat(got, own, Covered(starts, ids, max, blocks, i + 1), wants);
  }

  lemma LeftWhole(got: seq<Item>, b: Block, id: u32, wants: seq<Item> -> bool)
    ensures var whole := got + [Item(b, id)];
      Deliver(got, Label(Parts([], b.first, b.last), id), wants) == (whole, wants(whole))
  {
    LeftLast(got, b.first, b.last, id, wants);
  }

  lemma DeliverNone(got: seq<Item>, wants: seq<Item> -> bool)
    ensures Deliver(got, [], wants) == (got, true)
  {
  }
}
