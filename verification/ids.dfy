/** Record ids: arrays of 1 to 4 byte little-endian integers, as narrow as the
    record count allows (internal/format/format.go). */
module Ids {
  import opened Words

  /** The number of ids a width of w bytes can tell apart. */
  function Capacity(w: nat): nat
    requires 1 <= w <= 4
  {
    match w
    case 1 => 0x100
    case 2 => 0x1_0000
    case 3 => 0x100_0000
    case _ => TWO32
  }

  /** The smallest width that can hold every record id below n. */
  function IDWidth(n: nat): (w: nat)
    ensures 1 <= w <= 4
    ensures n <= TWO32 ==> n <= Capacity(w)
    ensures forall v :: 1 <= v < w ==> Capacity(v) < n
  {
    var max := n - 1;
    if n == 0 || max < 0x100 then 1
    else if max < 0x1_0000 then 2
    else if max < 0x100_0000 then 3
    else 4
  }

  /** How many ids an array of b bytes holds, and whether they fill it. */
  function Count(b: nat, width: nat): nat
    requires 1 <= width <= 4
  {
    match width
    case 1 => b
    case 2 => b / 2
    case 3 => b / 3
    case _ => b / 4
  }

  /** The size in bytes of n ids. */
  function Size(n: nat, width: nat): (b: nat)
    requires 1 <= width <= 4
    ensures Count(b, width) == n
  {
    match width
    case 1 => n
    case 2 => n * 2
    case 3 => n * 3
    case _ => n * 4
  }

  /** Record id i of an id array of the given width. */
  function ReadID(ids: bytes, width: nat, i: nat): u32
    requires 1 <= width <= 4 && i < Count(|ids|, width)
  {
    match width
    case 1 => ids[i]
    case 2 => LE16(ids, i * 2)
    case 3 => LE24(ids, i * 3)
    case _ => LE32(ids, i * 4)
  }

  function AppendID(b: bytes, width: nat, id: nat): bytes
    requires 1 <= width <= 4
  {
    match width
    case 1 => b + [id % 0x100]
    case 2 => b + Put16(id)
    case 3 => b + Put24(id)
    case _ => b + Put32(id)
  }

  /** Every id of an array. */
  function IdsOf(ids: bytes, width: nat): seq<u32>
    requires 1 <= width <= 4
  {
    seq(Count(|ids|, width), i requires 0 <= i < Count(|ids|, width) => ReadID(ids, width, i))
  }

  lemma AppendKeeps(b: bytes, width: nat, id: nat, i: nat)
    requires 1 <= width <= 4 && i < Count(|b|, width)
    ensures var c := AppendID(b, width, id);
      i < Count(|c|, width) && ReadID(c, width, i) == ReadID(b, width, i)
  {
    var c := AppendID(b, width, id);
    assert forall o :: 0 <= o < |b| ==> c[o] == b[o];
  }

  lemma AppendAdds(b: bytes, width: nat, id: nat, n: nat)
    requires 1 <= width <= 4 && |b| == Size(n, width) && id < Capacity(width)
    ensures var c := AppendID(b, width, id);
      |c| == Size(n + 1, width) && ReadID(c, width, n) == id
  {
    hide LE16, LE24, LE32, Put16, Put24, Put32;
    match width {
      case 1 =>
      case 2 => Load16(b, Put16(id));
      case 3 => Load24(b, Put24(id));
      case _ => Load32(b, Put32(id));
    }
  }

  /** Appending an id that fits the width appends it to the ids read back. */
  lemma AppendReadBack(b: bytes, width: nat, id: nat, n: nat)
    requires 1 <= width <= 4 && |b| == Size(n, width) && id < Capacity(width)
    ensures var c := AppendID(b, width, id);
      |c| == Size(n + 1, width) && IdsOf(c, width) == IdsOf(b, width) + [id]
  {
    AppendAdds(b, width, id, n);
    forall i: nat | i < n
      ensures ReadID(AppendID(b, width, id), width, i) == ReadID(b, width, i)
    {
      AppendKeeps(b, width, id, i);
    }
  }

  /** An id is the number of its bytes, the low one first. */
  lemma IdRead(ids: bytes, width: nat, i: nat)
    requires 1 <= width <= 4 && i < Count(|ids|, width)
    ensures i * width + width <= |ids| && ReadID(ids, width, i) == Little(ids[i * width..i * width + width])
  {
    hide LE16, LE24, LE32;
    LoadsRead(ids, i * width);
    if width == 1 {
      LittleStep(ids[i..i + 1]);
      assert Little([]) == 0;
    }
  }
}
