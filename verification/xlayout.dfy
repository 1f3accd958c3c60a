/** The layout of one XRECORDS entry: blocks of the field sets present, then
    one 3-byte string id per extra language and name kind
    (internal/format/format.go). */
module XLayouts {
  import opened Words

  const NUM_FIELDS: nat := 8
  const FIELD_WIDTH: seq<nat> := [1, 7, 24, 14, 3, 2, 1, 1]
  const NUM_KINDS: nat := 7

  const FIELD_EU: nat := 0
  const FIELD_CONTINENT: nat := 1
  const FIELD_REGISTERED: nat := 2
  const FIELD_SUBDIVISIONS: nat := 3
  const FIELD_POSTAL: nat := 4
  const FIELD_METRO: nat := 5
  const FIELD_TRAITS: nat := 6
  const FIELD_LOCATION: nat := 7

  const ASN: nat := 3

  /** Bit b of a set of field sets. */
  predicate HasField(fields: nat, b: nat) {
    fields / Pow2(b) % 2 == 1
  }

  /** The field sets a profile may have. */
  predicate CheckFields(profile: nat, fields: nat) {
    if fields >= 0x100 then false
    else if profile == ASN then fields == 0
    else if HasField(fields, FIELD_SUBDIVISIONS) && profile < 1 then false
    else if profile < 2 then
      !HasField(fields, FIELD_POSTAL) && !HasField(fields, FIELD_METRO) && !HasField(fields, FIELD_LOCATION)
    else true
  }

  datatype XLayout = XLayout(width: nat, field: seq<int>, kinds: seq<nat>, langOff: nat) {
    /** The offset of name kind k for extra language j, -1 when not stored. */
    method NameOff(j: nat, k: nat) returns (off: int)
      requires j >= 1
      ensures k in kinds ==> exists i :: 0 <= i < |kinds| && kinds[i] == k && off == SlotOff(j, i)
      ensures k !in kinds ==> off == -1
    {
      for i := 0 to |kinds|
        invariant k !in kinds[..i]
      {
        if kinds[i] == k {
          return langOff + (j - 1) * 3 * |kinds| + 3 * i;
        }
      }
      return -1;
    }

    /** The offset of the i-th name of extra language j. */
    function SlotOff(j: nat, i: nat): nat
      requires j >= 1
    {
      langOff + (j - 1) * 3 * |kinds| + 3 * i
    }
  }

  // ---- the specification -----------------------------------------------------

  /** The bytes taken by the field sets below bit b. */
  function BlocksBelow(fields: nat, b: nat): (w: nat)
    requires b <= NUM_FIELDS
    ensures w <= 24 * b
  {
    if b == 0 then 0
    else BlocksBelow(fields, b - 1) + if HasField(fields, b - 1) then FIELD_WIDTH[b - 1] else 0
  }

  /** Whether each extra language stores a name of kind k. */
  predicate Stores(profile: nat, fields: nat, k: nat) {
    if profile == ASN then false
    else match k
      case 0 => true
      case 1 => profile >= 1
      case 2 => profile >= 2
      case 3 => HasField(fields, FIELD_CONTINENT)
      case 4 => HasField(fields, FIELD_SUBDIVISIONS)
      case 5 => HasField(fields, FIELD_REGISTERED)
      case 6 => HasField(fields, FIELD_REGISTERED)
      case _ => false
  }

  /** The kinds below k each extra language stores, in order. */
  function KindsBelow(profile: nat, fields: nat, k: nat): seq<nat> {
    if k == 0 then []
    else KindsBelow(profile, fields, k - 1) + if Stores(profile, fields, k - 1) then [k - 1] else []
  }

  lemma {:induction false} KindsMeaning(profile: nat, fields: nat, k: nat)
    ensures var r := KindsBelow(profile, fields, k);
      && |r| <= k
      && (forall m :: m in r <==> 0 <= m < k && Stores(profile, fields, m))
      && (forall i, j :: 0 <= i < j < |r| ==> r[i] < r[j])
  {
    hide Stores;
    if k > 0 {
      KindsMeaning(profile, fields, k - 1);
      var r, p := KindsBelow(profile, fields, k), KindsBelow(profile, fields, k - 1);
      forall m
        ensures m in r <==> 0 <= m < k && Stores(profile, fields, m)
      {
        assert m in r <==> m in p || (m == k - 1 && Stores(profile, fields, m));
      }
      assert forall i :: 0 <= i < |p| ==> p[i] in p && r[i] == p[i];
    }
  }

  /** The layout of a profile, field sets and language count. */
  ghost predicate IsLayout(l: XLayout, profile: nat, fields: nat, nLangs: nat)
    requires nLangs >= 1
  {
    && l.kinds == KindsBelow(profile, fields, NUM_KINDS)
    && l.langOff == BlocksBelow(fields, NUM_FIELDS)
    && l.width == l.langOff + (nLangs - 1) * 3 * |l.kinds|
    && |l.field| == NUM_FIELDS
    && forall b :: 0 <= b < NUM_FIELDS ==> l.field[b] == if HasField(fields, b) then BlocksBelow(fields, b) else -1
  }

  ghost function LayoutOf(profile: nat, fields: nat, nLangs: nat): (l: XLayout)
    requires nLangs >= 1
    ensures IsLayout(l, profile, fields, nLangs)
  {
    var kinds := KindsBelow(profile, fields, NUM_KINDS);
    var langOff := BlocksBelow(fields, NUM_FIELDS);
    XLayout(langOff + (nLangs - 1) * 3 * |kinds|,
            seq(NUM_FIELDS, b requires 0 <= b < NUM_FIELDS =>
              if HasField(fields, b) then BlocksBelow(fields, b) else -1),
            kinds, langOff)
  }

  lemma LayoutUnique(l: XLayout, profile: nat, fields: nat, nLangs: nat)
    requires nLangs >= 1 && IsLayout(l, profile, fields, nLangs)
    ensures l == LayoutOf(profile, fields, nLangs)
  {
    assert l.field == LayoutOf(profile, fields, nLangs).field;
  }

  method NewXLayout(profile: nat, fields: nat, nLangs: nat) returns (l: XLayout)
    requires nLangs >= 1
    ensures IsLayout(l, profile, fields, nLangs)
  {
    hide HasField, KindsBelow;
    var field, width := Blocks(fields);
    var langOff := width;
    if profile == ASN {
      NoKinds(fields, NUM_KINDS);
      return XLayout(width, field, [], langOff);
    }
    var kinds := Kinds(profile, fields);
    return XLayout(width + (nLangs - 1) * 3 * |kinds|, field, kinds, langOff);
  }

  /** The name kinds of a layout, appended in order. */
  method Kinds(profile: nat, fields: nat) returns (kinds: seq<nat>)
    requires profile != ASN
    ensures kinds == KindsBelow(profile, fields, NUM_KINDS)
  {
    hide HasField, KindsBelow;
    kinds := [0];
    KindsStep(profile, fields, 0);
    KindsStep(profile, fields, 1);
    if profile >= 1 {
      kinds := kinds + [1];
    }
    assert kinds == KindsBelow(profile, fields, 2);
    KindsStep(profile, fields, 2);
    if profile >= 2 {
      kinds := kinds + [2];
    }
    assert kinds == KindsBelow(profile, fields, 3);
    KindsStep(profile, fields, 3);
    if HasField(fields, FIELD_CONTINENT) {
      kinds := kinds + [3];
    }
    assert kinds == KindsBelow(profile, fields, 4);
    KindsStep(profile, fields, 4);
    if HasField(fields, FIELD_SUBDIVISIONS) {
      kinds := kinds + [4];
    }
    assert kinds == KindsBelow(profile, fields, 5);
    KindsStep(profile, fields, 5);
    KindsStep(profile, fields, 6);
    if HasField(fields, FIELD_REGISTERED) {
      assert kinds + [5, 6] == kinds + [5] + [6];
      kinds := kinds + [5, 6];
    }
  }

  /** NewXLayout's first loop: the blocks of the field sets, in bit order. */
  method Blocks(fields: nat) returns (field: seq<int>, width: nat)
    ensures width == BlocksBelow(fields, NUM_FIELDS) && |field| == NUM_FIELDS
    ensures forall b :: 0 <= b < NUM_FIELDS ==> field[b] == if HasField(fields, b) then BlocksBelow(fields, b) else -1
  {
    hide HasField;
    width, field := 0, [];
    for b := 0 to NUM_FIELDS
      invariant |field| == b && width == BlocksBelow(fields, b)
      invariant forall c :: 0 <= c < b ==> field[c] == if HasField(fields, c) then BlocksBelow(fields, c) else -1
    {
      if HasField(fields, b) {
        field := field + [width];
        width := width + FIELD_WIDTH[b];
      } else {
        field := field + [-1];
      }
    }
  }

  lemma {:induction false} NoKinds(fields: nat, k: nat)
    ensures KindsBelow(ASN, fields, k) == []
  {
    if k > 0 {
      NoKinds(fields, k - 1);
    }
  }

  lemma KindsStep(profile: nat, fields: nat, k: nat)
    ensures KindsBelow(profile, fields, k + 1)
         == KindsBelow(profile, fields, k) + if Stores(profile, fields, k) then [k] else []
    ensures KindsBelow(profile, fields, 0) == []
  {
  }

  // ---- tiling ------------------------------------------------------------------

  /** A field set's block, or a language's name slot. */
  datatype Cell = BlockCell(b: nat) | NameCell(j: nat, i: nat)

  ghost predicate IsCell(l: XLayout, nLangs: nat, c: Cell) {
    match c
    case BlockCell(b) => b < |l.field| && l.field[b] != -1
    case NameCell(j, i) => 1 <= j < nLangs && i < |l.kinds|
  }

  ghost function CellStart(l: XLayout, nLangs: nat, c: Cell): int
    requires IsCell(l, nLangs, c)
  {
    match c
    case BlockCell(b) => l.field[b]
    case NameCell(j, i) => l.SlotOff(j, i)
  }

  ghost function CellWidth(l: XLayout, nLangs: nat, c: Cell): int
    requires IsCell(l, nLangs, c) && |l.field| == NUM_FIELDS
  {
    match c
    case BlockCell(b) => FIELD_WIDTH[b]
    case NameCell(_, _) => 3
  }

  ghost predicate Covers(l: XLayout, nLangs: nat, c: Cell, o: int)
    requires |l.field| == NUM_FIELDS
  {
    IsCell(l, nLangs, c) && CellStart(l, nLangs, c) <= o < CellStart(l, nLangs, c) + CellWidth(l, nLangs, c)
  }

  lemma {:induction false} BlocksMonotone(fields: nat, b: nat, c: nat)
    requires b < c <= NUM_FIELDS
    ensures BlocksBelow(fields, b) + (if HasField(fields, b) then FIELD_WIDTH[b] else 0) <= BlocksBelow(fields, c)
  {
    hide HasField;
    if b + 1 < c {
      BlocksMonotone(fields, b, c - 1);
    }
  }

  /** The block that covers an offset below c's blocks. */
  ghost function BlockIn(fields: nat, c: nat, o: nat): (b: nat)
    requires c <= NUM_FIELDS && o < BlocksBelow(fields, c)
    ensures b < c && HasField(fields, b) && BlocksBelow(fields, b) <= o < BlocksBelow(fields, b) + FIELD_WIDTH[b]
  {
    if o < BlocksBelow(fields, c - 1) then BlockIn(fields, c - 1, o) else c - 1
  }

  lemma NameSlot(K: nat, j: nat, i: nat, r: nat, o: int)
    requires j >= 1 && i < K && r < 3 && o == (j - 1) * 3 * K + 3 * i + r
    ensures o / 3 == (j - 1) * K + i && o % 3 == r
    ensures o / 3 / K == j - 1 && o / 3 % K == i
  {
    assert (j - 1) * 3 * K == 3 * ((j - 1) * K);
    DivModUnique(o, 3, (j - 1) * K + i, r);
    DivModUnique((j - 1) * K + i, K, j - 1, i);
  }

  /** The blocks and name slots of an entry are pairwise disjoint and cover
      [0, width) exactly: every offset is in one cell, and no other. */
  lemma Tiling(l: XLayout, profile: nat, fields: nat, nLangs: nat, o: int, c: Cell)
    requires nLangs >= 1 && IsLayout(l, profile, fields, nLangs)
    ensures 0 <= o < l.width <==> exists d :: Covers(l, nLangs, d, o)
    ensures Covers(l, nLangs, c, o) ==> forall d :: Covers(l, nLangs, d, o) ==> d == c
  {
    forall d | Covers(l, nLangs, d, o)
      ensures 0 <= o < l.width && d == CellAt(l, fields, o)
    {
      CoveredCell(l, profile, fields, nLangs, o, d);
    }
    if 0 <= o < l.width {
      CellCovers(l, profile, fields, nLangs, o);
      assert Covers(l, nLangs, CellAt(l, fields, o), o);
    }
  }

  ghost function CellAt(l: XLayout, fields: nat, o: int): Cell {
    if 0 <= o < BlocksBelow(fields, NUM_FIELDS) then BlockCell(BlockIn(fields, NUM_FIELDS, o))
    else if |l.kinds| == 0 || o < l.langOff then NameCell(0, 0)
    else
      var q := (o - l.langOff) / 3;
      NameCell(q / |l.kinds| + 1, q % |l.kinds|)
  }

  lemma NameRegroup(K: nat, j: nat, i: nat, n: nat)
    ensures (j - 1) * 3 * K + 3 * i == 3 * (K * (j - 1) + i)
    ensures (n - 1) * 3 * K == 3 * (K * (n - 1))
  {
  }

  lemma CoveredCell(l: XLayout, profile: nat, fields: nat, nLangs: nat, o: int, d: Cell)
    requires nLangs >= 1 && IsLayout(l, profile, fields, nLangs) && Covers(l, nLangs, d, o)
    ensures 0 <= o < l.width && d == CellAt(l, fields, o)
  {
    hide HasField, BlocksBelow, KindsBelow;
    match d {
      case BlockCell(b) =>
        BlocksMonotone(fields, b, NUM_FIELDS);
        OneBlock(fields, b, o);
      case NameCell(j, i) =>
        NameInWidth(l, nLangs, j, i, o);
    }
  }

  lemma OneBlock(fields: nat, b: nat, o: nat)
    requires b < NUM_FIELDS && HasField(fields, b)
    requires BlocksBelow(fields, b) <= o < BlocksBelow(fields, b) + FIELD_WIDTH[b] <= BlocksBelow(fields, NUM_FIELDS)
    ensures BlockIn(fields, NUM_FIELDS, o) == b
  {
    hide HasField, BlocksBelow, BlockIn;
    var e := BlockIn(fields, NUM_FIELDS, o);
    if e < b {
      BlocksMonotone(fields, e, b);
    } else if b < e {
      BlocksMonotone(fields, b, e);
    }
  }

  lemma NameInWidth(l: XLayout, nLangs: nat, j: nat, i: nat, o: int)
    requires 1 <= j < nLangs && i < |l.kinds| && l.SlotOff(j, i) <= o < l.SlotOff(j, i) + 3
    requires l.width == l.langOff + (nLangs - 1) * 3 * |l.kinds|
    ensures l.langOff <= o < l.width
    ensures var q := (o - l.langOff) / 3; q / |l.kinds| + 1 == j && q % |l.kinds| == i
  {
    var K := |l.kinds|;
    NameSlot(K, j, i, o - l.SlotOff(j, i), o - l.langOff);
    MulBelow(K, j - 1, nLangs - 1, i);
    NameRegroup(K, j, i, nLangs);
  }

  lemma CellCovers(l: XLayout, profile: nat, fields: nat, nLangs: nat, o: int)
    requires nLangs >= 1 && IsLayout(l, profile, fields, nLangs) && 0 <= o < l.width
    ensures Covers(l, nLangs, CellAt(l, fields, o), o)
  {
    hide HasField, BlocksBelow, KindsBelow;
    if o >= l.langOff {
      var K, m := |l.kinds|, o - l.langOff;
      assert (nLangs - 1) * 3 * K == (nLangs - 1) * K * 3;
      assert K > 0;
      DivBelow(m, (nLangs - 1) * K, 3);
      DivBelow(m / 3, nLangs - 1, K);
    }
  }
}
