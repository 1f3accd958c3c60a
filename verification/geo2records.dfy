/** The content checks of geo2.go: strings, records and the revision 2.1
    extension sections (rules 5, 6 and 9 to 13 of docs/FORMAT.md). */
module Geo2Records {
  import opened Words
  import opened Ids
  import opened XLayouts
  import opened Bitmaps

  // ---- strings -------------------------------------------------------------------

  /** STRIDX runs non-decreasing from 0 to the end of STRBLOB and string 0 is empty. */
  ghost predicate StringIndex(idx: seq<u32>, blob: nat) {
    && |idx| >= 1 && idx[0] == 0 && idx[|idx| - 1] == blob
    && (forall i, j :: 0 <= i <= j < |idx| ==> idx[i] <= idx[j])
    && (|idx| > 1 ==> idx[1] == 0)
  }

  /** The META string ids. */
  datatype Meta = Meta(sourceType: u32, language: u32, description: u32, builder: u32)

  function ParseMeta(b: bytes): (r: Meta)
    requires |b| == 64
  {
    Meta(LE32(b, 24), LE32(b, 28), LE32(b, 32), LE32(b, 36))
  }

  predicate MetaBelow(m: Meta, n: nat) {
    m.sourceType < n && m.language < n && m.description < n && m.builder < n
  }

  method CheckStrings(strIdx: bytes, blob: nat, m: Meta) returns (ok: bool)
    requires |strIdx| >= 4 && |strIdx| % 4 == 0
    ensures ok <==> StringIndex(U32s(strIdx), blob) && MetaBelow(m, |strIdx| / 4 - 1)
  {
    hide LE32;
    ghost var idx := U32s(strIdx);
    var nStrings := |strIdx| / 4 - 1;
    if U32At(strIdx, 0) != 0 {
      return false;
    }
    var prev: u32 := 0;
    for i := 1 to nStrings + 1
      invariant prev == idx[i - 1]
      invariant forall x, y :: 0 <= x <= y < i ==> idx[x] <= idx[y]
    {
      var v := U32At(strIdx, i);
      if v < prev {
        return false;
      }
      prev := v;
    }
    if prev != blob {
      return false;
    }
    if nStrings > 0 && U32At(strIdx, 1) != 0 {
      return false;
    }
    return MetaBelow(m, nStrings);
  }

  // ---- records -------------------------------------------------------------------

  function RecordWidth(profile: nat): nat {
    match profile
    case 0 => 10
    case 1 => 14
    case 2 => 33
    case 3 => 7
    case _ => 0
  }

  const REC_COUNTRY_ISO: nat := 0
  const REC_COUNTRY_NAME: nat := 2
  const REC_CONTINENT: nat := 4
  const REC_COUNTRY_GEO: nat := 6
  const REC_REGION_ISO: nat := 10
  const REC_REGION_NAME: nat := 12
  const REC_CITY_NAME: nat := 14
  const REC_CITY_GEO: nat := 17
  const REC_LAT: nat := 21
  const REC_LON: nat := 25
  const REC_ACCURACY: nat := 29
  const REC_TIME_ZONE: nat := 31
  const REC_ASN_NUMBER: nat := 0
  const REC_ASN_ORG: nat := 4

  /** The offsets of the u16 string ids of a profile's records. */
  function StringOffs(profile: nat): (r: seq<nat>)
    requires profile <= 3
    ensures forall k :: 0 <= k < |r| ==> r[k] + 2 <= RecordWidth(profile)
  {
    if profile == ASN then []
    else [REC_COUNTRY_ISO, REC_COUNTRY_NAME, REC_CONTINENT]
         + (if profile >= 1 then [REC_REGION_ISO, REC_REGION_NAME] else [])
         + (if profile == 2 then [REC_TIME_ZONE] else [])
  }

  /** The offset of the u24 string id of a profile's records, -1 without one. */
  function NameOff24(profile: nat): int {
    if profile == ASN then REC_ASN_ORG else if profile == 2 then REC_CITY_NAME else -1
  }

  /** Rows [0, n) of width w lie in an array of n * w bytes. */
  lemma RowInside(w: nat, i: nat, n: nat)
    requires i < n
    ensures i * w + w <= n * w
  {
    MulMonotone(w, i + 1, n);
    assert (i + 1) * w == i * w + w;
  }

  /** Every string id of a record row is below the string count. */
  ghost predicate RecordStrings(row: bytes, profile: nat, ns: nat)
    requires profile <= 3 && |row| == RecordWidth(profile)
  {
    && (forall k :: 0 <= k < |StringOffs(profile)| ==> LE16(row, StringOffs(profile)[k]) < ns)
    && (NameOff24(profile) >= 0 ==> LE24(row, NameOff24(profile)) < ns)
  }

  function Row(b: bytes, w: nat, i: nat, n: nat): (r: bytes)
    requires |b| == n * w && i < n
    ensures |r| == w
  {
    RowInside(w, i, n);
    b[i * w..i * w + w]
  }

  ghost predicate AllZero(b: bytes) {
    forall k :: 0 <= k < |b| ==> b[k] == 0
  }

  ghost predicate AllBelow(ids: seq<u32>, n: nat) {
    forall i :: 0 <= i < |ids| ==> ids[i] < n
  }

  ghost predicate RecordsOk(profile: nat, recs: bytes, n: nat, ns: nat)
    requires profile <= 3 && |recs| == n * RecordWidth(profile)
  {
    && n > 0
    && AllZero(Row(recs, RecordWidth(profile), 0, n))
    && (forall i :: 1 <= i < n ==> RecordStrings(Row(recs, RecordWidth(profile), i, n), profile, ns))
  }

  /** Sound records, ids of the least width, and ids below the record count. */
  ghost predicate RecordsSound(profile: nat, idWidth: nat, recs: bytes, n: nat, ns: nat, v4ids: bytes, v6ids: bytes)
    requires profile <= 3 && |recs| == n * RecordWidth(profile) && 1 <= idWidth <= 4
  {
    && RecordsOk(profile, recs, n, ns) && idWidth == IDWidth(n)
    && AllBelow(IdsOf(v4ids, idWidth), n) && AllBelow(IdsOf(v6ids, idWidth), n)
  }

  /** The string ids of one record, u16 ones skipped when they cannot be out of range. */
  method CheckRow(row: bytes, profile: nat, ns: nat) returns (ok: bool)
    requires profile <= 3 && |row| == RecordWidth(profile)
    ensures ok <==> RecordStrings(row, profile, ns)
  {
    hide LE16, LE24;
    var offs := if ns > 0xFFFF then [] else StringOffs(profile);
    for k := 0 to |offs|
      invariant forall x :: 0 <= x < k ==> LE16(row, StringOffs(profile)[x]) < ns
    {
      assert offs[k] == StringOffs(profile)[k];
      if LE16(row, offs[k]) >= ns {
        return false;
      }
    }
    var o := NameOff24(profile);
    if o >= 0 && LE24(row, o) >= ns {
      return false;
    }
    return true;
  }

  method CheckRecords(profile: nat, idWidth: nat, recs: bytes, n: nat, ns: nat, v4ids: bytes, v6ids: bytes)
    returns (ok: bool)
    requires profile <= 3 && |recs| == n * RecordWidth(profile) && 1 <= idWidth <= 4
    ensures ok <==> RecordsSound(profile, idWidth, recs, n, ns, v4ids, v6ids)
  {
    hide RecordStrings, RecordWidth, IDWidth, ReadID;
    if n == 0 {
      return false;
    }
    var zero := Row(recs, RecordWidth(profile), 0, n);
    for k := 0 to |zero|
      invariant forall x :: 0 <= x < k ==> zero[x] == 0
    {
      if zero[k] != 0 {
        return false;
      }
    }
    for i := 1 to n
      invariant forall x :: 1 <= x < i ==> RecordStrings(Row(recs, RecordWidth(profile), x, n), profile, ns)
    {
      var good := CheckRow(Row(recs, RecordWidth(profile), i, n), profile, ns);
      if !good {
        return false;
      }
    }
    if idWidth != IDWidth(n) {
      return false;
    }
    ok := CheckIds(v4ids, idWidth, n);
    if ok {
      ok := CheckIds(v6ids, idWidth, n);
    }
  }

  method CheckIds(ids: bytes, width: nat, n: nat) returns (ok: bool)
    requires 1 <= width <= 4
    ensures ok <==> AllBelow(IdsOf(ids, width), n)
  {
    hide ReadID;
    for i := 0 to Count(|ids|, width)
      invariant forall x :: 0 <= x < i ==> IdsOf(ids, width)[x] < n
    {
      assert IdsOf(ids, width)[i] == ReadID(ids, width, i);
      if ReadID(ids, width, i) >= n {
        return false;
      }
    }
    return true;
  }

  // ---- extension records --------------------------------------------------------------

  /** The u24 string ids in field set b's block. */
  function BlockStrings(b: nat): (r: seq<nat>)
    requires b < NUM_FIELDS
    ensures forall k :: 0 <= k < |r| ==> r[k] + 3 <= FIELD_WIDTH[b]
  {
    match b
    case 1 => [0]
    case 2 => [0, 3, 10, 13, 20]
    case 3 => [4, 7]
    case 4 => [0]
    case _ => []
  }

  /** The flags byte of field set b and its defined bits, which are the low ones. */
  function FlagByte(b: nat): (r: (int, nat))
    requires b < NUM_FIELDS
    ensures r.0 < FIELD_WIDTH[b]
  {
    match b
    case 0 => (0, 1)
    case 2 => (23, 3)
    case 6 => (0, 7)
    case 7 => (0, 3)
    case _ => (-1, 0)
  }

  /** c &^ mask is zero: c has no bit outside the mask. */
  ghost predicate OnlyBits(c: u8, mask: nat) {
    forall k: nat :: k < 8 && Bit(c, k) ==> Bit(mask, k)
  }

  /** For the masks in use, which are the low bits, that is a comparison. */
  lemma OnlyLowBits(c: u8, mask: nat)
    requires mask == 1 || mask == 3 || mask == 7
    ensures OnlyBits(c, mask) <==> c <= mask
  {
    var m: nat := if mask == 1 then 1 else if mask == 3 then 2 else 3;
    assert Pow2(1) == 2 && Pow2(2) == 4 && Pow2(3) == 8 && Pow2(8) == 0x100;
    assert Bit(mask, 0) && (m >= 2 ==> Bit(mask, 1)) && (m >= 3 ==> Bit(mask, 2));
    LowBits(c, m, 8);
    LowBits(mask, m, 8);
    hide Bit;
  }

  /** One block of an entry: its string ids are in range, no undefined flag bit
      is set. */
  ghost predicate BlockOk(e: bytes, off: nat, b: nat, ns: nat)
    requires b < NUM_FIELDS && off + FIELD_WIDTH[b] <= |e|
  {
    && (forall k :: 0 <= k < |BlockStrings(b)| ==> LE24(e, off + BlockStrings(b)[k]) < ns)
    && (FlagByte(b).0 >= 0 ==> OnlyBits(e[off + FlagByte(b).0], FlagByte(b).1))
  }

  /** The blocks of a layout lie before its names, and the names end the entry. */
  ghost predicate Fits(l: XLayout, fields: nat) {
    && |l.field| == NUM_FIELDS
    && (forall b :: 0 <= b < NUM_FIELDS ==> (l.field[b] >= 0 <==> HasField(fields, b)))
    && (forall b :: 0 <= b < NUM_FIELDS && l.field[b] >= 0 ==> l.field[b] + FIELD_WIDTH[b] <= l.langOff)
    && l.langOff <= l.width && (l.width - l.langOff) % 3 == 0
  }

  lemma LayoutFits(l: XLayout, profile: nat, fields: nat, nLangs: nat)
    requires nLangs >= 1 && IsLayout(l, profile, fields, nLangs)
    ensures Fits(l, fields)
  {
    hide HasField, BlocksBelow, KindsBelow;
    forall b: nat | b < NUM_FIELDS && HasField(fields, b)
      ensures l.field[b] + FIELD_WIDTH[b] <= l.langOff
    {
      BlocksMonotone(fields, b, NUM_FIELDS);
    }
    assert (nLangs - 1) * 3 * |l.kinds| == 3 * ((nLangs - 1) * |l.kinds|);
  }

  /** A name slot starts at langOff + 3m for some m. */
  ghost predicate NameSlotAt(l: XLayout, o: int) {
    l.langOff <= o && o + 3 <= l.width && (o - l.langOff) % 3 == 0
  }

  ghost predicate EntryOk(e: bytes, l: XLayout, fields: nat, ns: nat)
    requires Fits(l, fields) && |e| == l.width
  {
    && (forall b: nat :: b < NUM_FIELDS && HasField(fields, b) ==> BlockOk(e, l.field[b], b, ns))
    && (forall o: nat :: NameSlotAt(l, o) ==> LE24(e, o) < ns)
  }

  method CheckBlock(e: bytes, off: nat, b: nat, ns: nat) returns (ok: bool)
    requires b < NUM_FIELDS && off + FIELD_WIDTH[b] <= |e|
    ensures ok <==> BlockOk(e, off, b, ns)
  {
    hide LE24;
    var offs := BlockStrings(b);
    for k := 0 to |offs|
      invariant forall x :: 0 <= x < k ==> LE24(e, off + offs[x]) < ns
    {
      if LE24(e, off + offs[k]) >= ns {
        return false;
      }
    }
    var f := FlagByte(b);
    if f.0 >= 0 {
      OnlyLowBits(e[off + f.0], f.1);
    }
    return !(f.0 >= 0 && e[off + f.0] > f.1);
  }

  method CheckEntry(e: bytes, l: XLayout, fields: nat, ns: nat) returns (ok: bool)
    requires Fits(l, fields) && |e| == l.width
    ensures ok <==> EntryOk(e, l, fields, ns)
  {
    hide LE24, HasField, BlockOk;
    for b := 0 to NUM_FIELDS
      invariant forall x: nat :: x < b && HasField(fields, x) ==> BlockOk(e, l.field[x], x, ns)
    {
      if HasField(fields, b) {
        var good := CheckBlock(e, l.field[b], b, ns);
        if !good {
          return false;
        }
      }
    }
    var o := l.langOff;
    while o < l.width
      invariant l.langOff <= o <= l.width && (o - l.langOff) % 3 == 0
      invariant forall x: nat :: x < o && NameSlotAt(l, x) ==> LE24(e, x) < ns
    {
      assert NameSlotAt(l, o);
      if LE24(e, o) >= ns {
        return false;
      }
      forall x: nat | x < o + 3 && NameSlotAt(l, x)
        ensures LE24(e, x) < ns
      {
        assert x >= o ==> x == o;
      }
      o := o + 3;
    }
    return true;
  }

  ghost predicate XRecordsOk(xr: bytes, l: XLayout, fields: nat, n: nat, ns: nat)
    requires Fits(l, fields) && |xr| == n * l.width && n > 0
  {
    l.width == 0
    || (AllZero(Row(xr, l.width, 0, n))
        && forall i :: 1 <= i < n ==> EntryOk(Row(xr, l.width, i, n), l, fields, ns))
  }

  method CheckXRecords(xr: bytes, l: XLayout, fields: nat, n: nat, ns: nat) returns (ok: bool)
    requires Fits(l, fields) && |xr| == n * l.width && n > 0
    ensures ok <==> XRecordsOk(xr, l, fields, n, ns)
  {
    hide EntryOk, Fits;
    if l.width == 0 {
      return true;
    }
    var zero := Row(xr, l.width, 0, n);
    for k := 0 to |zero|
      invariant forall x :: 0 <= x < k ==> zero[x] == 0
    {
      if zero[k] != 0 {
        return false;
      }
    }
    for i := 1 to n
      invariant forall x :: 1 <= x < i ==> EntryOk(Row(xr, l.width, x, n), l, fields, ns)
    {
      var good := CheckEntry(Row(xr, l.width, i, n), l, fields, ns);
      if !good {
        return false;
      }
    }
    return true;
  }

  // ---- languages ------------------------------------------------------------------------

  /** The bytes of string id. */
  function Str(strIdx: bytes, blob: bytes, id: nat): bytes
    requires StringIndex(U32s(strIdx), |blob|) && id + 1 < |strIdx| / 4
  {
    ghost var idx := U32s(strIdx);
    assert idx[id] <= idx[id + 1] <= idx[|idx| - 1];
    blob[U32At(strIdx, id)..U32At(strIdx, id + 1)]
  }

  /** LANGS lists ids of distinct non-empty strings, META's language first. */
  ghost predicate LangsOk(langs: seq<u32>, strIdx: bytes, blob: bytes, language: u32)
    requires StringIndex(U32s(strIdx), |blob|) && language + 1 < |strIdx| / 4
  {
    && |langs| >= 2
    && (forall j :: 0 <= j < |langs| ==> langs[j] + 1 < |strIdx| / 4)
    && (forall j :: 0 <= j < |langs| ==> Str(strIdx, blob, langs[j]) != [])
    && (forall i, j :: 0 <= i < j < |langs| ==> Str(strIdx, blob, langs[i]) != Str(strIdx, blob, langs[j]))
    && Str(strIdx, blob, langs[0]) == Str(strIdx, blob, language)
  }

  method CheckLangs(langs: bytes, strIdx: bytes, blob: bytes, language: u32) returns (ok: bool)
    requires StringIndex(U32s(strIdx), |blob|) && language + 1 < |strIdx| / 4 && |langs| / 4 >= 2
    ensures ok <==> LangsOk(U32s(langs), strIdx, blob, language)
  {
    hide LE32, StringIndex, Str;
    ghost var ids := U32s(langs);
    var seen: set<bytes> := {};
    for j := 0 to |langs| / 4
      invariant forall x :: 0 <= x < j ==> ids[x] + 1 < |strIdx| / 4
      invariant forall x :: 0 <= x < j ==> Str(strIdx, blob, ids[x]) in seen && Str(strIdx, blob, ids[x]) != []
      invariant forall t :: t in seen ==> exists x :: 0 <= x < j && Str(strIdx, blob, ids[x]) == t
      invariant forall x, y :: 0 <= x < y < j ==> Str(strIdx, blob, ids[x]) != Str(strIdx, blob, ids[y])
    {
      var id := U32At(langs, j);
      if id + 1 >= |strIdx| / 4 {
        return false;
      }
      var s := Str(strIdx, blob, id);
      if s == [] {
        return false;
      }
      if s in seen {
        return false;
      }
      seen := seen + {s};
    }
    return Str(strIdx, blob, U32At(langs, 0)) == Str(strIdx, blob, language);
  }
}
