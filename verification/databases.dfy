/** What a Reader reads: the sections of a GEO2 file, or their GEO1 conversion,
    and what validation establishes about them. */
module Databases {
  import opened Words
  import opened Boundaries
  import opened Ids
  import opened XLayouts
  import opened Geo2Records

  datatype Database = Database(
    profile: nat, idWidth: nat,
    strings: seq<bytes>, records: bytes, nRecords: nat,
    v4idx: bytes, v4starts: bytes, v4ids: bytes,
    v6hi: bytes, v6ids: bytes, v6excIdx: bytes, v6excLo: bytes,
    fields: nat, xrecs: bytes, xl: XLayout, langs: seq<bytes>)
  {
    function N4(): nat { |v4starts| / 2 }
    function N6(): nat { |v6hi| / 8 }

    /** The range tables are well formed. */
    ghost predicate Valid() {
      && 1 <= idWidth <= 4
      && Valid4(U32s(v4idx), U16s(v4starts))
      && |v6excIdx| / 4 == |v6excLo| / 8
      && Valid6(U64s(v6hi), U32s(v6excIdx), U64s(v6excLo))
      && Count(|v4ids|, idWidth) == N4()
      && Count(|v6ids|, idWidth) == N6()
    }

    /** Every record id is a record, every string id a string. */
    ghost predicate ValidRecords() {
      && profile <= 3 && |records| == nRecords * RecordWidth(profile)
      && RecordsOk(profile, records, nRecords, |strings|)
      && |strings| > 0 && strings[0] == []
      && 1 <= idWidth <= 4
      && AllBelow(IdsOf(v4ids, idWidth), nRecords) && AllBelow(IdsOf(v6ids, idWidth), nRecords)
      && ValidEntries()
    }

    /** The extension entries, when there are any. */
    ghost predicate ValidEntries() {
      && (xl.width > 0 ==>
        && profile != ASN && nRecords > 0 && Fits(xl, fields) && |xrecs| == nRecords * xl.width
        && XRecordsOk(xrecs, xl, fields, nRecords, |strings|))
      && (|langs| > 1 ==> IsLayout(xl, profile, fields, |langs|) && profile != ASN)
    }

    /** The absolute starts of the two tables. */
    ghost function S4(): (r: seq<int>)
      requires Valid()
      ensures |r| == N4()
    {
      Starts4(U32s(v4idx), U16s(v4starts))
    }

    ghost function S6(): (r: seq<int>)
      requires Valid()
      ensures |r| == N6()
    {
      Starts6(U64s(v6hi), U32s(v6excIdx), U64s(v6excLo))
    }

    ghost function Ids4(): (r: seq<u32>)
      requires Valid()
      ensures |r| == |S4()|
    {
      IdsOf(v4ids, idWidth)
    }

    ghost function Ids6(): (r: seq<u32>)
      requires Valid()
      ensures |r| == |S6()|
    {
      IdsOf(v6ids, idWidth)
    }
  }

  /** The id of the last boundary at or below key, 0 when there is none: what
      docs/FORMAT.md says a lookup answers. */
  ghost function Answer(starts: seq<int>, ids: seq<u32>, key: int): u32
    requires |starts| == |ids|
  {
    var i := Last(starts, key);
    if i < 0 then 0 else ids[i]
  }
}
