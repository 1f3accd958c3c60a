/** Packed records and extension entries, written field by field in the order of
    docs/FORMAT.md, and what decoding reads back. */
module Packing {
  import opened Words
  import opened XLayouts
  import opened Geo2Records
  import opened Databases
  import opened Details

  // ---- records -------------------------------------------------------------------

  /** The packed values of a record: string ids already renumbered. */
  datatype Packed = Packed(
    iso: u16, name: u16, continent: u16, geo: u32, regionISO: u16, regionName: u16,
    city: u24, cityGeo: u32, lat: u32, lon: u32, accuracy: u16, timeZone: u16)

  /** The stores of one row, in offset order: they tile it. */
  function PackCountry(p: Packed): (r: bytes)
    ensures |r| == 10
  {
    Put16(p.iso) + Put16(p.name) + Put16(p.continent) + Put32(p.geo)
  }

  function PackRegion(p: Packed): (r: bytes)
    ensures |r| == 14
  {
    PackCountry(p) + Put16(p.regionISO) + Put16(p.regionName)
  }

  function PackCity(p: Packed): (r: bytes)
    ensures |r| == 33
  {
    PackRegion(p) + Put24(p.city) + Put32(p.cityGeo) + Put32(p.lat) + Put32(p.lon)
    + Put16(p.accuracy) + Put16(p.timeZone)
  }

  function PackRow(profile: nat, p: Packed): (r: bytes)
    requires profile <= 2
    ensures |r| == RecordWidth(profile)
  {
    match profile
    case 0 => PackCountry(p)
    case 1 => PackRegion(p)
    case _ => PackCity(p)
  }

  ghost predicate LoadsCountry(r: bytes, p: Packed) {
    |r| >= 10 && LE16(r, 0) == p.iso && LE16(r, 2) == p.name && LE16(r, 4) == p.continent && LE32(r, 6) == p.geo
  }

  ghost predicate LoadsRegion(r: bytes, p: Packed) {
    |r| >= 14 && LE16(r, 10) == p.regionISO && LE16(r, 12) == p.regionName
  }

  ghost predicate LoadsCity(r: bytes, p: Packed) {
    && |r| == 33 && LE24(r, 14) == p.city && LE32(r, 17) == p.cityGeo && LE32(r, 21) == p.lat && LE32(r, 25) == p.lon
    && LE16(r, 29) == p.accuracy && LE16(r, 31) == p.timeZone
  }

  lemma CountryLoads(p: Packed)
    ensures LoadsCountry(PackCountry(p), p)
  {
    hide LE16, LE24, LE32, Put16, Put32;
    var a := Put16(p.iso);
    Load16(a, Put16(p.name));
    Load16(a + Put16(p.name), Put16(p.continent));
    Load32(a + Put16(p.name) + Put16(p.continent), Put32(p.geo));
  }

  lemma RegionLoads(p: Packed)
    ensures LoadsCountry(PackRegion(p), p) && LoadsRegion(PackRegion(p), p)
  {
    hide LE16, LE24, LE32, Put16, PackCountry;
    CountryLoads(p);
    var a := PackCountry(p);
    Load16(a, Put16(p.regionISO));
    Load16(a + Put16(p.regionISO), Put16(p.regionName));
  }

  lemma CityLoads(p: Packed)
    ensures LoadsCountry(PackCity(p), p) && LoadsRegion(PackCity(p), p) && LoadsCity(PackCity(p), p)
  {
    hide LE16, LE24, LE32, Put16, Put24, Put32, PackRegion;
    RegionLoads(p);
    var a := PackRegion(p);
    var b := a + Put24(p.city);
    var c := b + Put32(p.cityGeo);
    var d := c + Put32(p.lat);
    var e := d + Put32(p.lon);
    var f := e + Put16(p.accuracy);
    Load24(a, Put24(p.city));
    Load32(b, Put32(p.cityGeo));
    Load32(c, Put32(p.lat));
    Load32(d, Put32(p.lon));
    Load16(e, Put16(p.accuracy));
    Load16(f, Put16(p.timeZone));
  }

  /** A packed row loads back field by field. */
  lemma RowLoads(profile: nat, p: Packed)
    requires profile <= 2
    ensures var r := PackRow(profile, p);
      LoadsCountry(r, p) && (profile >= 1 ==> LoadsRegion(r, p)) && (profile >= 2 ==> LoadsCity(r, p))
  {
    hide LoadsCountry, LoadsRegion, LoadsCity, PackCountry, PackRegion, PackCity;
    match profile {
      case 0 => CountryLoads(p);
      case 1 => RegionLoads(p);
      case _ => CityLoads(p);
    }
  }

  /** A string by its id, empty past the table. */
  function StrAt(strings: seq<bytes>, id: nat): bytes {
    if id < |strings| then strings[id] else []
  }

  /** Decoding a packed row gives each field of the profile back, and nothing
      else. */
  lemma RecordRead(s: Database, id: nat, p: Packed)
    requires IsRecord(s, id) && s.profile <= 2 && RowOf(s, id) == PackRow(s.profile, p)
    ensures var r, str := Decode(s, id), (k: nat) => StrAt(s.strings, k);
      && r.countryISO == str(p.iso) && r.countryName == str(p.name)
      && r.continent == str(p.continent) && r.countryGeo == p.geo
      && (if s.profile == 0 then r.regionISO == [] && r.regionName == []
          else r.regionISO == str(p.regionISO) && r.regionName == str(p.regionName))
      && (if s.profile <= 1 then
            && r.city == [] && r.cityGeo == 0 && r.lat == 0 && r.lon == 0 && r.accuracy == 0 && r.timeZone == []
          else
            && r.city == str(p.city) && r.cityGeo == p.cityGeo && r.lat == p.lat && r.lon == p.lon
            && r.accuracy == p.accuracy && r.timeZone == str(p.timeZone))
  {
    hide LE16, LE24, LE32, PackRow, Database.ValidRecords;
    RowLoads(s.profile, p);
    RowIds(RowOf(s, id), s.profile, |s.strings|);
  }

  /** An ASN row is its number and the id of its organization. */
  lemma AsnRead(s: Database, id: nat, number: u32, organization: u24)
    requires IsRecord(s, id) && s.profile == ASN && RowOf(s, id) == Put32(number) + Put24(organization)
    ensures DecodeAsn(s, id) == AsnRecord(number, StrAt(s.strings, organization))
  {
    hide LE24, LE32, Put24, Put32, Database.ValidRecords;
    Load24(Put32(number), Put24(organization));
    LoadsSplit(Put32(number), Put24(organization), 0);
  }
}
