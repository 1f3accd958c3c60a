/** Decoding the record columns of a CSV row, and the key under which decoded
    records are remembered (csvdb/reader.go newReader, fill, row). */
module CsvRecords {
  import opened Words
  import opened Addresses
  import opened CsvScan

  /** The columns of a CSV layout; 0 means the layout does not have the column. */
  datatype Layout = Layout(
    cols: nat, decimal: bool, asn: bool, none: bytes, dash: bool,
    continent: nat, country: nat, countryName: nat, region: nat, city: nat,
    lat: nat, lon: nat, postal: nat, asNum: nat, asOrg: nat)
  {
    predicate Valid() {
      && cols >= 2
      && continent < cols && country < cols && countryName < cols && region < cols && city < cols
      && lat < cols && lon < cols && postal < cols && asNum < cols && asOrg < cols
    }
  }

  /** The build profiles, in order of detail; ASN databases stand apart. */
  datatype Profile = Country | Region | City | AsnDb {
    predicate HasRegion() { Region? || City? }
  }

  datatype Coordinates = NoCoordinates | At(lat: int, lon: int)

  /** A decoded source record. */
  datatype CsvRecord = CsvRecord(
    asNumber: u32, organization: bytes,
    continent: bytes, country: bytes, countryName: bytes,
    region: bytes, city: bytes, postal: bytes, location: Coordinates)

  const EMPTY := CsvRecord(0, [], [], [], [], [], [], [], NoCoordinates)

  /** What a build reads from a source: the profile, whether it keeps postal
      codes, the layout, and the library's number parsing with its range check. */
  datatype Build = Build(profile: Profile, withPostal: bool, l: Layout, parseCoord: (bytes, nat) -> Option<int>)

  /** value: column c of a row, empty when the layout has no such column or
      marks the value as missing. */
  function Value(l: Layout, row: seq<bytes>, c: nat): bytes
    requires c < |row|
  {
    if c == 0 then []
    else if l.dash && row[c] == [0x2D] then []
    else row[c]
  }

  // ---- the record key -----------------------------------------------------------------

  /** newReader's key columns: the columns the build reads. */
  function KeyCols(b: Build): seq<nat> {
    if b.profile.AsnDb? then Present([b.l.asNum, b.l.asOrg])
    else
      Present([b.l.continent, b.l.country, b.l.countryName])
      + (if b.profile.HasRegion() then Present([b.l.region]) else [])
      + (if b.profile.City? then Present([b.l.city, b.l.lat, b.l.lon]) else [])
      + (if b.profile.City? && b.withPostal then Present([b.l.postal]) else [])
  }

  function Present(cols: seq<nat>): (r: seq<nat>)
    ensures forall c :: c in r <==> c in cols && c != 0
  {
    if cols == [] then [] else (if cols[0] != 0 then [cols[0]] else []) + Present(cols[1..])
  }

  /** binary.AppendUvarint: seven bits a byte, the low ones first. */
  function Uvarint(n: nat): bytes {
    if n < 0x80 then [n] else [0x80 + n % 0x80] + Uvarint(n / 0x80)
  }

  /** The key of a row: each key column's length and bytes. */
  function Key(cols: seq<nat>, row: seq<bytes>): bytes
    requires forall k :: 0 <= k < |cols| ==> cols[k] < |row|
  {
    if cols == [] then [] else Uvarint(|row[cols[0]]|) + row[cols[0]] + Key(cols[1..], row)
  }

  lemma {:induction false} UvarintPrefixFree(m: nat, n: nat, x: bytes, y: bytes)
    requires Uvarint(m) + x == Uvarint(n) + y
    ensures m == n && x == y
    decreases m
  {
    var a, b := Uvarint(m), Uvarint(n);
    assert (a + x)[0] == (b + y)[0];
    assert a[0] == b[0] && |a| > 0 && |b| > 0;
    assert (a + x)[1..] == a[1..] + x && (b + y)[1..] == b[1..] + y;
    if m >= 0x80 {
      UvarintPrefixFree(m / 0x80, n / 0x80, x, y);
    } else {
      assert a[1..] == [] && b[1..] == [];
      assert [] + x == x && [] + y == y;
    }
  }

  /** Rows with the same key have the same text in every key column. */
  lemma {:induction false} KeyInjective(cols: seq<nat>, r: seq<bytes>, s: seq<bytes>)
    requires forall k :: 0 <= k < |cols| ==> cols[k] < |r| && cols[k] < |s|
    requires Key(cols, r) == Key(cols, s)
    ensures forall c :: c in cols ==> r[c] == s[c]
    decreases |cols|
  {
    if cols != [] {
      var c, rest := cols[0], cols[1..];
      var kr, ks := Key(rest, r), Key(rest, s);
      assert Key(cols, r) == Uvarint(|r[c]|) + (r[c] + kr);
      assert Key(cols, s) == Uvarint(|s[c]|) + (s[c] + ks);
      UvarintPrefixFree(|r[c]|, |s[c]|, r[c] + kr, s[c] + ks);
      assert (r[c] + kr)[..|r[c]|] == r[c] && (s[c] + ks)[..|s[c]|] == s[c];
      assert (r[c] + kr)[|r[c]|..] == kr && (s[c] + ks)[|s[c]|..] == ks;
      KeyInjective(rest, r, s);
    }
  }

  // ---- decoding -------------------------------------------------------------------------

  /** The values of the columns a build reads; those it does not read are empty. */
  datatype Values = Values(
    asNumber: bytes, organization: bytes, continent: bytes, country: bytes, countryName: bytes,
    region: bytes, city: bytes, postal: bytes, lat: bytes, lon: bytes)

  ghost function ValuesOf(b: Build, row: seq<bytes>): Values
    requires b.l.Valid() && |row| == b.l.cols
  {
    var l, p := b.l, b.profile;
    Values(Read(l, row, p.AsnDb?, l.asNum), Read(l, row, p.AsnDb?, l.asOrg),
           Read(l, row, !p.AsnDb?, l.continent), Read(l, row, !p.AsnDb?, l.country),
           Read(l, row, !p.AsnDb?, l.countryName),
           Read(l, row, p.HasRegion(), l.region), Read(l, row, p.City?, l.city),
           Read(l, row, p.City? && b.withPostal, l.postal), Read(l, row, p.City?, l.lat), Read(l, row, p.City?, l.lon))
  }

  function Read(l: Layout, row: seq<bytes>, wanted: bool, c: nat): bytes
    requires c < |row|
  {
    if wanted then Value(l, row, c) else []
  }

  lemma ReadSame(l: Layout, cols: seq<nat>, r: seq<bytes>, s: seq<bytes>, wanted: bool, c: nat)
    requires |r| == |s| && c < |r| && (forall k :: k in cols ==> k < |r| && r[k] == s[k])
    requires wanted ==> c == 0 || c in cols
    ensures Read(l, r, wanted, c) == Read(l, s, wanted, c)
  {
  }

  /** The record a row's values describe, None when one does not parse. */
  ghost function Describe(b: Build, v: Values): Option<CsvRecord> {
    if b.profile.AsnDb? then
      if 1 <= |v.asNumber| <= 10 && Digits(v.asNumber) && Decimal(v.asNumber) < TWO32 then
        Some(EMPTY.(asNumber := Decimal(v.asNumber), organization := v.organization))
      else None
    else
      var base := EMPTY.(continent := v.continent, country := v.country, countryName := v.countryName,
                         region := v.region, city := v.city, postal := v.postal);
      if v.lat == [] && v.lon == [] then Some(base)
      else if v.lat == [] || v.lon == [] then None
      else match (b.parseCoord(v.lat, 90), b.parseCoord(v.lon, 180))
        case (Some(x), Some(y)) => Some(base.(location := At(x, y)))
        case _ => None
  }

  ghost function RecordOf(b: Build, row: seq<bytes>): Option<CsvRecord>
    requires b.l.Valid() && |row| == b.l.cols
  {
    Describe(b, ValuesOf(b, row))
  }

  /** Decoding depends only on the key columns, so one decoding serves every row
      with the same key. */
  lemma SameKeySameRecord(b: Build, r: seq<bytes>, s: seq<bytes>)
    requires b.l.Valid() && |r| == |s| == b.l.cols
    requires ColumnsIn(KeyCols(b), b.l.cols)
    requires Key(KeyCols(b), r) == Key(KeyCols(b), s)
    ensures RecordOf(b, r) == RecordOf(b, s)
  {
    KeyInjective(KeyCols(b), r, s);
    KeyColsCover(b);
    hide KeyCols, Key, Describe, Read;
    var l, p, k := b.l, b.profile, KeyCols(b);
    assert forall c :: c in k ==> c < |r|;
    ReadSame(l, k, r, s, p.AsnDb?, l.asNum);
    ReadSame(l, k, r, s, p.AsnDb?, l.asOrg);
    ReadSame(l, k, r, s, !p.AsnDb?, l.continent);
    ReadSame(l, k, r, s, !p.AsnDb?, l.country);
    ReadSame(l, k, r, s, !p.AsnDb?, l.countryName);
    ReadSame(l, k, r, s, p.HasRegion(), l.region);
    ReadSame(l, k, r, s, p.City?, l.city);
    ReadSame(l, k, r, s, p.City? && b.withPostal, l.postal);
    ReadSame(l, k, r, s, p.City?, l.lat);
    ReadSame(l, k, r, s, p.City?, l.lon);
  }

  ghost predicate ColumnsIn(cols: seq<nat>, n: nat) {
    forall k :: 0 <= k < |cols| ==> cols[k] < n
  }

  lemma KeyColsIn(b: Build)
    requires b.l.Valid()
    ensures ColumnsIn(KeyCols(b), b.l.cols)
  {
    var l, cols := b.l, KeyCols(b);
    forall k | 0 <= k < |cols|
      ensures cols[k] < l.cols
    {
      assert cols[k] in cols;
    }
  }

  /** Every column decoding reads is a key column, or absent. */
  lemma KeyColsCover(b: Build)
    ensures var k, l := KeyCols(b), b.l;
      && (b.profile.AsnDb? ==> (l.asNum == 0 || l.asNum in k) && (l.asOrg == 0 || l.asOrg in k))
      && (!b.profile.AsnDb? ==>
            (l.continent == 0 || l.continent in k) && (l.country == 0 || l.country in k)
            && (l.countryName == 0 || l.countryName in k))
      && (b.profile.HasRegion() ==> l.region == 0 || l.region in k)
      && (b.profile.City? ==>
            (l.city == 0 || l.city in k) && (l.lat == 0 || l.lat in k) && (l.lon == 0 || l.lon in k))
      && (b.profile.City? && b.withPostal ==> l.postal == 0 || l.postal in k)
  {
  }

  // ---- what each profile stores ---------------------------------------------------------

  /** t is the text of column c: empty without the column, or where a dash layout
      marks the value as missing. */
  predicate IsText(t: bytes, l: Layout, row: seq<bytes>, c: nat)
    requires c < |row|
  {
    if c == 0 || (l.dash && row[c] == [45]) then t == [] else t == row[c]
  }

  /** The place columns that every geo profile stores. */
  ghost predicate IsCountry(r: CsvRecord, l: Layout, row: seq<bytes>)
    requires l.Valid() && |row| == l.cols
  {
    && IsText(r.continent, l, row, l.continent) && IsText(r.country, l, row, l.country)
    && IsText(r.countryName, l, row, l.countryName) && r.asNumber == 0 && r.organization == []
  }

  /** A country build stores the three country columns and nothing else. */
  lemma CountryRow(b: Build, row: seq<bytes>)
    requires b.l.Valid() && |row| == b.l.cols && b.profile == Country
    ensures RecordOf(b, row).Some?
    ensures var r := RecordOf(b, row).value;
      && IsCountry(r, b.l, row) && r.region == r.city == r.postal == [] && r.location == NoCoordinates
  {
  }

  /** A region build stores the region's name too. */
  lemma RegionRow(b: Build, row: seq<bytes>)
    requires b.l.Valid() && |row| == b.l.cols && b.profile == Region
    ensures RecordOf(b, row).Some?
    ensures var r := RecordOf(b, row).value;
      && IsCountry(r, b.l, row) && IsText(r.region, b.l, row, b.l.region)
      && r.city == r.postal == [] && r.location == NoCoordinates
  {
  }

  /** A city build stores region, city and coordinates, and the postal code when it
      keeps them; coordinates come both or not at all, and must parse. */
  lemma CityRow(b: Build, row: seq<bytes>, lat: bytes, lon: bytes)
    requires b.l.Valid() && |row| == b.l.cols && b.profile == City
    requires IsText(lat, b.l, row, b.l.lat) && IsText(lon, b.l, row, b.l.lon)
    ensures RecordOf(b, row).Some? <==>
      || (lat == [] && lon == [])
      || (lat != [] && lon != [] && b.parseCoord(lat, 90).Some? && b.parseCoord(lon, 180).Some?)
    ensures RecordOf(b, row).Some? ==>
      var r := RecordOf(b, row).value;
      && IsCountry(r, b.l, row) && IsText(r.region, b.l, row, b.l.region) && IsText(r.city, b.l, row, b.l.city)
      && (if b.withPostal then IsText(r.postal, b.l, row, b.l.postal) else r.postal == [])
      && r.location == (if lat == [] then NoCoordinates
                        else At(b.parseCoord(lat, 90).value, b.parseCoord(lon, 180).value))
  {
  }

  /** An ASN build stores the AS number, a numeral below 2^32, and the organization. */
  lemma AsnRow(b: Build, row: seq<bytes>, number: bytes)
    requires b.l.Valid() && |row| == b.l.cols && b.profile == AsnDb && IsText(number, b.l, row, b.l.asNum)
    ensures RecordOf(b, row).Some? <==> 1 <= |number| <= 10 && Digits(number) && Decimal(number) < TWO32
    ensures RecordOf(b, row).Some? ==>
      var r := RecordOf(b, row).value;
      && r.asNumber == Decimal(number) && IsText(r.organization, b.l, row, b.l.asOrg)
      && r.continent == r.country == r.countryName == r.region == r.city == r.postal == []
      && r.location == NoCoordinates
  {
  }
}
