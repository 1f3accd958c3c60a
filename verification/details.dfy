/** Decoding records (reader.go decode, details.go): every read of a validated
    database is in range. */
module Details {
  import opened Words
  import opened Ids
  import opened XLayouts
  import opened Geo2Records
  import opened Databases

  datatype Record = Record(
    countryISO: bytes, countryName: bytes, continent: bytes, countryGeo: u32,
    regionISO: bytes, regionName: bytes,
    city: bytes, cityGeo: u32, lat: u32, lon: u32, accuracy: u16, timeZone: bytes)

  const NO_RECORD := Record([], [], [], 0, [], [], [], 0, 0, 0, 0, [])

  ghost predicate IsRecord(s: Database, id: nat) {
    s.ValidRecords() && 1 <= id < s.nRecords
  }

  /** The packed bytes of a record. */
  function RowOf(s: Database, id: nat): (row: bytes)
    requires IsRecord(s, id)
    ensures |row| == RecordWidth(s.profile) && RecordStrings(row, s.profile, |s.strings|)
  {
    Row(s.records, RecordWidth(s.profile), id, s.nRecords)
  }

  /** The string ids of a row, field by field. */
  lemma RowIds(row: bytes, profile: nat, ns: nat)
    requires profile <= 2 && |row| == RecordWidth(profile) && RecordStrings(row, profile, ns)
    ensures LE16(row, REC_COUNTRY_ISO) < ns && LE16(row, REC_COUNTRY_NAME) < ns && LE16(row, REC_CONTINENT) < ns
    ensures profile >= 1 ==> LE16(row, REC_REGION_ISO) < ns && LE16(row, REC_REGION_NAME) < ns
    ensures profile >= 2 ==> LE16(row, REC_TIME_ZONE) < ns && LE24(row, REC_CITY_NAME) < ns
  {
    hide LE16, LE24;
    var o := StringOffs(profile);
    assert o[0] == REC_COUNTRY_ISO && o[1] == REC_COUNTRY_NAME && o[2] == REC_CONTINENT;
    assert profile >= 1 ==> o[3] == REC_REGION_ISO && o[4] == REC_REGION_NAME;
    assert profile == 2 ==> o[5] == REC_TIME_ZONE;
  }

  function Decode(s: Database, id: nat): Record
    requires IsRecord(s, id) && s.profile != ASN
  {
    var row := RowOf(s, id);
    RowIds(row, s.profile, |s.strings|);
    var rec := NO_RECORD.(
      countryISO := s.strings[LE16(row, REC_COUNTRY_ISO)],
      countryName := s.strings[LE16(row, REC_COUNTRY_NAME)],
      continent := s.strings[LE16(row, REC_CONTINENT)],
      countryGeo := LE32(row, REC_COUNTRY_GEO));
    if s.profile < 1 then rec else
    var reg := rec.(
      regionISO := s.strings[LE16(row, REC_REGION_ISO)],
      regionName := s.strings[LE16(row, REC_REGION_NAME)]);
    if s.profile < 2 then reg else
    reg.(city := s.strings[LE24(row, REC_CITY_NAME)],
         cityGeo := LE32(row, REC_CITY_GEO),
         lat := LE32(row, REC_LAT),
         lon := LE32(row, REC_LON),
         accuracy := LE16(row, REC_ACCURACY),
         timeZone := s.strings[LE16(row, REC_TIME_ZONE)])
  }

  datatype AsnRecord = AsnRecord(number: u32, organization: bytes)

  const NO_ASN := AsnRecord(0, [])

  function DecodeAsn(s: Database, id: nat): AsnRecord
    requires IsRecord(s, id) && s.profile == ASN
  {
    var row := RowOf(s, id);
    AsnRecord(LE32(row, REC_ASN_NUMBER), s.strings[LE24(row, REC_ASN_ORG)])
  }

  // ---- extension entries -----------------------------------------------------------

  ghost predicate HasEntries(s: Database) {
    s.ValidRecords() && s.xl.width > 0
  }

  /** The XRECORDS entry of a record. */
  function Entry(s: Database, id: nat): (e: bytes)
    requires HasEntries(s) && IsRecord(s, id)
    ensures |e| == s.xl.width && EntryOk(e, s.xl, s.fields, |s.strings|)
  {
    Row(s.xrecs, s.xl.width, id, s.nRecords)
  }

  /** The k-th string of field set b's block. */
  function BlockString(s: Database, id: nat, b: nat, k: nat): bytes
    requires HasEntries(s) && IsRecord(s, id) && b < NUM_FIELDS && HasField(s.fields, b) && k < |BlockStrings(b)|
  {
    var e := Entry(s, id);
    assert BlockOk(e, s.xl.field[b], b, |s.strings|);
    s.strings[LE24(e, s.xl.field[b] + BlockStrings(b)[k])]
  }

  /** The flags byte of field set b's block; only defined bits can be set. */
  function BlockFlags(s: Database, id: nat, b: nat): (f: nat)
    requires HasEntries(s) && IsRecord(s, id) && b < NUM_FIELDS && HasField(s.fields, b) && FlagByte(b).0 >= 0
    ensures f <= FlagByte(b).1
  {
    var e := Entry(s, id);
    assert BlockOk(e, s.xl.field[b], b, |s.strings|);
    OnlyLowBits(e[s.xl.field[b] + FlagByte(b).0], FlagByte(b).1);
    e[s.xl.field[b] + FlagByte(b).0]
  }

  /** A u32 at offset o of field set b's block. */
  function BlockWord(s: Database, id: nat, b: nat, o: nat): u32
    requires HasEntries(s) && IsRecord(s, id) && b < NUM_FIELDS && HasField(s.fields, b) && o + 4 <= FIELD_WIDTH[b]
  {
    LE32(Entry(s, id), s.xl.field[b] + o)
  }

  datatype Country = Country(iso: bytes, name: bytes, geo: u32, eu: bool)

  const NO_COUNTRY := Country([], [], 0, false)

  /** The optional fields of a lookup. */
  datatype Extra = Extra(
    inEU: bool, continentName: bytes, continentGeo: u32,
    registered: Country, represented: Country, representedType: bytes,
    regionGeo: u32, region2ISO: bytes, region2Name: bytes, region2Geo: u32,
    postal: bytes, metro: u16, anycast: bool, anonymousProxy: bool, satellite: bool,
    hasCoordinates: bool, hasAccuracy: bool)

  const NO_EXTRA := Extra(
    false, [], 0, NO_COUNTRY, NO_COUNTRY, [], 0, [], [], 0, [], 0, false, false, false, false, false)

  function EUOf(s: Database, id: nat): bool
    requires HasEntries(s) && IsRecord(s, id)
  {
    HasField(s.fields, FIELD_EU) && BlockFlags(s, id, FIELD_EU) % 2 == 1
  }

  function ContinentOf(s: Database, id: nat): (bytes, u32)
    requires HasEntries(s) && IsRecord(s, id)
  {
    if !HasField(s.fields, FIELD_CONTINENT) then ([], 0)
    else (BlockString(s, id, FIELD_CONTINENT, 0), BlockWord(s, id, FIELD_CONTINENT, 3))
  }

  /** The registered country, the represented one and its type. */
  function CountriesOf(s: Database, id: nat): (Country, Country, bytes)
    requires HasEntries(s) && IsRecord(s, id)
  {
    if !HasField(s.fields, FIELD_REGISTERED) then (NO_COUNTRY, NO_COUNTRY, [])
    else
      var str := k requires 0 <= k < |BlockStrings(FIELD_REGISTERED)| => BlockString(s, id, FIELD_REGISTERED, k);
      var fl := BlockFlags(s, id, FIELD_REGISTERED);
      (Country(str(0), str(1), BlockWord(s, id, FIELD_REGISTERED, 6), fl % 2 == 1),
       Country(str(2), str(3), BlockWord(s, id, FIELD_REGISTERED, 16), fl / 2 % 2 == 1),
       str(4))
  }

  function SubdivisionsOf(s: Database, id: nat): (u32, bytes, bytes, u32)
    requires HasEntries(s) && IsRecord(s, id)
  {
    if !HasField(s.fields, FIELD_SUBDIVISIONS) then (0, [], [], 0)
    else (BlockWord(s, id, FIELD_SUBDIVISIONS, 0), BlockString(s, id, FIELD_SUBDIVISIONS, 0),
          BlockString(s, id, FIELD_SUBDIVISIONS, 1), BlockWord(s, id, FIELD_SUBDIVISIONS, 10))
  }

  function PostalOf(s: Database, id: nat): bytes
    requires HasEntries(s) && IsRecord(s, id)
  {
    if HasField(s.fields, FIELD_POSTAL) then BlockString(s, id, FIELD_POSTAL, 0) else []
  }

  function MetroOf(s: Database, id: nat): u16
    requires HasEntries(s) && IsRecord(s, id)
  {
    if HasField(s.fields, FIELD_METRO) then LE16(Entry(s, id), s.xl.field[FIELD_METRO]) else 0
  }

  /** The flags byte of a field set without other values, 0 without the set. */
  function FlagsOf(s: Database, id: nat, b: nat): nat
    requires HasEntries(s) && IsRecord(s, id) && b < NUM_FIELDS && FlagByte(b).0 >= 0
  {
    if HasField(s.fields, b) then BlockFlags(s, id, b) else 0
  }

  /** The blocks of the field sets a database has, in the primary language. */
  function DecodeExtra(s: Database, id: nat): Extra
    requires IsRecord(s, id)
  {
    if s.xl.width == 0 then NO_EXTRA else
    var (continentName, continentGeo) := ContinentOf(s, id);
    var (registered, represented, representedType) := CountriesOf(s, id);
    var (regionGeo, region2ISO, region2Name, region2Geo) := SubdivisionsOf(s, id);
    var traits, location := FlagsOf(s, id, FIELD_TRAITS), FlagsOf(s, id, FIELD_LOCATION);
    Extra(EUOf(s, id), continentName, continentGeo, registered, represented, representedType,
          regionGeo, region2ISO, region2Name, region2Geo, PostalOf(s, id), MetroOf(s, id),
          traits % 2 == 1, traits / 2 % 2 == 1, traits / 4 % 2 == 1, location % 2 == 1, location / 2 % 2 == 1)
  }

  // ---- names in other languages -------------------------------------------------------

  const NAME_COUNTRY: nat := 0
  const NAME_REGION: nat := 1
  const NAME_CITY: nat := 2
  const NAME_CONTINENT: nat := 3
  const NAME_REGION2: nat := 4
  const NAME_REGISTERED: nat := 5
  const NAME_REPRESENTED: nat := 6

  /** Language j of a database, 0 for the primary one. */
  ghost predicate Speaks(s: Database, j: nat) {
    s.ValidRecords() && (j > 0 ==> j < |s.langs|)
  }

  /** Where language j stores names of kind k, -1 when it does not. */
  ghost function NameOffset(l: XLayout, j: nat, k: nat): (o: int)
    requires j >= 1
    ensures o >= -1
  {
    if k in l.kinds then
      var i: nat :| i < |l.kinds| && l.kinds[i] == k;
      l.SlotOff(j, i)
    else -1
  }

  /** A stored name lies in the entry, on a name slot. */
  lemma NameInside(l: XLayout, profile: nat, fields: nat, n: nat, j: nat, i: nat)
    requires n >= 1 && IsLayout(l, profile, fields, n) && 1 <= j < n && i < |l.kinds|
    ensures NameSlotAt(l, l.SlotOff(j, i))
  {
    hide HasField, BlocksBelow, KindsBelow;
    var K := |l.kinds|;
    NameRegroup(K, j, i, n);
    MulBelow(K, j - 1, n - 1, i);
    var m := K * (j - 1) + i;
    assert l.SlotOff(j, i) == l.langOff + 3 * m && l.width == l.langOff + 3 * (K * (n - 1));
  }

  lemma NameOffsetUnique(l: XLayout, profile: nat, fields: nat, n: nat, j: nat, i: nat)
    requires n >= 1 && IsLayout(l, profile, fields, n) && j >= 1 && i < |l.kinds|
    ensures NameOffset(l, j, l.kinds[i]) == l.SlotOff(j, i)
  {
    KindsMeaning(profile, fields, NUM_KINDS);
    var m: nat :| m < |l.kinds| && l.kinds[m] == l.kinds[i] && NameOffset(l, j, l.kinds[i]) == l.SlotOff(j, m);
  }

  /** The name of kind k of record id in language j: the entry's string, or the
      primary language's when the entry has none. */
  ghost function NameIn(s: Database, j: nat, id: nat, k: nat, primary: bytes): bytes
    requires Speaks(s, j) && IsRecord(s, id)
  {
    if j == 0 || NameOffset(s.xl, j, k) == -1 then primary
    else
      NameRead(s, j, id, k);
      var n := LE24(Entry(s, id), NameOffset(s.xl, j, k));
      if n == 0 then primary else s.strings[n]
  }

  lemma NameRead(s: Database, j: nat, id: nat, k: nat)
    requires Speaks(s, j) && IsRecord(s, id) && j > 0 && NameOffset(s.xl, j, k) >= 0
    ensures HasEntries(s) && NameOffset(s.xl, j, k) + 3 <= s.xl.width
    ensures LE24(Entry(s, id), NameOffset(s.xl, j, k)) < |s.strings|
  {
    hide LE24, RecordsOk, IdsOf, AllBelow, XRecordsOk, Fits;
    var i: nat :| i < |s.xl.kinds| && s.xl.kinds[i] == k && NameOffset(s.xl, j, k) == s.xl.SlotOff(j, i);
    NameInside(s.xl, s.profile, s.fields, |s.langs|, j, i);
    var e := Entry(s, id);
    assert NameSlotAt(s.xl, s.xl.SlotOff(j, i));
  }

  /** The record of id with its names in language j. */
  ghost function LocalRecord(s: Database, j: nat, id: nat): Record
    requires Speaks(s, j) && IsRecord(s, id) && s.profile != ASN
  {
    var r := Decode(s, id);
    r.(countryName := NameIn(s, j, id, NAME_COUNTRY, r.countryName),
       regionName := NameIn(s, j, id, NAME_REGION, r.regionName),
       city := NameIn(s, j, id, NAME_CITY, r.city))
  }

  ghost function LocalExtra(s: Database, j: nat, id: nat): Extra
    requires Speaks(s, j) && IsRecord(s, id)
  {
    var x := DecodeExtra(s, id);
    x.(continentName := NameIn(s, j, id, NAME_CONTINENT, x.continentName),
       region2Name := NameIn(s, j, id, NAME_REGION2, x.region2Name),
       registered := x.registered.(name := NameIn(s, j, id, NAME_REGISTERED, x.registered.name)),
       represented := x.represented.(name := NameIn(s, j, id, NAME_REPRESENTED, x.represented.name)))
  }

  /** Everything a lookup can return about a record. */
  datatype FullRecord = FullRecord(rec: Record, x: Extra, asn: AsnRecord)

  const NO_DETAILS := FullRecord(NO_RECORD, NO_EXTRA, NO_ASN)

  /** The details of a record in language j; an ASN database has the AS alone. */
  ghost function DetailsOf(s: Database, j: nat, id: nat): FullRecord {
    if !(Speaks(s, j) && IsRecord(s, id)) then NO_DETAILS
    else if s.profile == ASN then NO_DETAILS.(asn := DecodeAsn(s, id))
    else NO_DETAILS.(rec := LocalRecord(s, j, id), x := LocalExtra(s, j, id))
  }
}
