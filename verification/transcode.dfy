/** transcode (geo1.go): converts a parsed GEO1 input into the GEO2 tables, and
    keeps the answer of every lookup. */
module Transcode {
  import opened Words
  import opened Geo1Format
  import opened Geo1Parse
  import opened Geo2Records
  import opened Databases
  import opened Details
  import opened Packing
  import opened Renumber

  // ---- what GEO1 means -----------------------------------------------------------------

  /** String id o of a GEO1 record: 0, or past the table, is the empty string. */
  function FlatStr(d: Geo1, o: nat): bytes {
    if o == 0 || o >= |d.strings| then [] else d.strings[o]
  }

  /** Record i as v0.1.x decoded it, with the accuracy cut to 16 bits. */
  function FlatRecord(d: Geo1, i: nat): Record
    requires d.profile <= 2 && Rows(d.recs, d.rc, d.profile) && i < d.rc
  {
    var f := k requires HasF(d.profile, k) => Field(d.recs, d.rc, d.profile, i, k);
    var rec := NO_RECORD.(
      countryISO := FlatStr(d, f(F_COUNTRY_ISO)), countryName := FlatStr(d, f(F_COUNTRY_NAME)),
      continent := FlatStr(d, f(F_CONTINENT)), countryGeo := f(F_COUNTRY_GEO));
    if d.profile < 1 then rec else
    var reg := rec.(regionISO := FlatStr(d, f(F_REGION_ISO)), regionName := FlatStr(d, f(F_REGION_NAME)));
    if d.profile < 2 then reg else
    reg.(city := FlatStr(d, f(F_CITY_NAME)), cityGeo := f(F_CITY_GEO), lat := f(F_LAT), lon := f(F_LON),
         accuracy := f(F_ACCURACY) % 0x1_0000, timeZone := FlatStr(d, f(F_TIME_ZONE)))
  }

  /** The fields of a GEO1 record, in the order docs/FORMAT.md lists them. */
  datatype FlatRow = FlatRow(
    countryISO: u32, countryName: u32, continent: u32, countryGeo: u32, regionISO: u32, regionName: u32,
    city: u32, cityGeo: u32, lat: u32, lon: u32, accuracy: u32, timeZone: u32)

  function FlatWords(profile: nat, v: FlatRow): (ws: seq<u32>)
    ensures 4 * |ws| == RecWidth(profile)
  {
    [v.countryISO, v.countryName, v.continent, v.countryGeo]
    + (if profile >= 1 then [v.regionISO, v.regionName] else [])
    + (if profile >= 2 then [v.city, v.cityGeo, v.lat, v.lon, v.accuracy, v.timeZone] else [])
  }

  /** Every field of a GEO1 record reads as its own word: string ids as strings, 0
      and ids past the table as "", and the accuracy cut to 16 bits. */
  lemma FlatRecordRead(d: Geo1, i: nat, v: FlatRow)
    requires d.profile <= 2 && Rows(d.recs, d.rc, d.profile) && i < d.rc
    requires Row(d.recs, RecWidth(d.profile), i, d.rc) == PackWords(FlatWords(d.profile, v))
    ensures var r := FlatRecord(d, i);
      var str := (o: u32) => if 0 < o < |d.strings| then d.strings[o] else [];
      && r.countryISO == str(v.countryISO) && r.countryName == str(v.countryName)
      && r.continent == str(v.continent) && r.countryGeo == v.countryGeo
      && (if d.profile == 0 then r.regionISO == [] && r.regionName == []
          else r.regionISO == str(v.regionISO) && r.regionName == str(v.regionName))
      && (if d.profile <= 1 then
            && r.city == [] && r.cityGeo == 0 && r.lat == 0 && r.lon == 0 && r.accuracy == 0 && r.timeZone == []
          else
            && r.city == str(v.city) && r.cityGeo == v.cityGeo && r.lat == v.lat && r.lon == v.lon
            && r.accuracy == v.accuracy % 0x1_0000 && r.timeZone == str(v.timeZone))
  {
    hide PackWords, Rows, Field;
    var ws := FlatWords(d.profile, v);
    forall f: nat | HasF(d.profile, f)
      ensures f < |ws| && Field(d.recs, d.rc, d.profile, i, f) == ws[f]
    {
      FieldRead(d, i, ws, f);
    }
  }

  lemma FieldRead(d: Geo1, i: nat, ws: seq<u32>, f: nat)
    requires Rows(d.recs, d.rc, d.profile) && i < d.rc && HasF(d.profile, f)
    requires 4 * |ws| == RecWidth(d.profile) && Row(d.recs, RecWidth(d.profile), i, d.rc) == PackWords(ws)
    ensures f < |ws| && Field(d.recs, d.rc, d.profile, i, f) == ws[f]
  {
    hide PackWords, LE32, RecWidth;
    var w := RecWidth(d.profile);
    RowInside(w, i, d.rc);
    WordAt(ws, f);
    LoadsInside(d.recs, i * w, w, f * 4);
  }

  // ---- records ---------------------------------------------------------------------------

  function MapStr(newID: seq<nat>, o: nat): nat {
    if o >= |newID| then 0 else newID[o]
  }

  /** The packed values of record i; the stores cut each to its field. */
  function PackedOf(recs: bytes, rc: nat, profile: nat, newID: seq<nat>, i: nat): Packed
    requires profile <= 2 && Rows(recs, rc, profile) && i < rc
  {
    var f := k => if HasF(profile, k) then Field(recs, rc, profile, i, k) else 0;
    var m := k => MapStr(newID, f(k));
    Packed(m(F_COUNTRY_ISO) % TWO16, m(F_COUNTRY_NAME) % TWO16, m(F_CONTINENT) % TWO16, f(F_COUNTRY_GEO),
           m(F_REGION_ISO) % TWO16, m(F_REGION_NAME) % TWO16,
           m(F_CITY_NAME) % 0x100_0000, f(F_CITY_GEO), f(F_LAT), f(F_LON),
           f(F_ACCURACY) % TWO16, m(F_TIME_ZONE) % TWO16)
  }

  /** The string table holds each numbered string under its number. */
  ghost predicate HoldsStrings(strs: seq<bytes>, newID: seq<nat>, next: nat, strings: seq<bytes>) {
    && |strs| == next && next >= 1 && strs[0] == [] && |strings| == |newID|
    && forall o :: 0 <= o < |newID| && newID[o] != 0 ==> newID[o] < next && strs[newID[o]] == strings[o]
  }

  /** A renumbered string id reads as the GEO1 one did. */
  lemma MapStrReads(d: Geo1, newID: seq<nat>, next: nat, strs: seq<bytes>, fs: seq<nat>, k: nat, i: nat)
    requires d.profile <= 2 && Rows(d.recs, d.rc, d.profile) && 1 <= i < d.rc
    requires Renumbering(d.recs, d.rc, d.profile, newID, next) && HoldsStrings(strs, newID, next, d.strings)
    requires (fs == U16Fields(d.profile) || fs == StringFields(d.profile)) && k < |fs|
    ensures var o := Field(d.recs, d.rc, d.profile, i, fs[k]);
      var v := MapStr(newID, o);
      v < next && strs[v] == FlatStr(d, o) && (fs == U16Fields(d.profile) ==> v < TWO16)
  {
    hide Field, Rows, HasF;
    var o := Field(d.recs, d.rc, d.profile, i, fs[k]);
    if 0 < o < |newID| {
      var ns := |newID|;
      assert Names(d.recs, d.rc, d.profile, ns, fs[k], i, o);
      assert UsedIn(d.recs, d.rc, d.profile, ns, fs[k], o);
      assert UsedInSome(d.recs, d.rc, d.profile, ns, fs, o);
      assert o in Used(d.recs, d.rc, d.profile, ns, fs);
      if fs == U16Fields(d.profile) {
        MoreFields(d.recs, d.rc, d.profile, ns, k, o);
      }
    }
  }

  lemma MoreFields(recs: bytes, rc: nat, profile: nat, ns: nat, k: nat, o: nat)
    requires profile <= 2 && Rows(recs, rc, profile) && k < |U16Fields(profile)| && 0 < o < ns
    requires UsedIn(recs, rc, profile, ns, U16Fields(profile)[k], o)
    ensures o in Used(recs, rc, profile, ns, StringFields(profile))
  {
    assert StringFields(profile)[k] == U16Fields(profile)[k];
    assert UsedInSome(recs, rc, profile, ns, StringFields(profile), o);
  }

  /** Row i of the packed records. */
  ghost predicate PackedRows(recs2: bytes, recs: bytes, rc: nat, profile: nat, newID: seq<nat>, n: nat)
    requires profile <= 2 && Rows(recs, rc, profile)
  {
    && n <= rc && |recs2| == n * RecordWidth(profile)
    && (n > 0 ==> AllZero(Row(recs2, RecordWidth(profile), 0, n)))
    && forall i :: 1 <= i < n ==>
                     Row(recs2, RecordWidth(profile), i, n) == PackRow(profile, PackedOf(recs, rc, profile, newID, i))
  }

  lemma AppendRow(b: bytes, w: nat, n: nat, row: bytes)
    requires |b| == n * w && |row| == w
    ensures |b + row| == (n + 1) * w && Row(b + row, w, n, n + 1) == row
    ensures forall i :: 0 <= i < n ==> Row(b + row, w, i, n + 1) == Row(b, w, i, n)
  {
    assert (n + 1) * w == n * w + w;
    forall i | 0 <= i < n
      ensures Row(b + row, w, i, n + 1) == Row(b, w, i, n)
    {
      RowInside(w, i, n);
      RowInside(w, i, n + 1);
    }
    RowInside(w, n, n + 1);
  }

  method PackRecords(recs: bytes, rc: nat, profile: nat, newID: seq<nat>) returns (recs2: bytes)
    requires profile <= 2 && Rows(recs, rc, profile) && rc >= 1
    ensures PackedRows(recs2, recs, rc, profile, newID, rc)
  {
    hide Rows, PackRow, PackedOf, Row, RecordWidth, AllZero;
    var w := RecordWidth(profile);
    recs2 := seq(w, _ => 0);
    assert |recs2| == 1 * w;
    ZeroRow(recs2, w);
    for i := 1 to rc
      invariant PackedRows(recs2, recs, rc, profile, newID, i)
    {
      var row := PackRow(profile, PackedOf(recs, rc, profile, newID, i));
      AppendRow(recs2, w, i, row);
      recs2 := recs2 + row;
    }
  }

  lemma ZeroRow(b: bytes, w: nat)
    requires |b| == 1 * w && forall k :: 0 <= k < w ==> b[k] == 0
    ensures AllZero(Row(b, w, 0, 1))
  {
  }

  /** A packed string id is in range and reads as s. */
  ghost predicate Reads(strs: seq<bytes>, id: nat, s: bytes) {
    id < |strs| && strs[id] == s
  }

  ghost predicate CountryReads(strs: seq<bytes>, p: Packed, r: Record) {
    && Reads(strs, p.iso, r.countryISO) && Reads(strs, p.name, r.countryName)
    && Reads(strs, p.continent, r.continent) && p.geo == r.countryGeo
  }

  ghost predicate RegionReads(strs: seq<bytes>, p: Packed, r: Record) {
    Reads(strs, p.regionISO, r.regionISO) && Reads(strs, p.regionName, r.regionName)
  }

  ghost predicate CityReads(strs: seq<bytes>, p: Packed, r: Record) {
    && Reads(strs, p.city, r.city) && Reads(strs, p.timeZone, r.timeZone)
    && p.cityGeo == r.cityGeo && p.lat == r.lat && p.lon == r.lon && p.accuracy == r.accuracy
  }

  ghost predicate Renumbered(d: Geo1, newID: seq<nat>, next: nat, strs: seq<bytes>) {
    && d.profile <= 2 && Rows(d.recs, d.rc, d.profile)
    && Renumbering(d.recs, d.rc, d.profile, newID, next) && HoldsStrings(strs, newID, next, d.strings)
  }

  lemma HeldCount(strs: seq<bytes>, newID: seq<nat>, next: nat, strings: seq<bytes>)
    requires HoldsStrings(strs, newID, next, strings)
    ensures |strs| == next
  {
  }

  lemma CountryDecodes(d: Geo1, newID: seq<nat>, next: nat, strs: seq<bytes>, i: nat)
    requires Renumbered(d, newID, next, strs) && 1 <= i < d.rc
    ensures CountryReads(strs, PackedOf(d.recs, d.rc, d.profile, newID, i), FlatRecord(d, i))
  {
    hide Field, Renumbering, Rows, HoldsStrings;
    HeldCount(strs, newID, next, d.strings);
    var u := U16Fields(d.profile);
    assert u[0] == F_COUNTRY_ISO && u[1] == F_COUNTRY_NAME && u[2] == F_CONTINENT;
    MapStrReads(d, newID, next, strs, u, 0, i);
    MapStrReads(d, newID, next, strs, u, 1, i);
    MapStrReads(d, newID, next, strs, u, 2, i);
  }

  lemma RegionDecodes(d: Geo1, newID: seq<nat>, next: nat, strs: seq<bytes>, i: nat)
    requires Renumbered(d, newID, next, strs) && 1 <= i < d.rc && d.profile >= 1
    ensures RegionReads(strs, PackedOf(d.recs, d.rc, d.profile, newID, i), FlatRecord(d, i))
  {
    hide Field, Renumbering, Rows, HoldsStrings;
    HeldCount(strs, newID, next, d.strings);
    var u := U16Fields(d.profile);
    assert u[3] == F_REGION_ISO && u[4] == F_REGION_NAME;
    MapStrReads(d, newID, next, strs, u, 3, i);
    MapStrReads(d, newID, next, strs, u, 4, i);
  }

  lemma CityDecodes(d: Geo1, newID: seq<nat>, next: nat, strs: seq<bytes>, i: nat)
    requires Renumbered(d, newID, next, strs) && 1 <= i < d.rc && d.profile >= 2
    ensures CityReads(strs, PackedOf(d.recs, d.rc, d.profile, newID, i), FlatRecord(d, i))
  {
    hide Field, Renumbering, Rows, HoldsStrings;
    NextFits(d, newID, next);
    HeldCount(strs, newID, next, d.strings);
    var u, a := U16Fields(d.profile), StringFields(d.profile);
    assert u[5] == F_TIME_ZONE && a[6] == F_CITY_NAME;
    MapStrReads(d, newID, next, strs, u, 5, i);
    MapStrReads(d, newID, next, strs, a, 6, i);
  }

  lemma NextFits(d: Geo1, newID: seq<nat>, next: nat)
    requires d.profile <= 2 && Rows(d.recs, d.rc, d.profile) && Renumbering(d.recs, d.rc, d.profile, newID, next)
    ensures next <= 0x100_0000
  {
  }

  /** The database's records are the packed ones. */
  ghost predicate HoldsRecords(db: Database, d: Geo1, newID: seq<nat>, next: nat) {
    && Renumbered(d, newID, next, db.strings)
    && db.profile == d.profile && db.nRecords == d.rc && d.rc >= 1
    && PackedRows(db.records, d.recs, d.rc, d.profile, newID, d.rc)
  }

  /** Every packed row has its string ids in range. */
  lemma PackedStrings(d: Geo1, newID: seq<nat>, next: nat, strs: seq<bytes>, i: nat)
    requires Renumbered(d, newID, next, strs) && 1 <= i < d.rc
    ensures RecordStrings(PackRow(d.profile, PackedOf(d.recs, d.rc, d.profile, newID, i)), d.profile, |strs|)
  {
    hide LE16, LE24, LE32, PackRow, PackedOf, FlatRecord, Renumbering, HoldsStrings, Rows;
    var p := PackedOf(d.recs, d.rc, d.profile, newID, i);
    RowLoads(d.profile, p);
    CountryDecodes(d, newID, next, strs, i);
    if d.profile >= 1 {
      RegionDecodes(d, newID, next, strs, i);
    }
    if d.profile >= 2 {
      CityDecodes(d, newID, next, strs, i);
    }
  }

  lemma PackedAreValid(db: Database, d: Geo1, newID: seq<nat>, next: nat)
    requires HoldsRecords(db, d, newID, next)
    ensures RecordsOk(db.profile, db.records, db.nRecords, |db.strings|)
  {
    hide PackRow, PackedOf, Renumbering, Row, RecordWidth, AllZero, RecordStrings;
    forall i | 1 <= i < d.rc
      ensures RecordStrings(Row(db.records, RecordWidth(db.profile), i, db.nRecords), db.profile, |db.strings|)
    {
      PackedStrings(d, newID, next, db.strings, i);
    }
  }

  /** Decoding record i of the converted database gives what GEO1 gave. */
  lemma RecordsKept(db: Database, d: Geo1, newID: seq<nat>, next: nat, i: nat)
    requires HoldsRecords(db, d, newID, next) && IsRecord(db, i)
    ensures Decode(db, i) == FlatRecord(d, i)
  {
    hide LE16, LE24, LE32, PackRow, PackedOf, Renumbering, HoldsStrings, Rows, Row, RecordsOk, Field;
    var p := PackedOf(d.recs, d.rc, d.profile, newID, i);
    RowLoads(d.profile, p);
    CountryDecodes(d, newID, next, db.strings, i);
    if d.profile >= 1 {
      RegionDecodes(d, newID, next, db.strings, i);
    }
    if d.profile >= 2 {
      CityDecodes(d, newID, next, db.strings, i);
    }
    assert RowOf(db, i) == PackRow(d.profile, p);
  }

  // ---- strings -----------------------------------------------------------------------------

  /** order, and the strings in their new order. */
  method BuildStrings(p: Parsed, newID: seq<nat>, next: nat, ghost used: set<nat>) returns (strs: seq<bytes>)
    requires p.Located() && |newID| == |p.strOff| && Numbered(newID, next, used)
    ensures HoldsStrings(strs, newID, next, p.Strings())
  {
    var order := new nat[next](_ => 0);
    for o := 0 to |newID|
      invariant forall x :: 0 <= x < o && newID[x] != 0 ==> order[newID[x]] == x
      invariant forall id :: 0 <= id < next ==> order[id] == 0 || order[id] < |newID|
    {
      if newID[o] != 0 {
        order[newID[o]] := o;
      }
    }
    strs := [[]];
    for id := 1 to next
      invariant |strs| == id && strs[0] == []
      invariant forall x :: 0 <= x < |newID| && newID[x] != 0 ==> order[newID[x]] == x
      invariant forall x :: 0 <= x < next ==> order[x] == 0 || order[x] < |newID|
      invariant forall x :: 1 <= x < id ==> order[x] < |newID| && strs[x] == p.Str(order[x])
    {
      SomeString(newID, next, used);
      strs := strs + [p.Str(order[id])];
    }
    forall o | 0 <= o < |newID| && newID[o] != 0
      ensures newID[o] < next && strs[newID[o]] == p.Strings()[o]
    {
      assert order[newID[o]] == o;
    }
  }

  lemma SomeString(newID: seq<nat>, next: nat, used: set<nat>)
    requires Numbered(newID, next, used) && next > 1
    ensures |newID| > 0
  {
    assert used != {};
    var o :| o in used;
  }
}
