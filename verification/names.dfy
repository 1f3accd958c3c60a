/** The names of an extra language, written in the order of docs/FORMAT.md, and the
    fields lookups read them into. */
module Names {
  import opened Words
  import opened XLayouts
  import opened Databases
  import opened Details
  import opened Packing
  import opened Entries

  datatype PackedNames = PackedNames(
    country: u24, region: u24, city: u24, continent: u24, region2: u24, registered: u24, represented: u24)

  /** The names an extra language stores: each with its profile or field set. */
  function NameList(profile: nat, fields: nat, t: PackedNames): seq<u24> {
    [t.country]
    + (if profile >= 1 then [t.region] else [])
    + (if profile >= 2 then [t.city] else [])
    + (if fields / 2 % 2 == 1 then [t.continent] else [])
    + (if fields / 8 % 2 == 1 then [t.region2] else [])
    + (if fields / 4 % 2 == 1 then [t.registered, t.represented] else [])
  }

  /** Their kinds, in the same order. */
  function KindList(profile: nat, fields: nat): seq<nat> {
    [NAME_COUNTRY]
    + (if profile >= 1 then [NAME_REGION] else [])
    + (if profile >= 2 then [NAME_CITY] else [])
    + (if fields / 2 % 2 == 1 then [NAME_CONTINENT] else [])
    + (if fields / 8 % 2 == 1 then [NAME_REGION2] else [])
    + (if fields / 4 % 2 == 1 then [NAME_REGISTERED, NAME_REPRESENTED] else [])
  }

  function NameOf(t: PackedNames, k: nat): u24 {
    if k == NAME_COUNTRY then t.country
    else if k == NAME_REGION then t.region
    else if k == NAME_CITY then t.city
    else if k == NAME_CONTINENT then t.continent
    else if k == NAME_REGION2 then t.region2
    else if k == NAME_REGISTERED then t.registered
    else t.represented
  }

  lemma ListsMatch(profile: nat, fields: nat, t: PackedNames)
    ensures |NameList(profile, fields, t)| == |KindList(profile, fields)|
    ensures forall i :: 0 <= i < |KindList(profile, fields)| ==>
                          NameList(profile, fields, t)[i] == NameOf(t, KindList(profile, fields)[i])
  {
  }

  /** A layout stores the country's name, the region's from the region profile on,
      the city's for the city profile, and the others with their field set. */
  lemma KindsNamed(profile: nat, fields: nat)
    requires profile <= 2
    ensures KindsBelow(profile, fields, NUM_KINDS) == KindList(profile, fields)
  {
    FieldBits(fields);
    hide HasField;
    KindsStep(profile, fields, 0);
    KindsStep(profile, fields, 1);
    KindsStep(profile, fields, 2);
    KindsStep(profile, fields, 3);
    KindsStep(profile, fields, 4);
    KindsStep(profile, fields, 5);
    KindsStep(profile, fields, 6);
    hide KindsBelow;
    var region := [NAME_COUNTRY] + if profile >= 1 then [NAME_REGION] else [];
    assert KindsBelow(profile, fields, 2) == region;
    var city := region + if profile >= 2 then [NAME_CITY] else [];
    assert KindsBelow(profile, fields, 3) == city;
    var continent := city + if fields / 2 % 2 == 1 then [NAME_CONTINENT] else [];
    assert KindsBelow(profile, fields, 4) == continent;
    var region2 := continent + if fields / 8 % 2 == 1 then [NAME_REGION2] else [];
    assert KindsBelow(profile, fields, 5) == region2;
    assert region2 + [NAME_REGISTERED] + [NAME_REPRESENTED] == region2 + [NAME_REGISTERED, NAME_REPRESENTED];
  }

  lemma KindsStep(profile: nat, fields: nat, k: nat)
    ensures KindsBelow(profile, fields, 0) == []
    ensures KindsBelow(profile, fields, k + 1) ==
      KindsBelow(profile, fields, k) + if Stores(profile, fields, k) then [k] else []
  {
  }

  /** Which kinds are listed. */
  lemma KindsListed(profile: nat, fields: nat)
    ensures var l := KindList(profile, fields);
      && NAME_COUNTRY in l && (NAME_REGION in l <==> profile >= 1) && (NAME_CITY in l <==> profile >= 2)
      && (NAME_CONTINENT in l <==> fields / 2 % 2 == 1) && (NAME_REGION2 in l <==> fields / 8 % 2 == 1)
      && (NAME_REGISTERED in l <==> fields / 4 % 2 == 1) && (NAME_REPRESENTED in l <==> fields / 4 % 2 == 1)
  {
  }

  function PackTriples(ws: seq<u24>): (b: bytes)
    ensures |b| == 3 * |ws|
  {
    if ws == [] then [] else PackTriples(ws[..|ws| - 1]) + Put24(ws[|ws| - 1])
  }

  lemma {:induction false} TripleAt(ws: seq<u24>, k: nat)
    requires k < |ws|
    ensures LE24(PackTriples(ws), 3 * k) == ws[k]
  {
    hide LE24, Put24;
    var n := |ws| - 1;
    Load24(PackTriples(ws[..n]), Put24(ws[n]));
    if k < n {
      TripleAt(ws[..n], k);
      LoadsSplit(PackTriples(ws[..n]), Put24(ws[n]), 3 * k);
    }
  }

  /** Where the names of extra language j start, after those of the ones before. */
  function NamesOff(l: XLayout, j: nat, w: nat): nat
    requires j >= 1
  {
    MulMonotone(j - 1, 0, w);
    l.langOff + (j - 1) * w
  }

  /** The names of language j of a record. */
  ghost predicate HoldsNames(s: Database, j: nat, id: nat, t: PackedNames) {
    && Speaks(s, j) && j > 0 && HasEntries(s) && IsRecord(s, id)
    && var b := PackTriples(NameList(s.profile, s.fields, t));
    var o := NamesOff(s.xl, j, |b|);
    o + |b| <= s.xl.width && Entry(s, id)[o..o + |b|] == b
  }

  /** A name of a kind the layout stores, with the primary one where it has none. */
  function Named(s: Database, id: u24, primary: bytes): bytes {
    if id == 0 then primary else StrAt(s.strings, id)
  }

  /** The i-th kind's slot in language j's names. */
  lemma OffsetAt(s: Database, j: nat, i: nat)
    requires s.ValidRecords() && 1 <= j < |s.langs| && i < |KindList(s.profile, s.fields)|
    ensures var kinds := KindList(s.profile, s.fields);
      NameOffset(s.xl, j, kinds[i]) == NamesOff(s.xl, j, 3 * |kinds|) + 3 * i
  {
    LangsLayout(s);
    hide KindList, Database.ValidRecords;
    NameOffsetUnique(s.xl, s.profile, s.fields, |s.langs|, j, i);
    SlotIn(s.xl, j, i, 3 * |s.xl.kinds|);
  }

  lemma SlotIn(l: XLayout, j: nat, i: nat, w: nat)
    requires j >= 1 && w == 3 * |l.kinds|
    ensures l.SlotOff(j, i) == NamesOff(l, j, w) + 3 * i
  {
    MulRegroup(j - 1, 3, |l.kinds|, 0);
  }

  lemma NameAt(s: Database, j: nat, id: nat, t: PackedNames, i: nat, primary: bytes)
    requires HoldsNames(s, j, id, t) && i < |KindList(s.profile, s.fields)|
    ensures var k := KindList(s.profile, s.fields)[i];
      NameIn(s, j, id, k, primary) == Named(s, NameOf(t, k), primary)
  {
    hide HoldsNames, NameList, KindList, NameOf, NameOffset, LE24, Put24, Entry, NamesOff, NameIn, Named, PackTriples,
      HasEntries, IsRecord, Speaks, Database.ValidRecords;
    ListsMatch(s.profile, s.fields, t);
    NamesPlaced(s, j, id, t);
    OffsetAt(s, j, i);
    NameLoaded(s, j, id, t, i);
    NameValue(s, j, id, KindList(s.profile, s.fields)[i], NameList(s.profile, s.fields, t)[i], primary);
  }

  lemma NameLoaded(s: Database, j: nat, id: nat, t: PackedNames, i: nat)
    requires HoldsNames(s, j, id, t) && i < |NameList(s.profile, s.fields, t)|
    ensures HasEntries(s) && IsRecord(s, id) && j > 0
    ensures var names := NameList(s.profile, s.fields, t);
      var o := NamesOff(s.xl, j, 3 * |names|) + 3 * i;
      o + 3 <= |Entry(s, id)| && LE24(Entry(s, id), o) == names[i]
  {
    hide HoldsNames, NameList, LE24, Entry, NamesOff, PackTriples, HasEntries, IsRecord, Speaks, Database.ValidRecords;
    NamesPlaced(s, j, id, t);
    var names := NameList(s.profile, s.fields, t);
    TripleAt(names, i);
    SameLoads(Entry(s, id), NamesOff(s.xl, j, 3 * |names|), PackTriples(names), 3 * i);
  }

  lemma NamesPlaced(s: Database, j: nat, id: nat, t: PackedNames)
    requires HoldsNames(s, j, id, t)
    ensures Speaks(s, j) && j > 0 && HasEntries(s) && IsRecord(s, id) && s.ValidRecords() && j < |s.langs|
    ensures var p := PackTriples(NameList(s.profile, s.fields, t));
      var o := NamesOff(s.xl, j, |p|);
      o + |p| <= |Entry(s, id)| && Entry(s, id)[o..o + |p|] == p
  {
    hide NameList, PackTriples, NamesOff, Entry, Database.ValidRecords;
  }

  lemma NameValue(s: Database, j: nat, id: nat, k: nat, n: u24, primary: bytes)
    requires Speaks(s, j) && j > 0 && HasEntries(s) && IsRecord(s, id)
    requires NameOffset(s.xl, j, k) >= 0 && NameOffset(s.xl, j, k) + 3 <= |Entry(s, id)|
    requires LE24(Entry(s, id), NameOffset(s.xl, j, k)) == n
    ensures NameIn(s, j, id, k, primary) == Named(s, n, primary)
  {
    hide NameOffset, LE24, Entry, HasEntries, IsRecord, Speaks;
    NameRead(s, j, id, k);
  }

  lemma LangsLayout(s: Database)
    requires s.ValidRecords() && |s.langs| > 1
    ensures s.profile <= 2 && IsLayout(s.xl, s.profile, s.fields, |s.langs|)
    ensures s.xl.kinds == KindList(s.profile, s.fields)
  {
    KindsNamed(s.profile, s.fields);
  }

  /** A kind the layout does not store keeps the primary name. */
  lemma NameAbsent(s: Database, j: nat, id: nat, t: PackedNames, k: nat, primary: bytes)
    requires HoldsNames(s, j, id, t) && k !in KindList(s.profile, s.fields)
    ensures NameIn(s, j, id, k, primary) == primary
  {
    LangsLayout(s);
  }

  /** The name a lookup gives for one kind. */
  lemma NameIs(s: Database, j: nat, id: nat, t: PackedNames, k: nat, primary: bytes)
    requires HoldsNames(s, j, id, t)
    ensures NameIn(s, j, id, k, primary) ==
      if k in KindList(s.profile, s.fields) then Named(s, NameOf(t, k), primary) else primary
  {
    var kinds := KindList(s.profile, s.fields);
    if k in kinds {
      var i: nat :| i < |kinds| && kinds[i] == k;
      NameAt(s, j, id, t, i, primary);
    } else {
      NameAbsent(s, j, id, t, k, primary);
    }
  }

  /** A record with its names in an extra language. */
  function NamedRecord(s: Database, t: PackedNames, p: Record): Record {
    p.(countryName := Named(s, t.country, p.countryName),
       regionName := if s.profile >= 1 then Named(s, t.region, p.regionName) else p.regionName,
       city := if s.profile >= 2 then Named(s, t.city, p.city) else p.city)
  }

  function NamedExtra(s: Database, t: PackedNames, d: Extra): Extra {
    var countries := s.fields / 4 % 2 == 1;
    d.(continentName := if s.fields / 2 % 2 == 1 then Named(s, t.continent, d.continentName) else d.continentName,
       region2Name := if s.fields / 8 % 2 == 1 then Named(s, t.region2, d.region2Name) else d.region2Name,
       registered := if countries then d.registered.(name := Named(s, t.registered, d.registered.name))
                     else d.registered,
       represented := if countries then d.represented.(name := Named(s, t.represented, d.represented.name))
                      else d.represented)
  }

  /** Each stored name is read into its own field, in its language; a name the
      entry does not have, and every other field, is the primary one. */
  lemma NamesRead(s: Database, j: nat, id: nat, t: PackedNames)
    requires HoldsNames(s, j, id, t) && s.profile != ASN
    ensures LocalRecord(s, j, id) == NamedRecord(s, t, Decode(s, id))
    ensures LocalExtra(s, j, id) == NamedExtra(s, t, DecodeExtra(s, id))
  {
    NamedFields(s, j, id, t, Decode(s, id), DecodeExtra(s, id));
    hide NameIn, HoldsNames, Decode, DecodeExtra, NamedRecord, NamedExtra;
  }

  lemma NamedFields(s: Database, j: nat, id: nat, t: PackedNames, p: Record, d: Extra)
    requires HoldsNames(s, j, id, t)
    ensures p.(countryName := NameIn(s, j, id, NAME_COUNTRY, p.countryName),
               regionName := NameIn(s, j, id, NAME_REGION, p.regionName),
               city := NameIn(s, j, id, NAME_CITY, p.city)) == NamedRecord(s, t, p)
    ensures d.(continentName := NameIn(s, j, id, NAME_CONTINENT, d.continentName),
               region2Name := NameIn(s, j, id, NAME_REGION2, d.region2Name),
               registered := d.registered.(name := NameIn(s, j, id, NAME_REGISTERED, d.registered.name)),
               represented := d.represented.(name := NameIn(s, j, id, NAME_REPRESENTED, d.represented.name)))
         == NamedExtra(s, t, d)
  {
    KindsListed(s.profile, s.fields);
    hide NameIn, HoldsNames, Named, KindList;
    NameIs(s, j, id, t, NAME_COUNTRY, p.countryName);
    NameIs(s, j, id, t, NAME_REGION, p.regionName);
    NameIs(s, j, id, t, NAME_CITY, p.city);
    NameIs(s, j, id, t, NAME_CONTINENT, d.continentName);
    NameIs(s, j, id, t, NAME_REGION2, d.region2Name);
    NameIs(s, j, id, t, NAME_REGISTERED, d.registered.name);
    NameIs(s, j, id, t, NAME_REPRESENTED, d.represented.name);
  }
}
