/** XRECORDS entries, written block by block in the order of docs/FORMAT.md, and
    what lookups read back from them. */
module Entries {
  import opened Words
  import opened Bitmaps
  import opened XLayouts
  import opened Geo2Records
  import opened Databases
  import opened Details
  import opened Packing

  // ---- blocks ------------------------------------------------------------------

  datatype PackedCountry = PackedCountry(iso: u24, name: u24, geo: u32)

  /** The values of every field set. */
  datatype PackedEntry = PackedEntry(
    inEU: bool, continentName: u24, continentGeo: u32,
    registered: PackedCountry, represented: PackedCountry, representedType: u24,
    registeredEU: bool, representedEU: bool,
    regionGeo: u32, region2ISO: u24, region2Name: u24, region2Geo: u32,
    postal: u24, metro: u16, anycast: bool, anonymousProxy: bool, satellite: bool,
    hasCoordinates: bool, hasAccuracy: bool)

  function Flag(b: bool): (r: u8)
    ensures r <= 1
  {
    if b then 1 else 0
  }

  function PackCountryOf(c: PackedCountry): (b: bytes)
    ensures |b| == 10
  {
    Put24(c.iso) + Put24(c.name) + Put32(c.geo)
  }

  /** The block of the field set of bit b. */
  function BlockOf(p: PackedEntry, b: nat): (r: bytes)
    requires b < 8
  {
    match b
    case 0 => [Flag(p.inEU)]
    case 1 => Put24(p.continentName) + Put32(p.continentGeo)
    case 2 => PackCountryOf(p.registered) + PackCountryOf(p.represented) + Put24(p.representedType)
              + [Flag(p.registeredEU) + 2 * Flag(p.representedEU)]
    case 3 => Put32(p.regionGeo) + Put24(p.region2ISO) + Put24(p.region2Name) + Put32(p.region2Geo)
    case 4 => Put24(p.postal)
    case 5 => Put16(p.metro)
    case 6 => [Flag(p.anycast) + 2 * Flag(p.anonymousProxy) + 4 * Flag(p.satellite)]
    case _ => [Flag(p.hasCoordinates) + 2 * Flag(p.hasAccuracy)]
  }

  /** The blocks of the field sets below bit b, in bit order. */
  function PackBlocks(p: PackedEntry, fields: nat, b: nat): (r: bytes)
    requires b <= 8
  {
    if b == 0 then []
    else PackBlocks(p, fields, b - 1) + if HasField(fields, b - 1) then BlockOf(p, b - 1) else []
  }

  lemma BlockWidth(p: PackedEntry, b: nat)
    requires b < NUM_FIELDS
    ensures |BlockOf(p, b)| == FIELD_WIDTH[b]
  {
    hide Put16, Put24, Put32;
  }

  lemma {:induction false} BlocksSize(p: PackedEntry, fields: nat, n: nat)
    requires n <= NUM_FIELDS
    ensures |PackBlocks(p, fields, n)| == BlocksBelow(fields, n)
  {
    if n > 0 {
      BlocksSize(p, fields, n - 1);
      BlockWidth(p, n - 1);
      StepBelow(fields, n - 1);
    }
  }

  /** Each block starts where the layout puts it. */
  lemma {:induction false} BlockPlaced(p: PackedEntry, fields: nat, n: nat, b: nat)
    requires b < n <= NUM_FIELDS && HasField(fields, b)
    ensures var o, w := BlocksBelow(fields, b), FIELD_WIDTH[b];
      o + w <= |PackBlocks(p, fields, n)| && PackBlocks(p, fields, n)[o..o + w] == BlockOf(p, b)
  {
    hide HasField, BlockOf, PackBlocks, BlocksBelow;
    BlockWidth(p, b);
    BlocksSize(p, fields, n - 1);
    PackStep(p, fields, n - 1);
    var tail := if HasField(fields, n - 1) then BlockOf(p, n - 1) else [];
    PlaceStep(PackBlocks(p, fields, n - 1), tail, BlocksBelow(fields, b), FIELD_WIDTH[b]);
    if b < n - 1 {
      BlockPlaced(p, fields, n - 1, b);
    }
  }

  lemma PackStep(p: PackedEntry, fields: nat, b: nat)
    requires b < NUM_FIELDS
    ensures PackBlocks(p, fields, b + 1) == PackBlocks(p, fields, b) + if HasField(fields, b) then BlockOf(p, b) else []
  {
    hide HasField, BlockOf;
  }

  lemma StepBelow(fields: nat, b: nat)
    requires b < NUM_FIELDS
    ensures BlocksBelow(fields, b + 1) == BlocksBelow(fields, b) + if HasField(fields, b) then FIELD_WIDTH[b] else 0
  {
  }

  lemma PlaceStep(a: bytes, b: bytes, o: nat, w: nat)
    ensures o + w <= |a| ==> (a + b)[o..o + w] == a[o..o + w]
    ensures o == |a| && w == |b| ==> (a + b)[o..o + w] == b
  {
  }

  // ---- what each block loads as -----------------------------------------------------

  lemma ContinentLoads(p: PackedEntry)
    ensures var b := BlockOf(p, 1); |b| == 7 && LE24(b, 0) == p.continentName && LE32(b, 3) == p.continentGeo
  {
    hide LE16, LE24, LE32, Put24, Put32;
    Load24([], Put24(p.continentName));
    assert [] + Put24(p.continentName) == Put24(p.continentName);
    Load32(Put24(p.continentName), Put32(p.continentGeo));
  }

  lemma CountryOfLoads(c: PackedCountry)
    ensures var b := PackCountryOf(c); LE24(b, 0) == c.iso && LE24(b, 3) == c.name && LE32(b, 6) == c.geo
  {
    hide LE16, LE24, LE32, Put24, Put32;
    Load24(Put24(c.iso), Put24(c.name));
    Load32(Put24(c.iso) + Put24(c.name), Put32(c.geo));
  }

  lemma RegisteredLoads(p: PackedEntry)
    ensures var b := BlockOf(p, 2);
      && |b| == 24
      && LE24(b, 0) == p.registered.iso && LE24(b, 3) == p.registered.name && LE32(b, 6) == p.registered.geo
      && LE24(b, 10) == p.represented.iso && LE24(b, 13) == p.represented.name && LE32(b, 16) == p.represented.geo
      && LE24(b, 20) == p.representedType && b[23] == Flag(p.registeredEU) + 2 * Flag(p.representedEU)
  {
    hide LE24, LE32, Put24, PackCountryOf;
    var x, y, z := PackCountryOf(p.registered), PackCountryOf(p.represented), Put24(p.representedType);
    var f := [Flag(p.registeredEU) + 2 * Flag(p.representedEU)];
    CountryOfLoads(p.registered);
    CountryOfLoads(p.represented);
    var b := BlockOf(p, 2);
    assert b == x + (y + (z + f));
    LoadsSplit(x, y + (z + f), 0);
    LoadsSplit(x, y + (z + f), 3);
    LoadsSplit(x, y + (z + f), 6);
    LoadsSplit(x, y + (z + f), 10);
    LoadsSplit(x, y + (z + f), 13);
    LoadsSplit(x, y + (z + f), 16);
    LoadsSplit(y, z + f, 0);
    LoadsSplit(y, z + f, 3);
    LoadsSplit(y, z + f, 6);
    LoadsSplit(z, f, 0);
  }

  lemma SmallLoads(p: PackedEntry)
    ensures |BlockOf(p, 5)| == 2 && LE16(BlockOf(p, 5), 0) == p.metro
    ensures |BlockOf(p, 4)| == 3 && LE24(BlockOf(p, 4), 0) == p.postal
  {
    hide LE16, LE24;
  }

  lemma SubdivisionLoads(p: PackedEntry)
    ensures var b := BlockOf(p, 3);
      && |b| == 14 && LE32(b, 0) == p.regionGeo && LE24(b, 4) == p.region2ISO
      && LE24(b, 7) == p.region2Name && LE32(b, 10) == p.region2Geo
  {
    hide LE24, LE32, Put24, Put32;
    var x, y, z, t := Put32(p.regionGeo), Put24(p.region2ISO), Put24(p.region2Name), Put32(p.region2Geo);
    assert BlockOf(p, 3) == x + (y + (z + t));
    LoadsSplit(x, y + (z + t), 0);
    LoadsSplit(x, y + (z + t), 3);
    LoadsSplit(x, y + (z + t), 6);
    LoadsSplit(y, z + t, 0);
    LoadsSplit(y, z + t, 3);
    LoadsSplit(z, t, 0);
  }

  // ---- reading an entry back ------------------------------------------------------------

  /** The entry of a record starts with these blocks. */
  ghost predicate Holds(s: Database, id: nat, p: PackedEntry, n: nat) {
    && HasEntries(s) && IsRecord(s, id) && n >= 1 && IsLayout(s.xl, s.profile, s.fields, n)
    && s.xl.langOff <= s.xl.width && Entry(s, id)[..s.xl.langOff] == PackBlocks(p, s.fields, NUM_FIELDS)
  }

  lemma BlockAt(s: Database, id: nat, p: PackedEntry, n: nat, b: nat)
    requires Holds(s, id, p, n) && b < NUM_FIELDS && HasField(s.fields, b)
    ensures |s.xl.field| == NUM_FIELDS
    ensures var o, w := s.xl.field[b], FIELD_WIDTH[b];
      0 <= o && o + w <= |Entry(s, id)| && Entry(s, id)[o..o + w] == BlockOf(p, b) && |BlockOf(p, b)| == w
  {
    hide HasField, BlockOf, Database.ValidRecords, PackBlocks, KindsBelow;
    BlocksSize(p, s.fields, NUM_FIELDS);
    BlockPlaced(p, s.fields, NUM_FIELDS, b);
    BlockWidth(p, b);
    var e, o, w := Entry(s, id), s.xl.field[b], FIELD_WIDTH[b];
    assert e[..s.xl.langOff][o..o + w] == e[o..o + w];
  }

  lemma StringRead(s: Database, id: nat, p: PackedEntry, n: nat, b: nat, k: nat)
    requires Holds(s, id, p, n) && b < NUM_FIELDS && HasField(s.fields, b) && k < |BlockStrings(b)|
    requires |BlockOf(p, b)| == FIELD_WIDTH[b]
    ensures BlockString(s, id, b, k) == StrAt(s.strings, LE24(BlockOf(p, b), BlockStrings(b)[k]))
  {
    hide HasField, BlockOf, Database.ValidRecords, LE24, IsLayout, PackBlocks;
    BlockAt(s, id, p, n, b);
    LoadsInside(Entry(s, id), s.xl.field[b], FIELD_WIDTH[b], BlockStrings(b)[k]);
    assert BlockOk(Entry(s, id), s.xl.field[b], b, |s.strings|);
  }

  lemma WordRead(s: Database, id: nat, p: PackedEntry, n: nat, b: nat, o: nat)
    requires Holds(s, id, p, n) && b < NUM_FIELDS && HasField(s.fields, b) && o + 4 <= FIELD_WIDTH[b]
    requires |BlockOf(p, b)| == FIELD_WIDTH[b]
    ensures BlockWord(s, id, b, o) == LE32(BlockOf(p, b), o)
  {
    hide HasField, BlockOf, Database.ValidRecords, LE32, IsLayout, PackBlocks;
    BlockAt(s, id, p, n, b);
    LoadsInside(Entry(s, id), s.xl.field[b], FIELD_WIDTH[b], o);
  }

  lemma FlagsRead(s: Database, id: nat, p: PackedEntry, n: nat, b: nat)
    requires Holds(s, id, p, n) && b < NUM_FIELDS && HasField(s.fields, b) && FlagByte(b).0 >= 0
    requires |BlockOf(p, b)| == FIELD_WIDTH[b]
    ensures BlockFlags(s, id, b) == BlockOf(p, b)[FlagByte(b).0]
  {
    hide HasField, BlockOf, Database.ValidRecords, IsLayout, PackBlocks;
    BlockAt(s, id, p, n, b);
    LoadsInside(Entry(s, id), s.xl.field[b], FIELD_WIDTH[b], FlagByte(b).0);
  }

  lemma MetroRead(s: Database, id: nat, p: PackedEntry, n: nat)
    requires Holds(s, id, p, n) && HasField(s.fields, 5)
    ensures s.xl.field[5] >= 0 && s.xl.field[5] + 2 <= |Entry(s, id)|
    ensures LE16(Entry(s, id), s.xl.field[5]) == p.metro
  {
    hide HasField, BlockOf, Database.ValidRecords, LE16, IsLayout, PackBlocks;
    BlockAt(s, id, p, n, 5);
    SmallLoads(p);
    LoadsInside(Entry(s, id), s.xl.field[5], 2, 0);
  }

  /** Whether a field set is in a database, by its bit in XFIELDS. */
  lemma FieldBits(f: nat)
    ensures HasField(f, 0) <==> f % 2 == 1
    ensures HasField(f, 1) <==> f / 2 % 2 == 1
    ensures HasField(f, 2) <==> f / 4 % 2 == 1
    ensures HasField(f, 3) <==> f / 8 % 2 == 1
    ensures HasField(f, 4) <==> f / 16 % 2 == 1
    ensures HasField(f, 5) <==> f / 32 % 2 == 1
    ensures HasField(f, 6) <==> f / 64 % 2 == 1
    ensures HasField(f, 7) <==> f / 128 % 2 == 1
  {
    assert Pow2(0) == 1 && Pow2(1) == 2 && Pow2(2) == 4 && Pow2(3) == 8;
    assert Pow2(4) == 16 && Pow2(5) == 32 && Pow2(6) == 64 && Pow2(7) == 128;
  }

  function CountryRead(strings: seq<bytes>, c: PackedCountry, eu: bool): Country {
    Country(StrAt(strings, c.iso), StrAt(strings, c.name), c.geo, eu)
  }

  /** Every field of an entry reads back as it was written when its field set is
      in the database, and is empty when it is not. */
  lemma ExtraRead(s: Database, id: nat, p: PackedEntry, n: nat)
    requires Holds(s, id, p, n)
    ensures var x, f, str := DecodeExtra(s, id), s.fields, (k: nat) => StrAt(s.strings, k);
      && x.inEU == (f % 2 == 1 && p.inEU)
      && (if f / 2 % 2 == 1 then x.continentName == str(p.continentName) && x.continentGeo == p.continentGeo
          else x.continentName == [] && x.continentGeo == 0)
      && (if f / 4 % 2 == 1 then
            && x.registered == CountryRead(s.strings, p.registered, p.registeredEU)
            && x.represented == CountryRead(s.strings, p.represented, p.representedEU)
            && x.representedType == str(p.representedType)
          else x.registered == x.represented == Country([], [], 0, false) && x.representedType == [])
      && (if f / 8 % 2 == 1 then
            && x.regionGeo == p.regionGeo && x.region2ISO == str(p.region2ISO)
            && x.region2Name == str(p.region2Name) && x.region2Geo == p.region2Geo
          else x.regionGeo == 0 && x.region2ISO == [] && x.region2Name == [] && x.region2Geo == 0)
      && x.postal == (if f / 16 % 2 == 1 then str(p.postal) else [])
      && x.metro == (if f / 32 % 2 == 1 then p.metro else 0)
      && x.anycast == (f / 64 % 2 == 1 && p.anycast) && x.anonymousProxy == (f / 64 % 2 == 1 && p.anonymousProxy)
      && x.satellite == (f / 64 % 2 == 1 && p.satellite)
      && x.hasCoordinates == (f / 128 % 2 == 1 && p.hasCoordinates)
      && x.hasAccuracy == (f / 128 % 2 == 1 && p.hasAccuracy)
  {
    HoldsRecord(s, id, p, n);
    hide Holds, Flag, StrAt, HasEntries, IsRecord;
    FieldBits(s.fields);
    hide HasField;
    ContinentRead(s, id, p, n);
    RegisteredRead(s, id, p, n);
    SubdivisionsRead(s, id, p, n);
    SmallRead(s, id, p, n);
    FlagFieldsRead(s, id, p, n);
    hide EUOf, ContinentOf, CountriesOf, SubdivisionsOf, PostalOf, MetroOf, FlagsOf;
  }

  lemma SmallRead(s: Database, id: nat, p: PackedEntry, n: nat)
    requires Holds(s, id, p, n) && HasEntries(s) && IsRecord(s, id)
    ensures PostalOf(s, id) == if HasField(s.fields, 4) then StrAt(s.strings, p.postal) else []
    ensures MetroOf(s, id) == if HasField(s.fields, 5) then p.metro else 0
  {
    hide HasField, Holds, BlockString, Entry, HasEntries, IsRecord, StrAt, LE16, LE24, BlockOf;
    SmallLoads(p);
    if HasField(s.fields, 4) { StringRead(s, id, p, n, 4, 0); }
    if HasField(s.fields, 5) { MetroRead(s, id, p, n); }
  }

  lemma FlagFieldsRead(s: Database, id: nat, p: PackedEntry, n: nat)
    requires Holds(s, id, p, n) && HasEntries(s) && IsRecord(s, id)
    ensures EUOf(s, id) == (HasField(s.fields, 0) && p.inEU)
    ensures var fl, has := FlagsOf(s, id, 6), HasField(s.fields, 6);
      && (fl % 2 == 1) == (has && p.anycast) && (fl / 2 % 2 == 1) == (has && p.anonymousProxy)
      && (fl / 4 % 2 == 1) == (has && p.satellite)
    ensures var fl, has := FlagsOf(s, id, 7), HasField(s.fields, 7);
      (fl % 2 == 1) == (has && p.hasCoordinates) && (fl / 2 % 2 == 1) == (has && p.hasAccuracy)
  {
    FlagBlocks(p);
    hide HasField, Holds, BlockFlags, HasEntries, IsRecord, BlockOf, Flag;
    if HasField(s.fields, 0) { FlagsRead(s, id, p, n, 0); }
    if HasField(s.fields, 6) { FlagsRead(s, id, p, n, 6); }
    if HasField(s.fields, 7) { FlagsRead(s, id, p, n, 7); }
  }

  lemma FlagBlocks(p: PackedEntry)
    ensures |BlockOf(p, 0)| == |BlockOf(p, 6)| == |BlockOf(p, 7)| == 1
    ensures (BlockOf(p, 0)[0] % 2 == 1) == p.inEU
    ensures var fl := BlockOf(p, 6)[0];
      (fl % 2 == 1) == p.anycast && (fl / 2 % 2 == 1) == p.anonymousProxy && (fl / 4 % 2 == 1) == p.satellite
    ensures var fl := BlockOf(p, 7)[0]; (fl % 2 == 1) == p.hasCoordinates && (fl / 2 % 2 == 1) == p.hasAccuracy
  {
  }

  lemma HoldsRecord(s: Database, id: nat, p: PackedEntry, n: nat)
    requires Holds(s, id, p, n)
    ensures HasEntries(s) && IsRecord(s, id) && s.xl.width > 0
  {
  }

  lemma ContinentRead(s: Database, id: nat, p: PackedEntry, n: nat)
    requires Holds(s, id, p, n) && HasEntries(s) && IsRecord(s, id)
    ensures ContinentOf(s, id) ==
      if HasField(s.fields, 1) then (StrAt(s.strings, p.continentName), p.continentGeo) else ([], 0)
  {
    hide HasField, Holds, HasEntries, IsRecord, BlockString, BlockWord, LE24, LE32, StrAt, BlockOf;
    ContinentLoads(p);
    if HasField(s.fields, 1) {
      StringRead(s, id, p, n, 1, 0);
      WordRead(s, id, p, n, 1, 3);
    }
  }

  lemma RegisteredRead(s: Database, id: nat, p: PackedEntry, n: nat)
    requires Holds(s, id, p, n) && HasEntries(s) && IsRecord(s, id)
    ensures CountriesOf(s, id) ==
      if HasField(s.fields, 2) then
        (CountryRead(s.strings, p.registered, p.registeredEU), CountryRead(s.strings, p.represented, p.representedEU),
         StrAt(s.strings, p.representedType))
      else (Country([], [], 0, false), Country([], [], 0, false), [])
  {
    hide HasField, Holds, HasEntries, IsRecord, BlockString, BlockWord, BlockFlags, LE24, LE32, StrAt, BlockOf;
    RegisteredLoads(p);
    if HasField(s.fields, 2) {
      StringRead(s, id, p, n, 2, 0);
      StringRead(s, id, p, n, 2, 1);
      StringRead(s, id, p, n, 2, 2);
      StringRead(s, id, p, n, 2, 3);
      StringRead(s, id, p, n, 2, 4);
      WordRead(s, id, p, n, 2, 6);
      WordRead(s, id, p, n, 2, 16);
      FlagsRead(s, id, p, n, 2);
    }
  }

  lemma SubdivisionsRead(s: Database, id: nat, p: PackedEntry, n: nat)
    requires Holds(s, id, p, n) && HasEntries(s) && IsRecord(s, id)
    ensures SubdivisionsOf(s, id) ==
      if HasField(s.fields, 3) then
        (p.regionGeo, StrAt(s.strings, p.region2ISO), StrAt(s.strings, p.region2Name), p.region2Geo)
      else (0, [], [], 0)
  {
    hide HasField, Holds, HasEntries, IsRecord, BlockString, BlockWord, LE24, LE32, StrAt, BlockOf;
    SubdivisionLoads(p);
    if HasField(s.fields, 3) {
      StringRead(s, id, p, n, 3, 0);
      StringRead(s, id, p, n, 3, 1);
      WordRead(s, id, p, n, 3, 0);
      WordRead(s, id, p, n, 3, 10);
    }
  }

  /** An address without an answer, and a field without a value, is empty. */
  lemma EmptyDetails()
    ensures NO_DETAILS == FullRecord(
      Record([], [], [], 0, [], [], [], 0, 0, 0, 0, []),
      Extra(false, [], 0, Country([], [], 0, false), Country([], [], 0, false), [], 0, [], [], 0, [], 0,
            false, false, false, false, false),
      AsnRecord(0, []))
  {
  }

  // ---- which entries and field sets are allowed ---------------------------------------

  /** What is checked of each block: its string ids, and that no undefined flag is set. */
  lemma BlockRules(e: bytes, o: nat, ns: nat)
    requires o + 24 <= |e|
    ensures BlockOk(e, o, 0, ns) <==> e[o] < 2
    ensures BlockOk(e, o, 1, ns) <==> LE24(e, o) < ns
    ensures BlockOk(e, o, 3, ns) <==> LE24(e, o + 4) < ns && LE24(e, o + 7) < ns
    ensures BlockOk(e, o, 4, ns) <==> LE24(e, o) < ns
    ensures BlockOk(e, o, 5, ns)
    ensures BlockOk(e, o, 6, ns) <==> e[o] < 8
    ensures BlockOk(e, o, 7, ns) <==> e[o] < 4
  {
    OnlyLowBits(e[o], 1);
    OnlyLowBits(e[o], 3);
    OnlyLowBits(e[o], 7);
    hide OnlyBits, LE24;
    var subs := BlockStrings(3);
    assert subs[0] == 4 && subs[1] == 7;
    assert BlockStrings(1)[0] == 0 && BlockStrings(4)[0] == 0;
  }

  lemma CountryRules(e: bytes, o: nat, ns: nat)
    requires o + 24 <= |e|
    ensures BlockOk(e, o, 2, ns) <==>
      && LE24(e, o) < ns && LE24(e, o + 3) < ns && LE24(e, o + 10) < ns && LE24(e, o + 13) < ns && LE24(e, o + 20) < ns
      && e[o + 23] < 4
  {
    OnlyLowBits(e[o + 23], 3);
    hide OnlyBits, LE24;
    var offs := BlockStrings(2);
    assert offs[0] == 0 && offs[1] == 3 && offs[2] == 10 && offs[3] == 13 && offs[4] == 20;
  }

  /** The profiles that may have each field set alone, by its bit. */
  lemma SingleFields(profile: nat)
    requires profile <= 3
    ensures CheckFields(profile, 0)
    ensures CheckFields(profile, 1) <==> profile <= 2
    ensures CheckFields(profile, 2) <==> profile <= 2
    ensures CheckFields(profile, 4) <==> profile <= 2
    ensures CheckFields(profile, 8) <==> profile == 1 || profile == 2
    ensures CheckFields(profile, 16) <==> profile == 2
    ensures CheckFields(profile, 32) <==> profile == 2
    ensures CheckFields(profile, 64) <==> profile <= 2
    ensures CheckFields(profile, 128) <==> profile == 2
  {
    FieldBits(0);
    FieldBits(1);
    FieldBits(2);
    FieldBits(4);
    FieldBits(8);
    FieldBits(16);
    FieldBits(32);
    FieldBits(64);
    FieldBits(128);
    hide HasField;
  }

  /** A profile allows the known field sets each of which it allows alone. */
  lemma FieldsBySingles(profile: nat, fields: nat)
    requires profile <= 3
    ensures CheckFields(profile, fields) <==>
      fields < 0x100 && forall b: nat :: b < 8 && HasField(fields, b) ==> CheckFields(profile, Pow2(b))
  {
    SingleFields(profile);
    assert Pow2(0) == 1 && Pow2(1) == 2 && Pow2(2) == 4 && Pow2(3) == 8;
    assert Pow2(4) == 16 && Pow2(5) == 32 && Pow2(6) == 64 && Pow2(7) == 128 && Pow2(8) == 0x100;
    if profile == ASN && fields < 0x100 {
      LowBits(fields, 0, 8);
      assert forall b: nat :: b < 8 ==> (HasField(fields, b) <==> Bit(fields, b));
    }
    hide Pow2, HasField, Bit;
  }
}
