/** The GEO2 file of a database: writing it and opening it gives the database
    back. */
module Geo2Write {
  import opened Words
  import opened Ids
  import opened Boundaries
  import opened XLayouts
  import opened Geo2Directory
  import opened Geo2Records
  import opened Geo2Files
  import opened Geo2Format
  import opened Databases
  import opened Readers
  import opened Opening

  // ---- META ------------------------------------------------------------------------

  datatype MetaBlock = MetaBlock(buildTime: u64, sourceTime: u64, networks: u64, ids: Meta, distinct: u32)

  /** AppendTo: the 64 bytes of META. */
  function AppendMeta(m: MetaBlock): (b: bytes)
    ensures |b| == 64
  {
    Put64(m.buildTime) + Put64(m.sourceTime) + Put64(m.networks)
    + PackWords([m.ids.sourceType, m.ids.language, m.ids.description, m.ids.builder, m.distinct])
    + seq(20, _ => 0)
  }

  lemma MetaRead(m: MetaBlock)
    ensures ParseMeta(AppendMeta(m)) == m.ids && AllZero(AppendMeta(m)[44..])
  {
    hide LE32, PackWords, Put64;
    var ws := [m.ids.sourceType, m.ids.language, m.ids.description, m.ids.builder, m.distinct];
    var times, b := Put64(m.buildTime) + Put64(m.sourceTime) + Put64(m.networks), AppendMeta(m);
    var p := PackWords(ws);
    assert b[24..24 + |p|] == p && b[44..] == seq(20, _ => 0);
    WordAt(ws, 0);
    SameLoads(b, 24, p, 0);
    WordAt(ws, 1);
    SameLoads(b, 24, p, 4);
    WordAt(ws, 2);
    SameLoads(b, 24, p, 8);
    WordAt(ws, 3);
    SameLoads(b, 24, p, 12);
  }

  /** Of an accepted file, the four META string ids are strings. */
  lemma MetaIds(b: bytes, h: Header)
    requires DirectoryOk(b, h.count) && h.profile <= 3 && 1 <= h.idWidth <= 4 && LengthsOk(b, h) && StringsOk(b, h)
    ensures var meta, n := Sect(b, h.count, 1), |Sect(b, h.count, 2)| / 4 - 1;
      && |meta| == 64 && LE32(meta, 24) < n && LE32(meta, 28) < n && LE32(meta, 32) < n && LE32(meta, 36) < n
      && forall k :: 44 <= k < 64 ==> meta[k] == 0
  {
    LengthFacts(b, h);
    var meta := Sect(b, h.count, META);
    hide DirectoryOk, LengthsOk, Sect, StringIndex, LE32;
    forall k | 44 <= k < 64
      ensures meta[k] == 0
    {
      assert meta[44..][k - 44] == 0;
    }
  }

  // ---- strings ---------------------------------------------------------------------

  /** The bytes of the first k strings. */
  function Blob(strings: seq<bytes>, k: nat): bytes
    requires k <= |strings|
  {
    if k == 0 then [] else Blob(strings, k - 1) + strings[k - 1]
  }

  lemma {:induction false} BlobGrows(strings: seq<bytes>, j: nat, k: nat)
    requires j <= k <= |strings|
    ensures |Blob(strings, j)| <= |Blob(strings, k)| && Blob(strings, k)[..|Blob(strings, j)|] == Blob(strings, j)
    decreases k
  {
    if j < k {
      BlobGrows(strings, j, k - 1);
    }
  }

  /** Where each string starts, and where the last one ends. */
  function StringStarts(strings: seq<bytes>): (ws: seq<u32>)
    requires |Blob(strings, |strings|)| < TWO32
    ensures |ws| == |strings| + 1
  {
    seq(|strings| + 1, k requires 0 <= k <= |strings| => StartOf(strings, k))
  }

  function StartOf(strings: seq<bytes>, k: nat): (o: u32)
    requires k <= |strings| && |Blob(strings, |strings|)| < TWO32
    ensures o == |Blob(strings, k)|
  {
    BlobGrows(strings, k, |strings|);
    |Blob(strings, k)|
  }

  lemma StringsRead(strings: seq<bytes>)
    requires |Blob(strings, |strings|)| < TWO32 && |strings| > 0 && strings[0] == []
    ensures var idx, blob := PackWords(StringStarts(strings)), Blob(strings, |strings|);
      StringIndex(U32s(idx), |blob|) && AreStrings(strings, idx, blob)
  {
    var ws, blob := StringStarts(strings), Blob(strings, |strings|);
    WordsRead(ws);
    StartsIndex(strings);
    var idx := PackWords(ws);
    assert |idx| / 4 == |ws|;
    hide PackWords, LE32, StringIndex, Blob, Str, StringStarts, U32s;
    forall i: nat | i < |strings|
      ensures strings[i] == Str(idx, blob, i)
    {
      StringRead(strings, idx, i);
    }
  }

  lemma StringRead(strings: seq<bytes>, idx: bytes, i: nat)
    requires |Blob(strings, |strings|)| < TWO32 && StringIndex(U32s(idx), |Blob(strings, |strings|)|)
    requires U32s(idx) == StringStarts(strings) && |idx| / 4 == |strings| + 1 && i < |strings|
    ensures Str(idx, Blob(strings, |strings|), i) == strings[i]
  {
    assert StringStarts(strings)[i] == |Blob(strings, i)| && StringStarts(strings)[i + 1] == |Blob(strings, i + 1)|;
    hide StringIndex, U32s, Blob, StringStarts, LE32;
    StringAtIndex(strings, i);
  }

  lemma StartsIndex(strings: seq<bytes>)
    requires |Blob(strings, |strings|)| < TWO32 && |strings| > 0 && strings[0] == []
    ensures StringIndex(StringStarts(strings), |Blob(strings, |strings|)|)
  {
    var ws := StringStarts(strings);
    assert Blob(strings, 1) == Blob(strings, 0) + strings[0];
    hide Blob;
    forall i, j | 0 <= i <= j < |ws|
      ensures ws[i] <= ws[j]
    {
      BlobGrows(strings, i, j);
    }
  }

  lemma StringAtIndex(strings: seq<bytes>, i: nat)
    requires i < |strings|
    ensures var o, e := |Blob(strings, i)|, |Blob(strings, i + 1)|;
      o <= e <= |Blob(strings, |strings|)| && Blob(strings, |strings|)[o..e] == strings[i]
  {
    BlobGrows(strings, i + 1, |strings|);
    var blob, o, e := Blob(strings, |strings|), |Blob(strings, i)|, |Blob(strings, i + 1)|;
    assert Blob(strings, i + 1) == Blob(strings, i) + strings[i];
    assert blob[o..e] == blob[..e][o..];
  }

  // ---- the sections of a database ------------------------------------------------------

  /** Whether the file has XFIELDS and XRECORDS: with a field set, or a second language. */
  predicate Extends(d: Database) {
    d.fields > 0 || |d.langs| >= 2
  }

  ghost predicate Writable(d: Database, m: MetaBlock, langIds: seq<u32>) {
    && d.Valid() && d.ValidRecords() && d.idWidth == IDWidth(d.nRecords)
    && |Blob(d.strings, |d.strings|)| < TWO32 && MetaBelow(m.ids, |d.strings|)
    && WholeTables(d) && NamesLanguages(d, m, langIds)
    && CheckFields(d.profile, d.fields)
    && d.xl == LayoutOf(d.profile, d.fields, if |d.langs| >= 2 then |d.langs| else 1)
    && (d.xl.width == 0 ==> d.xrecs == [])
  }

  /** No table ends in a part of an element. */
  ghost predicate WholeTables(d: Database)
    requires d.Valid()
  {
    && |d.v4idx| == 262148 && |d.v4starts| % 2 == 0 && |d.v4ids| == d.N4() * d.idWidth
    && |d.v6hi| % 8 == 0 && |d.v6ids| == d.N6() * d.idWidth
    && |d.v6excIdx| % 4 == 0 && |d.v6excLo| == |d.v6excIdx| / 4 * 8
  }

  /** The languages are strings: META's, and for two or more all of langIds. */
  ghost predicate NamesLanguages(d: Database, m: MetaBlock, langIds: seq<u32>)
    requires MetaBelow(m.ids, |d.strings|)
  {
    var primary := d.strings[m.ids.language];
    if |d.langs| < 2 then langIds == [] && d.langs == (if primary != [] then [primary] else [])
    else
      && |langIds| == |d.langs| && d.langs[0] == primary && d.profile != ASN
      && (forall j :: 0 <= j < |langIds| ==> langIds[j] < |d.strings| && d.strings[langIds[j]] == d.langs[j] != [])
      && (forall i, j :: 0 <= i < j < |langIds| ==> d.langs[i] != d.langs[j])
  }

  /** XFIELDS: the field set bits and a zero word. */
  function XFields(fields: u32): (b: bytes)
    ensures |b| == 8
  {
    Put32(fields) + seq(4, _ => 0)
  }

  lemma XFieldsRead(fields: u32)
    ensures LE32(XFields(fields), 0) == fields && LE32(XFields(fields), 4) == 0
  {
    var zero: bytes := seq(4, _ => 0);
    ZeroWord(zero);
    hide Put32, LE32;
    LoadsSplit(Put32(fields), zero, 0);
  }

  lemma ZeroWord(b: bytes)
    requires |b| == 4 && forall k :: 0 <= k < 4 ==> b[k] == 0
    ensures LE32(b, 0) == 0
  {
  }

  /** The contents of each section, by the ids of docs/FORMAT.md. */
  function BodyFor(d: Database, m: MetaBlock, langIds: seq<u32>, id: nat): bytes
    requires |Blob(d.strings, |d.strings|)| < TWO32 && d.fields < TWO32
  {
    match id
    case 1 => AppendMeta(m)
    case 2 => PackWords(StringStarts(d.strings))
    case 3 => Blob(d.strings, |d.strings|)
    case 4 => d.records
    case 5 => d.v4idx
    case 6 => d.v4starts
    case 7 => d.v4ids
    case 8 => d.v6hi
    case 9 => d.v6ids
    case 10 => d.v6excIdx
    case 11 => d.v6excLo
    case 12 => XFields(d.fields)
    case 13 => d.xrecs
    case 14 => PackWords(langIds)
    case _ => []
  }

  /** The required sections, XFIELDS and XRECORDS when there are any, and LANGS with
      a second language. */
  function SectionCount(d: Database): (n: nat)
    ensures 11 <= n <= 14
  {
    if !Extends(d) then 11 else if |d.langs| >= 2 then 14 else 13
  }

  function SectionsOf(d: Database, m: MetaBlock, langIds: seq<u32>): (secs: seq<Section>)
    requires |Blob(d.strings, |d.strings|)| < TWO32 && d.fields < TWO32
  {
    seq(SectionCount(d), k requires 0 <= k < SectionCount(d) => Section(k + 1, BodyFor(d, m, langIds, k + 1)))
  }

  ghost predicate Numbered(secs: seq<Section>) {
    11 <= |secs| <= 14 && forall k :: 0 <= k < |secs| ==> secs[k].id == k + 1
  }

  lemma SectionIds(d: Database, m: MetaBlock, langIds: seq<u32>)
    requires |Blob(d.strings, |d.strings|)| < TWO32 && d.fields < TWO32
    ensures Numbered(SectionsOf(d, m, langIds))
  {
    hide BodyFor, Blob;
  }

  function WriteDatabase(d: Database, m: MetaBlock, langIds: seq<u32>, latScale: u8, crc: bytes -> u32): bytes
    requires |Blob(d.strings, |d.strings|)| < TWO32 && d.fields < TWO32 && d.profile < 0x100 && d.idWidth < 0x100
    requires Fitting(SectionsOf(d, m, langIds))
  {
    WriteFile(Header(d.profile, latScale, d.idWidth, 0), SectionsOf(d, m, langIds), crc)
  }

  /** Section k of consecutive ids is the one written under k + 1. */
  lemma IdsInOrder(secs: seq<Section>)
    requires Numbered(secs)
    ensures IdsOk(secs)
    ensures forall id: nat :: 1 <= id < 15 ==> (Writes(secs, id) <==> id <= |secs|)
    ensures forall id: nat :: 1 <= id < 15 ==> BodyOf(secs, id) == if id <= |secs| then secs[id - 1].body else []
  {
    forall id: nat | 1 <= id < 15
      ensures Writes(secs, id) <==> id <= |secs|
      ensures BodyOf(secs, id) == if id <= |secs| then secs[id - 1].body else []
    {
      if id <= |secs| {
        assert secs[id - 1].id == id;
      }
    }
  }

  /** What reading the file of a list of sections finds. */
  ghost predicate Finds(b: bytes, h: Header, secs: seq<Section>) {
    && ParseHeader(b) == Ok(h) && h.count == |secs| && DirectoryOk(b, h.count)
    && forall id: nat :: Known(id) ==>
                      && (Listed(b, h.count, id) <==> id <= |secs|)
                      && Sect(b, h.count, id) == if id <= |secs| then secs[id - 1].body else []
  }

  lemma SectionsFound(h: Header, secs: seq<Section>, crc: bytes -> u32)
    requires Fitting(secs) && Numbered(secs) && ValidHeader(h)
    ensures Finds(WriteFile(h, secs, crc), h.(count := |secs|), secs)
    ensures DirectoryOk(WriteFile(h, secs, crc), |secs|) && ChecksumsOk(WriteFile(h, secs, crc), |secs|, crc)
  {
    IdsInOrder(secs);
    HeaderWritten(h, secs, crc);
    DirectoryWritten(h, secs, crc);
    ChecksumsWritten(h, secs, crc);
    hide WriteFile, DirectoryOk, Listed, Sect, ParseHeader, Fitting, IdsOk;
    forall id: nat | Known(id)
      ensures Sect(WriteFile(h, secs, crc), |secs|, id) == BodyOf(secs, id)
    {
      SectionsWritten(h, secs, crc, id);
    }
  }

  // ---- a written database is well formed -----------------------------------------------

  /** Section id of a file that was read. */
  lemma At(b: bytes, h: Header, secs: seq<Section>, id: nat)
    requires Finds(b, h, secs) && Known(id)
    ensures DirectoryOk(b, h.count) && (Listed(b, h.count, id) <==> id <= |secs|)
    ensures SecOf(b, h.count, id).n == |Sect(b, h.count, id)|
    ensures Sect(b, h.count, id) == if id <= |secs| then secs[id - 1].body else []
  {
    hide DirectoryOk, Listed, SecOf, Sect;
  }

  /** Section id as read from the file of a database. */
  lemma Read(b: bytes, h: Header, d: Database, m: MetaBlock, langIds: seq<u32>, id: nat)
    requires |Blob(d.strings, |d.strings|)| < TWO32 && d.fields < TWO32
    requires Finds(b, h, SectionsOf(d, m, langIds)) && Known(id)
    ensures DirectoryOk(b, h.count) && (Listed(b, h.count, id) <==> id <= SectionCount(d))
    ensures SecOf(b, h.count, id).n == |Sect(b, h.count, id)|
    ensures Sect(b, h.count, id) == if id <= SectionCount(d) then BodyFor(d, m, langIds, id) else []
  {
    hide DirectoryOk, Listed, SecOf, Sect, Finds, BodyFor, Blob;
    At(b, h, SectionsOf(d, m, langIds), id);
  }

  /** The sizes of the required sections. */
  lemma SizesRead(b: bytes, h: Header, d: Database, m: MetaBlock, langIds: seq<u32>)
    requires |Blob(d.strings, |d.strings|)| < TWO32 && d.fields < TWO32
    requires Finds(b, h, SectionsOf(d, m, langIds))
    ensures DirectoryOk(b, h.count)
    ensures forall id: nat :: 1 <= id <= 11 ==> SecOf(b, h.count, id).n == |BodyFor(d, m, langIds, id)|
  {
    Read(b, h, d, m, langIds, 1);
    hide DirectoryOk, Listed, SecOf, Sect, Finds, BodyFor, Blob, SectionsOf;
    forall id: nat | 1 <= id <= 11
      ensures SecOf(b, h.count, id).n == |BodyFor(d, m, langIds, id)|
    {
      Read(b, h, d, m, langIds, id);
    }
  }

  /** Rule 3. */
  lemma LengthsHold(b: bytes, h: Header, d: Database, m: MetaBlock, langIds: seq<u32>)
    requires Writable(d, m, langIds) && d.fields < TWO32 && Finds(b, h, SectionsOf(d, m, langIds))
    requires h.profile == d.profile <= 3 && h.idWidth == d.idWidth
    ensures DirectoryOk(b, h.count) && 1 <= h.idWidth <= 4 && LengthsOk(b, h)
  {
    SizesHold(d, m, langIds);
    SizesRead(b, h, d, m, langIds);
    BodySizes(d, m, langIds);
    hide Writable, DirectoryOk, SecOf, Finds, SectionsOf, BodyFor, Blob, PackWords, HeadLengths, TableLengths;
  }

  lemma BodySizes(d: Database, m: MetaBlock, langIds: seq<u32>)
    requires |Blob(d.strings, |d.strings|)| < TWO32 && d.fields < TWO32
    ensures var n := (id: nat) => |BodyFor(d, m, langIds, id)|;
      && n(1) == 64 && n(2) == 4 * |d.strings| + 4 && n(4) == |d.records| && n(5) == |d.v4idx|
      && n(6) == |d.v4starts| && n(7) == |d.v4ids| && n(8) == |d.v6hi| && n(9) == |d.v6ids|
      && n(10) == |d.v6excIdx| && n(11) == |d.v6excLo|
  {
    hide Blob, PackWords;
  }

  /** The contents of every section. */
  ghost predicate Contains(b: bytes, h: Header, d: Database, m: MetaBlock, langIds: seq<u32>)
    requires |Blob(d.strings, |d.strings|)| < TWO32 && d.fields < TWO32 && DirectoryOk(b, h.count)
  {
    forall id: nat :: 1 <= id <= 14 ==>
                        && (Listed(b, h.count, id) <==> id <= SectionCount(d))
                        && Sect(b, h.count, id) == if id <= SectionCount(d) then BodyFor(d, m, langIds, id) else []
  }

  lemma ContentsRead(b: bytes, h: Header, d: Database, m: MetaBlock, langIds: seq<u32>)
    requires |Blob(d.strings, |d.strings|)| < TWO32 && d.fields < TWO32
    requires Finds(b, h, SectionsOf(d, m, langIds)) && DirectoryOk(b, h.count)
    ensures Contains(b, h, d, m, langIds)
  {
    assert DirEnd(h.count) <= |b|;
    hide DirectoryOk, Listed, SecOf, Sect, Finds, BodyFor, Blob, SectionsOf, SectionCount;
    forall id: nat | 1 <= id <= 14
      ensures Listed(b, h.count, id) <==> id <= SectionCount(d)
      ensures Sect(b, h.count, id) == if id <= SectionCount(d) then BodyFor(d, m, langIds, id) else []
    {
      Read(b, h, d, m, langIds, id);
    }
  }

  /** Rule 5. */
  lemma StringsHold(b: bytes, h: Header, d: Database, m: MetaBlock, langIds: seq<u32>)
    requires Writable(d, m, langIds) && d.fields < TWO32 && DirectoryOk(b, h.count)
    requires h.profile <= 3 && 1 <= h.idWidth <= 4 && LengthsOk(b, h) && Contains(b, h, d, m, langIds)
    ensures StringsOk(b, h) && MetaOf(b, h) == m.ids
    ensures AreStrings(d.strings, Sect(b, h.count, STRIDX), Sect(b, h.count, STRBLOB))
  {
    StringsOfWritable(d, m, langIds);
    StringsRead(d.strings);
    MetaRead(m);
    FirstBodies(d, m, langIds);
    assert Sect(b, h.count, META) == BodyFor(d, m, langIds, 1);
    assert Sect(b, h.count, STRIDX) == BodyFor(d, m, langIds, 2);
    assert Sect(b, h.count, STRBLOB) == BodyFor(d, m, langIds, 3);
    hide Writable, DirectoryOk, LengthsOk, Contains, BodyFor, Sect, AppendMeta, PackWords, Blob, StringIndex,
      AreStrings, ParseMeta, AllZero, StringStarts;
  }

  lemma StringsOfWritable(d: Database, m: MetaBlock, langIds: seq<u32>)
    requires Writable(d, m, langIds)
    ensures |Blob(d.strings, |d.strings|)| < TWO32 && |d.strings| > 0 && d.strings[0] == []
    ensures MetaBelow(m.ids, |d.strings|)
  {
  }

  lemma FirstBodies(d: Database, m: MetaBlock, langIds: seq<u32>)
    requires |Blob(d.strings, |d.strings|)| < TWO32 && d.fields < TWO32
    ensures BodyFor(d, m, langIds, 1) == AppendMeta(m)
    ensures BodyFor(d, m, langIds, 2) == PackWords(StringStarts(d.strings))
    ensures BodyFor(d, m, langIds, 3) == Blob(d.strings, |d.strings|)
  {
  }

  /** The required sections are the database's. */
  lemma TableSections(b: bytes, h: Header, d: Database, m: MetaBlock, langIds: seq<u32>)
    requires |Blob(d.strings, |d.strings|)| < TWO32 && d.fields < TWO32 && DirectoryOk(b, h.count)
    requires Contains(b, h, d, m, langIds)
    ensures |Sect(b, h.count, STRIDX)| == 4 * |d.strings| + 4 && Sect(b, h.count, RECORDS) == d.records
    ensures Sect(b, h.count, V4IDX) == d.v4idx && Sect(b, h.count, V4STARTS) == d.v4starts
    ensures Sect(b, h.count, V4IDS) == d.v4ids && Sect(b, h.count, V6IDS) == d.v6ids
    ensures Sect(b, h.count, V6STARTS) == d.v6hi
    ensures Sect(b, h.count, V6EXCIDX) == d.v6excIdx && Sect(b, h.count, V6EXCLO) == d.v6excLo
  {
    TableBodies(d, m, langIds);
    hide DirectoryOk, BodyFor, Blob, Listed;
  }

  /** Rule 6 and the records of rule 5. */
  lemma RecordsHold(b: bytes, h: Header, d: Database, m: MetaBlock, langIds: seq<u32>)
    requires Writable(d, m, langIds) && d.fields < TWO32 && DirectoryOk(b, h.count)
    requires h.profile == d.profile <= 3 && h.idWidth == d.idWidth && 1 <= h.idWidth <= 4
    requires LengthsOk(b, h) && Contains(b, h, d, m, langIds)
    ensures RecordCount(b, h) == d.nRecords && RecordPart(b, h)
  {
    CountHolds(b, h, d, m, langIds);
    RecordFacts(d, m, langIds);
    TableSections(b, h, d, m, langIds);
    hide DirectoryOk, LengthsOk, Contains, Sect, RecordsSound, RecordWidth, Writable, Blob, RecordCount, RecordPart;
    PartFrom(b, h, d.records, d.nRecords, |d.strings|, d.v4ids, d.v6ids);
  }

  lemma PartFrom(b: bytes, h: Header, recs: bytes, n: nat, ns: nat, v4ids: bytes, v6ids: bytes)
    requires DirectoryOk(b, h.count) && h.profile <= 3 && 1 <= h.idWidth <= 4 && LengthsOk(b, h)
    requires RecordCount(b, h) == n && Sect(b, h.count, RECORDS) == recs && |Sect(b, h.count, STRIDX)| == 4 * ns + 4
    requires Sect(b, h.count, V4IDS) == v4ids && Sect(b, h.count, V6IDS) == v6ids
    requires |recs| == n * RecordWidth(h.profile) && RecordsSound(h.profile, h.idWidth, recs, n, ns, v4ids, v6ids)
    ensures RecordPart(b, h)
  {
    hide DirectoryOk, LengthsOk, Sect, RecordsSound, RecordWidth, RecordCount;
  }

  lemma CountHolds(b: bytes, h: Header, d: Database, m: MetaBlock, langIds: seq<u32>)
    requires Writable(d, m, langIds) && d.fields < TWO32 && DirectoryOk(b, h.count)
    requires h.profile == d.profile <= 3 && 1 <= h.idWidth <= 4
    requires LengthsOk(b, h) && Contains(b, h, d, m, langIds)
    ensures RecordCount(b, h) == d.nRecords
  {
    SizesHold(d, m, langIds);
    TableSections(b, h, d, m, langIds);
    hide DirectoryOk, LengthsOk, Contains, Sect, RecordWidth, Writable, Blob, HeadLengths, TableLengths;
  }

  lemma RecordFacts(d: Database, m: MetaBlock, langIds: seq<u32>)
    requires Writable(d, m, langIds)
    ensures d.profile <= 3 && |d.records| == d.nRecords * RecordWidth(d.profile) && 1 <= d.idWidth <= 4
    ensures RecordsSound(d.profile, d.idWidth, d.records, d.nRecords, |d.strings|, d.v4ids, d.v6ids)
  {
    hide RecordsOk, IDWidth, IdsOf;
  }

  /** Rules 7 and 8. */
  lemma TablesHold(b: bytes, h: Header, d: Database, m: MetaBlock, langIds: seq<u32>)
    requires Writable(d, m, langIds) && d.fields < TWO32 && DirectoryOk(b, h.count)
    requires Contains(b, h, d, m, langIds)
    ensures TablesOk(b, h.count)
  {
    TableSections(b, h, d, m, langIds);
    assert d.Valid();
    hide DirectoryOk, Contains, Sect, Valid4, Valid6, Writable, Blob;
  }

  lemma TableBodies(d: Database, m: MetaBlock, langIds: seq<u32>)
    requires |Blob(d.strings, |d.strings|)| < TWO32 && d.fields < TWO32
    ensures var body := (id: nat) => BodyFor(d, m, langIds, id);
      && |body(2)| == 4 * |d.strings| + 4 && body(4) == d.records && body(5) == d.v4idx && body(6) == d.v4starts
      && body(7) == d.v4ids && body(8) == d.v6hi && body(9) == d.v6ids
      && body(10) == d.v6excIdx && body(11) == d.v6excLo
  {
    hide Blob, PackWords;
  }

  /** The extension sections. */
  ghost predicate ExtensionSections(b: bytes, h: Header, d: Database, langIds: seq<u32>)
    requires DirectoryOk(b, h.count) && d.fields < TWO32
  {
    var n, many := h.count, |d.langs| >= 2;
    && (Listed(b, n, XFIELDS) <==> Extends(d)) && (Listed(b, n, XRECORDS) <==> Extends(d))
    && (Listed(b, n, LANGS) <==> many)
    && (Extends(d) ==> Sect(b, n, XFIELDS) == XFields(d.fields))
    && Sect(b, n, XRECORDS) == d.xrecs && Sect(b, n, LANGS) == (if many then PackWords(langIds) else [])
  }

  lemma ExtensionsRead(b: bytes, h: Header, d: Database, m: MetaBlock, langIds: seq<u32>)
    requires Writable(d, m, langIds) && d.fields < TWO32 && DirectoryOk(b, h.count) && Contains(b, h, d, m, langIds)
    ensures ExtensionSections(b, h, d, langIds)
  {
    NoEntries(d, m, langIds);
    LastBodies(d, m, langIds);
    hide DirectoryOk, Sect, BodyFor, Blob, PackWords, Writable, Listed, XFields;
  }

  lemma NoEntries(d: Database, m: MetaBlock, langIds: seq<u32>)
    requires Writable(d, m, langIds)
    ensures !Extends(d) ==> d.xrecs == []
    ensures |d.langs| >= 2 ==> Extends(d)
  {
    EmptyLayout(d.profile);
    hide LayoutOf, Database.Valid, Database.ValidRecords, Blob;
  }

  lemma LastBodies(d: Database, m: MetaBlock, langIds: seq<u32>)
    requires |Blob(d.strings, |d.strings|)| < TWO32 && d.fields < TWO32
    ensures BodyFor(d, m, langIds, 12) == XFields(d.fields)
    ensures BodyFor(d, m, langIds, 13) == d.xrecs && BodyFor(d, m, langIds, 14) == PackWords(langIds)
  {
    hide Blob, PackWords, XFields;
  }

  /** The field sets and the number of languages read back. */
  lemma CountsRead(b: bytes, h: Header, d: Database, langIds: seq<u32>)
    requires DirectoryOk(b, h.count) && d.fields < TWO32 && ExtensionSections(b, h, d, langIds)
    requires |d.langs| >= 2 ==> |langIds| == |d.langs|
    requires LE32(XFields(d.fields), 0) == d.fields
    ensures FieldsOf(b, h.count) == d.fields
    ensures LangCount(b, h.count) == if |d.langs| >= 2 then |d.langs| else 1
  {
    hide DirectoryOk, Listed, PackWords, LE32, Sect, XFields;
  }

  lemma FieldFacts(d: Database, m: MetaBlock, langIds: seq<u32>)
    requires Writable(d, m, langIds)
    ensures d.fields < 0x100 && CheckFields(d.profile, d.fields) && (Extends(d) ==> d.profile != ASN)
    ensures d.xl == LayoutOf(d.profile, d.fields, if |d.langs| >= 2 then |d.langs| else 1)
    ensures |d.langs| >= 2 ==> |langIds| == |d.langs|
    ensures d.nRecords > 0 && |d.xrecs| == d.nRecords * d.xl.width
    ensures Fits(d.xl, d.fields) && XRecordsOk(d.xrecs, d.xl, d.fields, d.nRecords, |d.strings|)
  {
    hide Database.Valid, HasField, LayoutOf, RecordWidth, IDWidth, IdsOf, EntryOk;
    LayoutFits(d.xl, d.profile, d.fields, if |d.langs| >= 2 then |d.langs| else 1);
  }

  /** Rules 9 to 11. */
  lemma ShapeHolds(b: bytes, h: Header, d: Database, m: MetaBlock, langIds: seq<u32>)
    requires Writable(d, m, langIds) && d.fields < TWO32 && DirectoryOk(b, h.count) && h.profile == d.profile
    requires ExtensionSections(b, h, d, langIds)
    ensures ExtensionShape(b, h, d.nRecords)
  {
    hide DirectoryOk, Listed, Sect, PackWords, LE32, Writable, CheckFields, LayoutOf, LangCount, FieldsOf, XFields,
      ExtensionShape, XRecordsOk, Fits, Blob, IsLayout;
    FieldFacts(d, m, langIds);
    XFieldsRead(d.fields);
    CountsRead(b, h, d, langIds);
    ShapeFrom(b, h, d.nRecords, d.fields, if |d.langs| >= 2 then |d.langs| else 1, Extends(d), |d.langs| >= 2);
  }

  lemma ShapeFrom(b: bytes, h: Header, nr: nat, f: u32, c: nat, ext: bool, many: bool)
    requires DirectoryOk(b, h.count) && (many ==> ext) && (ext ==> h.profile != ASN)
    requires (Listed(b, h.count, XFIELDS) <==> ext) && (Listed(b, h.count, XRECORDS) <==> ext)
    requires Listed(b, h.count, LANGS) <==> many
    requires ext ==> Sect(b, h.count, XFIELDS) == XFields(f) && CheckFields(h.profile, f)
    requires c >= 1 && LangCount(b, h.count) == c
    requires |Sect(b, h.count, XRECORDS)| == nr * LayoutOf(h.profile, f, c).width
    requires many ==> |Sect(b, h.count, LANGS)| % 4 == 0 && |Sect(b, h.count, LANGS)| / 4 >= 2
    ensures ExtensionShape(b, h, nr)
  {
    XFieldsRead(f);
    hide DirectoryOk, Listed, Sect, LE32, CheckFields, LayoutOf, LangCount, XFields;
  }

  /** Rule 12, and the languages the reader lists. */
  lemma LangsHold(d: Database, m: MetaBlock, langIds: seq<u32>, idx: bytes, blob: bytes)
    requires Writable(d, m, langIds) && StringIndex(U32s(idx), |blob|) && AreStrings(d.strings, idx, blob)
    ensures m.ids.language + 1 < |idx| / 4
    ensures |d.langs| >= 2 ==> LangsOk(langIds, idx, blob, m.ids.language)
    ensures ListedLangs(if |d.langs| >= 2 then PackWords(langIds) else [], m.ids.language, idx, blob) == d.langs
  {
    assert MetaBelow(m.ids, |d.strings|) && NamesLanguages(d, m, langIds);
    hide Writable, StringIndex, Str, U32s, PackWords, LangsOk;
    if |d.langs| >= 2 {
      ManyLangs(d, m, langIds, idx, blob);
    }
  }

  lemma ManyLangs(d: Database, m: MetaBlock, langIds: seq<u32>, idx: bytes, blob: bytes)
    requires MetaBelow(m.ids, |d.strings|) && NamesLanguages(d, m, langIds) && |d.langs| >= 2
    requires StringIndex(U32s(idx), |blob|) && AreStrings(d.strings, idx, blob)
    ensures LangsOk(langIds, idx, blob, m.ids.language)
    ensures ListedLangs(PackWords(langIds), m.ids.language, idx, blob) == d.langs
  {
    WordsRead(langIds);
    hide StringIndex, Str, U32s, PackWords;
    forall j | 0 <= j < |langIds|
      ensures langIds[j] + 1 < |idx| / 4 && Str(idx, blob, langIds[j]) == d.langs[j]
    {
    }
  }

  /** Rules 9 to 12. */
  lemma ExtensionsHold(b: bytes, h: Header, d: Database, m: MetaBlock, langIds: seq<u32>)
    requires Writable(d, m, langIds) && d.fields < TWO32 && DirectoryOk(b, h.count) && h.profile == d.profile
    requires ExtensionSections(b, h, d, langIds)
    requires StringIndex(U32s(Sect(b, h.count, STRIDX)), |Sect(b, h.count, STRBLOB)|)
    requires AreStrings(d.strings, Sect(b, h.count, STRIDX), Sect(b, h.count, STRBLOB))
    ensures m.ids.language + 1 < |Sect(b, h.count, STRIDX)| / 4 && d.nRecords > 0
    ensures ExtensionsOk(b, h, d.nRecords, m.ids.language)
  {
    LangsHold(d, m, langIds, Sect(b, h.count, STRIDX), Sect(b, h.count, STRBLOB));
    ShapeHolds(b, h, d, m, langIds);
    FieldFacts(d, m, langIds);
    XFieldsRead(d.fields);
    CountsRead(b, h, d, langIds);
    WordsRead(langIds);
    hide DirectoryOk, Listed, Sect, PackWords, LE32, Writable, CheckFields, LayoutOf, LangCount, FieldsOf, LangsOk,
      XRecordsOk, ExtensionShape, StringIndex, Str, U32s, ListedLangs;
  }

  /** Writing a database gives a well-formed file of that database: reading it back
      gives the database. */
  lemma DatabaseWritten(d: Database, m: MetaBlock, langIds: seq<u32>, latScale: u8, crc: bytes -> u32)
    requires Writable(d, m, langIds) && d.fields < TWO32 && d.profile < 0x100 && d.idWidth < 0x100 && latScale <= 7
    requires Fitting(SectionsOf(d, m, langIds))
    ensures var b := WriteDatabase(d, m, langIds, latScale, crc);
      WellFormed(b, false, crc) && Readable(b) && IsDatabaseOf(d, b)
  {
    hide Writable, Fitting, Finds, Numbered, Blob, DirectoryOk, WellFormed, Readable, IsDatabaseOf, ChecksumsOk,
      WriteFile, HeadLengths, TableLengths, RecordWidth, ParseHeader;
    SizesHold(d, m, langIds);
    SectionIds(d, m, langIds);
    var secs := SectionsOf(d, m, langIds);
    hide SectionsOf;
    var h0 := Header(d.profile, latScale, d.idWidth, 0);
    SectionsFound(h0, secs, crc);
    FileWritten(WriteDatabase(d, m, langIds, latScale, crc), h0.(count := |secs|), d, m, langIds, crc);
  }

  /** Opening the file of a database gives a reader of that database, in each of
      its languages. */
  method Reopen(d: Database, m: MetaBlock, langIds: seq<u32>, latScale: u8, crc: bytes -> u32, language: bytes)
    returns (r: Reader)
    requires Writable(d, m, langIds) && d.fields < TWO32 && d.profile < 0x100 && d.idWidth < 0x100 && latScale <= 7
    requires Fitting(SectionsOf(d, m, langIds)) && (language == [] || language in d.langs)
    ensures r.s == d && r.Indexed() && r.Speaking()
    ensures if language == [] then r.lang == 0 else r.s.langs[r.lang] == language
  {
    DatabaseWritten(d, m, langIds, latScale, crc);
    hide Writable, WellFormed, Readable, IsDatabaseOf, Reader.Indexed, Reader.Speaking, LangsOf, SectionsOf, Blob;
    var b := WriteDatabase(d, m, langIds, latScale, crc);
    DatabaseLangs(d, b);
    var o := OpenGEO2(b, false, crc, language);
    DatabaseUnique(d, o.value.s, b);
    return o.value;
  }

  lemma FileWritten(b: bytes, h: Header, d: Database, m: MetaBlock, langIds: seq<u32>, crc: bytes -> u32)
    requires Writable(d, m, langIds) && d.fields < TWO32 && ValidHeader(h)
    requires h.profile == d.profile && h.idWidth == d.idWidth
    requires Finds(b, h, SectionsOf(d, m, langIds)) && DirectoryOk(b, h.count) && ChecksumsOk(b, h.count, crc)
    ensures WellFormed(b, false, crc) && Readable(b) && IsDatabaseOf(d, b)
  {
    assert ParseHeader(b) == Ok(h);
    assert |Blob(d.strings, |d.strings|)| < TWO32;
    hide DirectoryOk, LengthsOk, Writable, Finds, Contains, WellFormed, IsDatabaseOf, Readable, ChecksumsOk,
      ParseHeader, SectionsOf, Blob;
    LengthsHold(b, h, d, m, langIds);
    ContentsRead(b, h, d, m, langIds);
    ContentsWritten(b, h, d, m, langIds, crc);
  }

  lemma ContentsWritten(b: bytes, h: Header, d: Database, m: MetaBlock, langIds: seq<u32>, crc: bytes -> u32)
    requires Writable(d, m, langIds) && d.fields < TWO32 && ParseHeader(b) == Ok(h)
    requires h.profile == d.profile <= 3 && h.idWidth == d.idWidth && 1 <= h.idWidth <= 4
    requires DirectoryOk(b, h.count) && ChecksumsOk(b, h.count, crc) && LengthsOk(b, h) && Contains(b, h, d, m, langIds)
    ensures WellFormed(b, false, crc) && Readable(b) && IsDatabaseOf(d, b)
  {
    hide DirectoryOk, LengthsOk, StringsOk, RecordPart, TablesOk, ExtensionsOk, Writable, Contains, Sect, MetaOf,
      WellFormed, IsDatabaseOf, Readable, RecordCount, ChecksumsOk, ParseHeader, StringIndex, AreStrings,
      ExtensionSections, Listed, SecOf;
    StringsHold(b, h, d, m, langIds);
    RecordsHold(b, h, d, m, langIds);
    TablesHold(b, h, d, m, langIds);
    ExtensionsRead(b, h, d, m, langIds);
    StringFactsOf(b, h);
    ExtensionsHold(b, h, d, m, langIds);
    DatabaseRead(b, h, d, m, langIds);
    WellFormedFrom(b, h, d.nRecords, m.ids.language, crc);
  }

  lemma WellFormedFrom(b: bytes, h: Header, nr: nat, language: u32, crc: bytes -> u32)
    requires ParseHeader(b) == Ok(h) && DirectoryOk(b, h.count) && h.profile <= 3 && 1 <= h.idWidth <= 4
    requires LengthsOk(b, h) && ChecksumsOk(b, h.count, crc)
    requires StringsOk(b, h) && RecordPart(b, h) && TablesOk(b, h.count)
    requires RecordCount(b, h) == nr > 0 && MetaOf(b, h).language == language
    requires StringIndex(U32s(Sect(b, h.count, STRIDX)), |Sect(b, h.count, STRBLOB)|)
    requires language + 1 < |Sect(b, h.count, STRIDX)| / 4 && ExtensionsOk(b, h, nr, language)
    ensures WellFormed(b, false, crc)
  {
    hide DirectoryOk, LengthsOk, StringsOk, RecordPart, TablesOk, ExtensionsOk, Sect, MetaOf, RecordCount, ChecksumsOk,
      ParseHeader, StringIndex;
  }

  lemma StringFactsOf(b: bytes, h: Header)
    requires DirectoryOk(b, h.count) && h.profile <= 3 && 1 <= h.idWidth <= 4 && LengthsOk(b, h) && StringsOk(b, h)
    ensures StringIndex(U32s(Sect(b, h.count, STRIDX)), |Sect(b, h.count, STRBLOB)|)
  {
    hide DirectoryOk, LengthsOk, StringIndex, Sect;
  }

  lemma DatabaseRead(b: bytes, h: Header, d: Database, m: MetaBlock, langIds: seq<u32>)
    requires Writable(d, m, langIds) && d.fields < TWO32 && ParseHeader(b) == Ok(h)
    requires h.profile == d.profile <= 3 && h.idWidth == d.idWidth && 1 <= h.idWidth <= 4
    requires DirectoryOk(b, h.count) && LengthsOk(b, h) && Contains(b, h, d, m, langIds)
    requires StringsOk(b, h) && MetaOf(b, h) == m.ids && RecordCount(b, h) == d.nRecords
    requires AreStrings(d.strings, Sect(b, h.count, STRIDX), Sect(b, h.count, STRBLOB))
    ensures Readable(b) && IsDatabaseOf(d, b)
  {
    assert |Blob(d.strings, |d.strings|)| < TWO32;
    hide DirectoryOk, LengthsOk, StringsOk, StringIndex, Writable, Contains, Sect, MetaOf, RecordCount, AreStrings,
      ParseHeader, IsDatabaseOf, HasExtensionsOf, ExtensionSections, LangsOf, Blob;
    StringFactsOf(b, h);
    ExtensionsRead(b, h, d, m, langIds);
    assert Readable(b);
    hide Readable;
    ExtensionsOfDatabase(b, h, d, m, langIds);
    LangsOfDatabase(b, h, d, m, langIds);
    TableSections(b, h, d, m, langIds);
    DatabaseFrom(b, h, d);
  }

  lemma ExtensionsOfDatabase(b: bytes, h: Header, d: Database, m: MetaBlock, langIds: seq<u32>)
    requires Writable(d, m, langIds) && d.fields < TWO32 && DirectoryOk(b, h.count) && h.profile == d.profile
    requires ExtensionSections(b, h, d, langIds)
    ensures HasExtensionsOf(d, b, h)
  {
    FieldFacts(d, m, langIds);
    XFieldsRead(d.fields);
    CountsRead(b, h, d, langIds);
    hide DirectoryOk, Writable, Sect, FieldsOf, LangCount, LayoutOf, Listed, PackWords, XFields, Fits, XRecordsOk,
      CheckFields, LE32;
  }

  lemma LangsOfDatabase(b: bytes, h: Header, d: Database, m: MetaBlock, langIds: seq<u32>)
    requires Writable(d, m, langIds) && d.fields < TWO32 && Readable(b) && ParseHeader(b) == Ok(h)
    requires ExtensionSections(b, h, d, langIds) && MetaOf(b, h) == m.ids
    requires StringIndex(U32s(Sect(b, h.count, STRIDX)), |Sect(b, h.count, STRBLOB)|)
    requires AreStrings(d.strings, Sect(b, h.count, STRIDX), Sect(b, h.count, STRBLOB))
    ensures LangsOf(b) == d.langs
  {
    hide DirectoryOk, LengthsOk, StringsOk, StringIndex, Writable, Sect, MetaOf, AreStrings, ListedLangs, Listed,
      ParseHeader, PackWords, XFields, LangsOk;
    LangsHold(d, m, langIds, Sect(b, h.count, STRIDX), Sect(b, h.count, STRBLOB));
  }

  lemma DatabaseFrom(b: bytes, h: Header, d: Database)
    requires ParseHeader(b) == Ok(h) && h.profile == d.profile <= 3 && h.idWidth == d.idWidth && 1 <= h.idWidth <= 4
    requires Readable(b) && RecordCount(b, h) == d.nRecords
    requires AreStrings(d.strings, Sect(b, h.count, STRIDX), Sect(b, h.count, STRBLOB))
    requires Sect(b, h.count, RECORDS) == d.records && Sect(b, h.count, V4IDX) == d.v4idx
    requires Sect(b, h.count, V4STARTS) == d.v4starts && Sect(b, h.count, V4IDS) == d.v4ids
    requires Sect(b, h.count, V6STARTS) == d.v6hi && Sect(b, h.count, V6IDS) == d.v6ids
    requires Sect(b, h.count, V6EXCIDX) == d.v6excIdx && Sect(b, h.count, V6EXCLO) == d.v6excLo
    requires HasExtensionsOf(d, b, h) && LangsOf(b) == d.langs
    ensures IsDatabaseOf(d, b)
  {
    hide DirectoryOk, LengthsOk, StringsOk, StringIndex, Sect, MetaOf, RecordCount, AreStrings, HasExtensionsOf,
      LangsOf, ParseHeader;
  }

  lemma SizesHold(d: Database, m: MetaBlock, langIds: seq<u32>)
    requires Writable(d, m, langIds)
    ensures |Blob(d.strings, |d.strings|)| < TWO32 && d.profile <= 3 && 1 <= d.idWidth <= 4
    ensures HeadLengths(d.profile, 64, 4 * |d.strings| + 4, |d.records|, |d.v4idx|)
    ensures TableLengths(d.idWidth, |d.v4starts|, |d.v4ids|, |d.v6hi|, |d.v6ids|, |d.v6excIdx|, |d.v6excLo|)
    ensures RecordWidth(d.profile) > 0 && |d.records| / RecordWidth(d.profile) == d.nRecords
  {
    hide Database.Valid, RecordsOk, IdsOf, IDWidth, LayoutOf, NamesLanguages, CheckFields, AllBelow, XRecordsOk;
    DivModUnique(|d.records|, RecordWidth(d.profile), d.nRecords, 0);
  }
}
