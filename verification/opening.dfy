/** From the bytes of a GEO2 file to a searchable Reader (geo2.go reader,
    heapStrings, open.go openBuffer). */
module Opening {
  import opened Words
  import opened Ids
  import opened Boundaries
  import opened XLayouts
  import opened Geo2Directory
  import opened Geo2Records
  import opened Geo2Files
  import opened Databases
  import opened Readers

  /** String i is STRBLOB[STRIDX[i]:STRIDX[i+1]]. */
  ghost predicate AreStrings(strings: seq<bytes>, strIdx: bytes, blob: bytes)
    requires StringIndex(U32s(strIdx), |blob|)
  {
    && |strings| == |strIdx| / 4 - 1
    && forall i :: 0 <= i < |strings| ==> strings[i] == Str(strIdx, blob, i)
  }

  method HeapStrings(strIdx: bytes, blob: bytes) returns (strings: seq<bytes>)
    requires StringIndex(U32s(strIdx), |blob|)
    ensures AreStrings(strings, strIdx, blob)
  {
    hide LE32, Str;
    strings := [];
    ghost var idx := U32s(strIdx);
    for i := 0 to |strIdx| / 4 - 1
      invariant |strings| == i
      invariant forall j :: 0 <= j < i ==> strings[j] == Str(strIdx, blob, j)
    {
      var a, e := U32At(strIdx, i), U32At(strIdx, i + 1);
      StrIs(strIdx, blob, i);
      strings := strings + [if e > a then blob[a..e] else []];
    }
  }

  lemma StrIs(strIdx: bytes, blob: bytes, i: nat)
    requires StringIndex(U32s(strIdx), |blob|) && i + 1 < |strIdx| / 4
    ensures var idx := U32s(strIdx);
      && idx[i] <= idx[i + 1] <= |blob| && Str(strIdx, blob, i) == blob[idx[i]..idx[i + 1]]
      && (idx[i] == idx[i + 1] ==> Str(strIdx, blob, i) == [])
  {
    var idx := U32s(strIdx);
    assert idx[i + 1] <= idx[|idx| - 1];
  }

  /** The header, directory, lengths and strings are well formed. */
  ghost predicate Readable(b: bytes) {
    ParseHeader(b).Ok? && var h := ParseHeader(b).value;
    DirectoryOk(b, h.count) && LengthsOk(b, h) && StringsOk(b, h)
  }

  /** The database the sections of a well-formed file make. */
  ghost predicate IsDatabaseOf(d: Database, b: bytes)
    requires Readable(b)
  {
    var h := ParseHeader(b).value;
    var n := h.count;
    && d.profile == h.profile && d.idWidth == h.idWidth && d.nRecords == RecordCount(b, h)
    && AreStrings(d.strings, Sect(b, n, STRIDX), Sect(b, n, STRBLOB))
    && d.records == Sect(b, n, RECORDS)
    && d.v4idx == Sect(b, n, V4IDX) && d.v4starts == Sect(b, n, V4STARTS) && d.v4ids == Sect(b, n, V4IDS)
    && d.v6hi == Sect(b, n, V6STARTS) && d.v6ids == Sect(b, n, V6IDS)
    && d.v6excIdx == Sect(b, n, V6EXCIDX) && d.v6excLo == Sect(b, n, V6EXCLO)
    && HasExtensionsOf(d, b, h) && d.langs == LangsOf(b)
  }

  ghost predicate HasExtensionsOf(d: Database, b: bytes, h: Header)
    requires DirectoryOk(b, h.count)
  {
    var n := h.count;
    && d.fields == FieldsOf(b, n) && d.xrecs == Sect(b, n, XRECORDS)
    && d.xl == LayoutOf(h.profile, d.fields, LangCount(b, n))
  }

  /** String id, empty when the id is out of range. */
  ghost function StringOr(idx: bytes, blob: bytes, id: nat): bytes
    requires StringIndex(U32s(idx), |blob|)
  {
    if id + 1 < |idx| / 4 then Str(idx, blob, id) else []
  }

  /** The languages LANGS lists, else the META language. */
  ghost function ListedLangs(langs: bytes, language: nat, idx: bytes, blob: bytes): seq<bytes>
    requires StringIndex(U32s(idx), |blob|)
  {
    var ids, primary := U32s(langs), StringOr(idx, blob, language);
    if |langs| > 0 then seq(|ids|, j requires 0 <= j < |ids| => StringOr(idx, blob, ids[j]))
    else if primary != [] then [primary] else []
  }

  /** The languages of a file. */
  ghost function LangsOf(b: bytes): seq<bytes>
    requires Readable(b)
  {
    var h := ParseHeader(b).value;
    ListedLangs(Sect(b, h.count, LANGS), MetaOf(b, h).language, Sect(b, h.count, STRIDX), Sect(b, h.count, STRBLOB))
  }

  lemma LangsCount(b: bytes)
    requires Readable(b) && |LangsOf(b)| > 1
    ensures var n := ParseHeader(b).value.count;
      Listed(b, n, LANGS) && |LangsOf(b)| == |Sect(b, n, LANGS)| / 4
  {
    hide LengthsOk, StringsOk, StringOr, MetaOf, Placed, SameKnown;
    SectListed(b, ParseHeader(b).value.count, LANGS);
  }

  /** A file makes one database. */
  lemma DatabaseUnique(d: Database, e: Database, b: bytes)
    requires Readable(b) && IsDatabaseOf(d, b) && IsDatabaseOf(e, b)
    ensures d == e
  {
    hide DirectoryOk, Listed, SecOf, LengthsOk, StringsOk, Str, LangsOf, LayoutOf;
    forall i | 0 <= i < |d.strings|
      ensures d.strings[i] == e.strings[i]
    {
    }
  }

  lemma {:induction false} NoFieldsNoBlocks(b: nat)
    requires b <= NUM_FIELDS
    ensures BlocksBelow(0, b) == 0
  {
    if b > 0 {
      NoFieldsNoBlocks(b - 1);
      DivBelow(0, 1, Pow2(b - 1));
    }
  }

  /** The database of a well-formed file is valid: no later read needs a check. */
  lemma WellFormedIsValid(d: Database, b: bytes, skipCRC: bool, crc: bytes -> u32)
    requires |b| <= MAX_FILE && WellFormed(b, skipCRC, crc) && Readable(b) && IsDatabaseOf(d, b)
    ensures d.Valid() && d.ValidRecords()
  {
    hide DirectoryOk, Listed, SecOf, LengthsOk, RecordsOk, Valid4, Valid6, IdsOf, IDWidth, LE32,
      HasExtensionsOf, ExtensionsOk, AreStrings, StringsOk, Database.ValidEntries;
    LengthFacts(b, ParseHeader(b).value);
    StringZero(d, b);
    ValidExtensions(d, b);
  }

  lemma StringZero(d: Database, b: bytes)
    requires Readable(b) && IsDatabaseOf(d, b)
    ensures |d.strings| > 0 && d.strings[0] == []
    ensures |d.strings| == |Sect(b, ParseHeader(b).value.count, STRIDX)| / 4 - 1
  {
    hide DirectoryOk, Listed, SecOf, LengthsOk, LE32, Str, HasExtensionsOf;
    var h := ParseHeader(b).value;
    StrIs(Sect(b, h.count, STRIDX), Sect(b, h.count, STRBLOB), 0);
  }

  lemma ValidExtensions(d: Database, b: bytes)
    requires Readable(b) && IsDatabaseOf(d, b)
    requires var h := ParseHeader(b).value;
      RecordPart(b, h) && ExtensionsOk(b, h, RecordCount(b, h), MetaOf(b, h).language)
    ensures d.ValidEntries()
  {
    hide Placed, SameKnown, SecOf, LengthsOk, XRecordsOk, LE32, LangsOk, CheckFields, HasField, StringIndex,
      StringsOk, LayoutOf, AreStrings, Listed, AllZero, RecordStrings, IDWidth, IdsOf, LangsOf;
    var h := ParseHeader(b).value;
    StringZero(d, b);
    if |d.langs| > 1 {
      LangsCount(b);
    }
    LayoutFits(d.xl, d.profile, d.fields, LangCount(b, h.count));
    if !Listed(b, h.count, XFIELDS) {
      EmptyLayout(d.profile);
    }
  }

  lemma EmptyLayout(profile: nat)
    ensures LayoutOf(profile, 0, 1).width == 0
  {
    NoFieldsNoBlocks(NUM_FIELDS);
  }

  /** The part of reader that lists the languages. */
  method ReadLangs(ids: bytes, language: u32, strings: seq<bytes>, ghost idx: bytes, ghost blob: bytes)
    returns (langs: seq<bytes>)
    requires StringIndex(U32s(idx), |blob|) && AreStrings(strings, idx, blob) && language < |strings|
    requires forall j :: 0 <= j < |ids| / 4 ==> U32s(ids)[j] < |strings|
    ensures langs == ListedLangs(ids, language, idx, blob)
  {
    hide Str, StringIndex, LE32;
    langs := [];
    if |ids| > 0 {
      for j := 0 to |ids| / 4
        invariant |langs| == j && forall x :: 0 <= x < j ==> langs[x] == StringOr(idx, blob, U32s(ids)[x])
      {
        langs := langs + [strings[U32At(ids, j)]];
      }
    } else if strings[language] != [] {
      langs := [strings[language]];
    }
  }

  /** reader: binds the sections of a parsed file to a Reader and indexes them. */
  method MakeReader(g: Geo2, b: bytes, ghost skipCRC: bool, ghost crc: bytes -> u32) returns (r: Reader)
    requires |b| <= MAX_FILE && WellFormed(b, skipCRC, crc) && Readable(b)
    requires g.Located(b) && g.Counted(b) && g.Extended(b)
    requires g.hdr == ParseHeader(b).value && g.meta == MetaOf(b, g.hdr)
    ensures fresh(r) && fresh(r.nameOff) && r.Indexed()
    ensures r.s.ValidRecords() && r.nameOff.Length == NUM_KINDS && r.Separate()
    ensures IsDatabaseOf(r.s, b)
  {
    hide DirectoryOk, Listed, SecOf, LengthsOk, RecordsOk, Valid4, Valid6, IdsOf, IDWidth, LE32, ExtensionsOk,
      RecordPart, TablesOk, ChecksumsOk, StringIndex, Str, ListedLangs;
    StringFacts(b);
    ContentFacts(g, b);
    var idx, blob := g.Bytes(b, STRIDX), g.Bytes(b, STRBLOB);
    var strings := HeapStrings(idx, blob);
    LangIds(g, b);
    var langs := ReadLangs(g.Bytes(b, LANGS), g.meta.language, strings, idx, blob);
    var d := Database(g.hdr.profile, g.hdr.idWidth, strings, g.Bytes(b, RECORDS), g.nRecords,
                      g.Bytes(b, V4IDX), g.Bytes(b, V4STARTS), g.Bytes(b, V4IDS),
                      g.Bytes(b, V6STARTS), g.Bytes(b, V6IDS), g.Bytes(b, V6EXCIDX), g.Bytes(b, V6EXCLO),
                      g.fields, g.Bytes(b, XRECORDS), g.xl, langs);
    SectListed(b, g.hdr.count, LANGS);
    assert IsDatabaseOf(d, b);
    WellFormedIsValid(d, b, skipCRC, crc);
    r := new Reader(d);
  }

  lemma StringFacts(b: bytes)
    requires Readable(b)
    ensures var h := ParseHeader(b).value;
      && StringIndex(U32s(Sect(b, h.count, STRIDX)), |Sect(b, h.count, STRBLOB)|)
      && MetaOf(b, h).language + 1 < |Sect(b, h.count, STRIDX)| / 4
  {
    hide DirectoryOk, Listed, SecOf, LengthsOk, StringIndex;
  }

  lemma SectListed(b: bytes, n: nat, id: nat)
    requires DirectoryOk(b, n) && Known(id)
    ensures |Sect(b, n, id)| > 0 ==> Listed(b, n, id)
  {
  }

  lemma LangIds(g: Geo2, b: bytes)
    requires Readable(b) && g.Located(b) && g.Counted(b) && g.hdr == ParseHeader(b).value && g.nRecords > 0
    requires ExtensionsOk(b, g.hdr, g.nRecords, MetaOf(b, g.hdr).language)
    ensures var langs, n := Sect(b, g.hdr.count, LANGS), |Sect(b, g.hdr.count, STRIDX)| / 4 - 1;
      forall j :: 0 <= j < |langs| / 4 ==> U32s(langs)[j] < n
  {
    hide Placed, SameKnown, LengthsOk, StringIndex, XRecordsOk, Str;
    SectListed(b, g.hdr.count, LANGS);
    var langs := Sect(b, g.hdr.count, LANGS);
    var idx, blob := Sect(b, g.hdr.count, STRIDX), Sect(b, g.hdr.count, STRBLOB);
    assert |langs| > 0 ==> LangsOk(U32s(langs), idx, blob, MetaOf(b, g.hdr).language);
  }

  /** A file has a language; "" stands for the primary one. */
  ghost predicate HasLanguage(b: bytes, language: bytes)
    requires Readable(b)
  {
    language == [] || language in LangsOf(b)
  }

  /** openBuffer for a GEO2 file, with the Language option: it succeeds exactly
      for a well-formed file that has the language, and the Reader it returns
      speaks that language and answers every lookup from that file's tables. */
  method OpenGEO2(b: bytes, skipCRC: bool, crc: bytes -> u32, language: bytes) returns (r: Result<Reader>)
    requires |b| <= MAX_FILE
    ensures r.Ok? <==> WellFormed(b, skipCRC, crc) && HasLanguage(b, language)
    ensures r.Err? ==> r.error == if WellFormed(b, skipCRC, crc) then NoLanguage else ParseError(b, skipCRC, crc)
    ensures r.Ok? ==> r.value.Indexed() && r.value.Speaking() && IsDatabaseOf(r.value.s, b)
    ensures r.Ok? ==> if language == [] then r.value.lang == 0 else r.value.s.langs[r.value.lang] == language
  {
    hide WellFormed, Readable, IsDatabaseOf, Database.Valid, Database.ValidRecords, Reader.Indexed,
      Reader.Speaking, ParseError, LangsOf;
    var g := ParseGEO2(b, skipCRC, crc);
    if g.Err? {
      return Err(g.error);
    }
    WellFormedReadable(b, skipCRC, crc);
    var reader := MakeReader(g.value, b, skipCRC, crc);
    assert reader.s.langs == LangsOf(b) by { DatabaseLangs(reader.s, b); }
    var ok := reader.SetLanguage(language);
    return if ok then Ok(reader) else Err(NoLanguage);
  }

  lemma DatabaseLangs(d: Database, b: bytes)
    requires Readable(b) && IsDatabaseOf(d, b)
    ensures d.langs == LangsOf(b)
  {
  }

  lemma WellFormedReadable(b: bytes, skipCRC: bool, crc: bytes -> u32)
    requires WellFormed(b, skipCRC, crc)
    ensures Readable(b)
  {
  }
}
