/** Opening a GEO2 file: parseGEO2 (geo2.go) accepts exactly the well-formed
    files, and every table of an accepted file can be searched unchecked. */
module Geo2Files {
  import opened Words
  import opened Ids
  import opened Boundaries
  import opened XLayouts
  import opened Geo2Directory
  import opened Geo2Records
  import opened Geo2Tables

  /** The bytes of section id, empty when it is absent. */
  ghost function Sect(b: bytes, n: nat, id: nat): (s: bytes)
    requires DirectoryOk(b, n) && Known(id)
    ensures |s| == SecOf(b, n, id).n
  {
    SectionsDisjoint(b, n, id, id);
    var s := SecOf(b, n, id);
    b[s.off..s.off + s.n]
  }

  // ---- the rules of docs/FORMAT.md -------------------------------------------------

  /** Rule 3: the section lengths. */
  ghost predicate LengthsOk(b: bytes, h: Header)
    requires DirectoryOk(b, h.count) && h.profile <= 3 && 1 <= h.idWidth <= 4
  {
    var n := id => if Known(id) then SecOf(b, h.count, id).n else 0;
    && HeadLengths(h.profile, n(META), n(STRIDX), n(RECORDS), n(V4IDX))
    && TableLengths(h.idWidth, n(V4STARTS), n(V4IDS), n(V6STARTS), n(V6IDS), n(V6EXCIDX), n(V6EXCLO))
  }

  predicate HeadLengths(profile: nat, meta: nat, strIdx: nat, records: nat, v4idx: nat)
    requires profile <= 3
  {
    meta == 64 && strIdx >= 4 && strIdx % 4 == 0 && records % RecordWidth(profile) == 0 && v4idx == 262148
  }

  predicate TableLengths(idw: nat, v4starts: nat, v4ids: nat, v6starts: nat, v6ids: nat, excIdx: nat, excLo: nat) {
    && v4starts % 2 == 0 && v4ids == v4starts / 2 * idw
    && v6starts % 8 == 0 && v6ids == v6starts / 8 * idw
    && excIdx % 4 == 0 && excLo == excIdx / 4 * 8
  }

  /** Rule 4: the checksum of every listed section, known or not. */
  ghost predicate ChecksumsOk(b: bytes, n: nat, crc: bytes -> u32)
    requires DirectoryOk(b, n)
  {
    forall k :: 0 <= k < n ==> ChecksumAt(b, n, k, crc)
  }

  ghost predicate ChecksumAt(b: bytes, n: nat, k: nat, crc: bytes -> u32)
    requires DirectoryOk(b, n) && k < n
  {
    var e := EntryAt(b, n, k);
    assert Placed(b, n, k);
    crc(b[e.off..e.off + e.len]) == e.crc
  }

  /** Rule 9's and 12's counts, rule 10's presence and rule 11's length. */
  ghost predicate ExtensionShape(b: bytes, h: Header, nRecords: nat)
    requires DirectoryOk(b, h.count)
  {
    var n := h.count;
    var hasF, hasX, hasL := Listed(b, n, XFIELDS), Listed(b, n, XRECORDS), Listed(b, n, LANGS);
    var xf, xr, langs := Sect(b, n, XFIELDS), Sect(b, n, XRECORDS), Sect(b, n, LANGS);
    && !(h.profile == ASN && (hasF || hasX || hasL))
    && hasF == hasX && (hasL ==> hasF)
    && (hasF ==>
      && |xf| == 8 && LE32(xf, 4) == 0 && CheckFields(h.profile, LE32(xf, 0))
      && (hasL ==> |langs| % 4 == 0 && |langs| / 4 >= 2)
      && |xr| == nRecords * LayoutOf(h.profile, LE32(xf, 0), LangCount(b, n)).width)
  }

  ghost function LangCount(b: bytes, n: nat): (c: nat)
    requires DirectoryOk(b, n)
    ensures c >= 1
  {
    if Listed(b, n, LANGS) && |Sect(b, n, LANGS)| >= 8 then |Sect(b, n, LANGS)| / 4 else 1
  }

  ghost function FieldsOf(b: bytes, n: nat): nat
    requires DirectoryOk(b, n)
  {
    if Listed(b, n, XFIELDS) && |Sect(b, n, XFIELDS)| >= 4 then LE32(Sect(b, n, XFIELDS), 0) else 0
  }

  /** Rule 9's newer field set: the extension sections may be present and XFIELDS
      has its size and zero word, but a bit this revision does not define. */
  ghost predicate UnknownFieldSet(b: bytes, h: Header)
    requires DirectoryOk(b, h.count)
  {
    var xf := Sect(b, h.count, XFIELDS);
    && h.profile != ASN && Listed(b, h.count, XFIELDS) && Listed(b, h.count, XRECORDS)
    && |xf| == 8 && LE32(xf, 4) == 0 && LE32(xf, 0) >= 0x100
  }

  ghost predicate ExtensionsOk(b: bytes, h: Header, nRecords: nat, language: u32)
    requires DirectoryOk(b, h.count) && nRecords > 0
    requires var idx := Sect(b, h.count, STRIDX);
      StringIndex(U32s(idx), |Sect(b, h.count, STRBLOB)|) && language + 1 < |idx| / 4
  {
    var n := h.count;
    var idx, blob := Sect(b, n, STRIDX), Sect(b, n, STRBLOB);
    var l := LayoutOf(h.profile, FieldsOf(b, n), LangCount(b, n));
    && ExtensionShape(b, h, nRecords)
    && (Listed(b, n, LANGS) ==> LangsOk(U32s(Sect(b, n, LANGS)), idx, blob, language))
    && (Listed(b, n, XFIELDS) ==>
          (LayoutFits(l, h.profile, FieldsOf(b, n), LangCount(b, n));
           XRecordsOk(Sect(b, n, XRECORDS), l, FieldsOf(b, n), nRecords, |idx| / 4 - 1)))
  }

  ghost function RecordCount(b: bytes, h: Header): (n: nat)
    requires DirectoryOk(b, h.count) && h.profile <= 3 && 1 <= h.idWidth <= 4 && LengthsOk(b, h)
    ensures |Sect(b, h.count, RECORDS)| == n * RecordWidth(h.profile)
  {
    RecordRows(b, h);
    |Sect(b, h.count, RECORDS)| / RecordWidth(h.profile)
  }

  lemma RecordRows(b: bytes, h: Header)
    requires DirectoryOk(b, h.count) && h.profile <= 3 && 1 <= h.idWidth <= 4 && LengthsOk(b, h)
    ensures RecordWidth(h.profile) > 0
    ensures |Sect(b, h.count, RECORDS)| / RecordWidth(h.profile) >= 0
    ensures |Sect(b, h.count, RECORDS)| == |Sect(b, h.count, RECORDS)| / RecordWidth(h.profile) * RecordWidth(h.profile)
  {
    hide DirectoryOk, Listed, SecOf;
    assert RecordWidth(h.profile) > 0;
    hide RecordWidth;
    WholeRows(|Sect(b, h.count, RECORDS)|, RecordWidth(h.profile));
  }

  ghost function MetaOf(b: bytes, h: Header): Meta
    requires DirectoryOk(b, h.count) && h.profile <= 3 && 1 <= h.idWidth <= 4 && LengthsOk(b, h)
  {
    ParseMeta(Sect(b, h.count, META))
  }

  /** META's reserved bytes and the string half of rule 5. */
  ghost predicate StringsOk(b: bytes, h: Header)
    requires DirectoryOk(b, h.count) && h.profile <= 3 && 1 <= h.idWidth <= 4 && LengthsOk(b, h)
  {
    var idx := Sect(b, h.count, STRIDX);
    && AllZero(Sect(b, h.count, META)[44..])
    && StringIndex(U32s(idx), |Sect(b, h.count, STRBLOB)|)
    && MetaBelow(MetaOf(b, h), |idx| / 4 - 1)
  }

  /** The record half of rule 5, rule 6 and rule 13. */
  ghost predicate RecordPart(b: bytes, h: Header)
    requires DirectoryOk(b, h.count) && h.profile <= 3 && 1 <= h.idWidth <= 4 && LengthsOk(b, h)
  {
    var n, nr := h.count, RecordCount(b, h);
    RecordsSound(h.profile, h.idWidth, Sect(b, n, RECORDS), nr, |Sect(b, n, STRIDX)| / 4 - 1,
                 Sect(b, n, V4IDS), Sect(b, n, V6IDS))
  }

  /** Rules 7 and 8. */
  ghost predicate TablesOk(b: bytes, n: nat)
    requires DirectoryOk(b, n)
  {
    && Valid4(U32s(Sect(b, n, V4IDX)), U16s(Sect(b, n, V4STARTS)))
    && |Sect(b, n, V6EXCIDX)| / 4 == |Sect(b, n, V6EXCLO)| / 8
    && Valid6(U64s(Sect(b, n, V6STARTS)), U32s(Sect(b, n, V6EXCIDX)), U64s(Sect(b, n, V6EXCLO)))
  }

  /** Every rule of the reader requirements. */
  ghost predicate WellFormed(b: bytes, skipCRC: bool, crc: bytes -> u32) {
    ParseHeader(b).Ok? &&
    var h := ParseHeader(b).value;
    && DirectoryOk(b, h.count) && LengthsOk(b, h)
    && (skipCRC || ChecksumsOk(b, h.count, crc))
    && StringsOk(b, h) && RecordPart(b, h) && TablesOk(b, h.count)
    && ExtensionsOk(b, h, RecordCount(b, h), MetaOf(b, h).language)
  }

  lemma WholeRows(n: nat, w: nat)
    requires w > 0 && n % w == 0
    ensures n == n / w * w
  {
  }

  /** The start counts fit their types: V6STARTS and V6IDS are disjoint, so the
      input holds at least nine bytes per IPv6 boundary. */
  lemma CountsBounded(b: bytes, h: Header)
    requires |b| <= MAX_FILE && DirectoryOk(b, h.count) && h.profile <= 3 && 1 <= h.idWidth <= 4 && LengthsOk(b, h)
    ensures SecOf(b, h.count, V4STARTS).n / 2 < 0x8000_0000
    ensures SecOf(b, h.count, V6STARTS).n / 8 < MAX_V6
  {
    var s, t := SecOf(b, h.count, V6STARTS), SecOf(b, h.count, V6IDS);
    SectionsDisjoint(b, h.count, V6STARTS, V6IDS);
    SectionsDisjoint(b, h.count, V4STARTS, V4IDS);
    SectionsDisjoint(b, h.count, V6IDS, V6STARTS);
    MulMonotone(s.n / 8, 1, h.idWidth);
    assert t.n >= s.n / 8;
    assert DirEnd(h.count) >= 32;
  }

  // ---- the parser -----------------------------------------------------------------------

  class Geo2 {
    var hdr: Header
    const sec: array<Span>
    const has: array<bool>
    var meta: Meta
    var nStrings: nat
    var nRecords: nat
    var nV4: nat
    var nV6: nat
    var nExc: nat
    var fields: nat
    var xl: XLayout

    constructor (h: Header)
      ensures hdr == h && fields == 0 && fresh(sec) && fresh(has) && sec.Length == has.Length == NUM_SECTIONS
      ensures forall id :: 0 <= id < NUM_SECTIONS ==> !has[id] && sec[id] == Span(0, 0)
    {
      hdr := h;
      sec := new Span[NUM_SECTIONS](_ => Span(0, 0));
      has := new bool[NUM_SECTIONS](_ => false);
      meta := Meta(0, 0, 0, 0);
      nStrings, nRecords, nV4, nV6, nExc, fields := 0, 0, 0, 0, 0, 0;
      xl := XLayout(0, [], [], 0);
    }

    /** checkDirectory found every known section of b. */
    ghost predicate Located(b: bytes)
      reads this, sec, has
    {
      && |b| <= MAX_FILE && hdr.profile <= 3 && 1 <= hdr.idWidth <= 4
      && sec.Length == has.Length == NUM_SECTIONS
      && DirectoryOk(b, hdr.count)
      && forall id: nat :: Known(id) ==> (has[id] <==> Listed(b, hdr.count, id)) && sec[id] == SecOf(b, hdr.count, id)
    }

    function Bytes(b: bytes, id: nat): (s: bytes)
      requires Located(b) && Known(id)
      reads this, sec, has
      ensures s == Sect(b, hdr.count, id)
    {
      SectionsDisjoint(b, hdr.count, id, id);
      b[sec[id].off..sec[id].off + sec[id].n]
    }

    /** checkLengths derived the counts. */
    ghost predicate Counted(b: bytes)
      requires Located(b)
      reads this, sec, has
    {
      && LengthsOk(b, hdr)
      && nStrings == sec[STRIDX].n / 4 - 1 && nRecords == sec[RECORDS].n / RecordWidth(hdr.profile)
      && nV4 == sec[V4STARTS].n / 2 && nV6 == sec[V6STARTS].n / 8 && nExc == sec[V6EXCIDX].n / 4
    }

    method CheckLengths(ghost b: bytes) returns (ok: bool)
      requires Located(b)
      modifies this`nStrings, this`nRecords, this`nV4, this`nV6, this`nExc
      ensures Located(b) && (ok <==> LengthsOk(b, hdr))
      ensures ok ==> Counted(b)
    {
      hide DirectoryOk, Listed, SecOf;
      var idw: nat, rw := hdr.idWidth, RecordWidth(hdr.profile);
      if sec[META].n != 64 { return false; }
      if sec[STRIDX].n < 4 || sec[STRIDX].n % 4 != 0 { return false; }
      if sec[RECORDS].n % rw != 0 { return false; }
      if sec[V4IDX].n != 262148 { return false; }
      if sec[V4STARTS].n % 2 != 0 { return false; }
      if sec[V4IDS].n != sec[V4STARTS].n / 2 * idw { return false; }
      if sec[V6STARTS].n % 8 != 0 { return false; }
      if sec[V6IDS].n != sec[V6STARTS].n / 8 * idw { return false; }
      if sec[V6EXCIDX].n % 4 != 0 { return false; }
      if sec[V6EXCLO].n != sec[V6EXCIDX].n / 4 * 8 { return false; }
      nStrings := sec[STRIDX].n / 4 - 1;
      nRecords := sec[RECORDS].n / rw;
      nV4 := sec[V4STARTS].n / 2;
      nV6 := sec[V6STARTS].n / 8;
      nExc := sec[V6EXCIDX].n / 4;
      return true;
    }

    method CheckChecksums(b: bytes, crc: bytes -> u32) returns (ok: bool)
      requires Located(b)
      ensures ok <==> ChecksumsOk(b, hdr.count, crc)
    {
      hide LE32, LE64;
      for k := 0 to hdr.count
        invariant forall j :: 0 <= j < k ==> ChecksumAt(b, hdr.count, j, crc)
      {
        var e := ParseDirEntry(b, HEADER_SIZE + k * 24);
        assert e == EntryAt(b, hdr.count, k) && Placed(b, hdr.count, k);
        if crc(b[e.off..e.off + e.len]) != e.crc {
          assert !ChecksumAt(b, hdr.count, k, crc);
          return false;
        }
      }
      return true;
    }
  
    /** The XRECORDS layout and field sets that checkExtensions derived. */
    ghost predicate Extended(b: bytes)
      requires Located(b)
      reads this, sec, has
    {
      fields == FieldsOf(b, hdr.count) && xl == LayoutOf(hdr.profile, fields, LangCount(b, hdr.count))
    }

    /** The entry width in uint64, which cannot wrap: there are fewer than 2^28
        records and 2^30 languages. */
    method EntryBytes(base: XLayout, nLangs: nat) returns (want: u64)
      requires base.width < 256 && |base.kinds| <= 7 && 1 <= nLangs < 0x2000_0001 && nRecords < 0x1000_0000
      ensures want == nRecords * (base.width + (nLangs - 1) * 3 * |base.kinds|)
    {
      MulMonotone((nLangs - 1) * 3, |base.kinds|, 7);
      assert (nLangs - 1) * 3 * |base.kinds| <= (nLangs - 1) * 3 * 7;
      var w: u64 := base.width + (nLangs - 1) * 3 * |base.kinds|;
      assert w < 0x4_0000_0000;
      MulMonotone(nRecords, w, 0x4_0000_0000);
      want := w * nRecords;
    }

    /** Rules 10, 9, the LANGS count and the XRECORDS length: the number of
        languages, 1 without LANGS. */
    method CheckShape(b: bytes) returns (v: Result<nat>)
      requires Located(b) && Counted(b)
      ensures v.Ok? <==> ExtensionShape(b, hdr, nRecords)
      ensures v.Ok? ==> v.value == LangCount(b, hdr.count)
      ensures v.Err? ==> v.error == if UnknownFieldSet(b, hdr) then UnsupportedVersion else Corrupt
    {
      hide DirectoryOk, Listed, SecOf, LengthsOk, IsLayout, LE32, HasField, Counted, RecordWidth;
      var p: nat := hdr.profile;
      var hasF, hasX, hasL := has[XFIELDS], has[XRECORDS], has[LANGS];
      if p == ASN && (hasF || hasX || hasL) { return Err(Corrupt); }
      if hasF != hasX { return Err(Corrupt); }
      if hasL && !hasF { return Err(Corrupt); }
      if !hasF { return Ok(1); }
      var xf := Bytes(b, XFIELDS);
      if |xf| != 8 { return Err(Corrupt); }
      var fs := LE32(xf, 0);
      if LE32(xf, 4) != 0 { return Err(Corrupt); }
      if fs >= 0x100 { return Err(UnsupportedVersion); }
      if !CheckFields(p, fs) { return Err(Corrupt); }
      var langs := Bytes(b, LANGS);
      var nLangs := 1;
      if hasL {
        if |langs| % 4 != 0 { return Err(Corrupt); }
        nLangs := |langs| / 4;
        if nLangs < 2 { return Err(Corrupt); }
      }
      var base := NewXLayout(p, fs, 1);
      BaseLayout(base, p, fs, nLangs);
      RecordsFew(b);
      var want := EntryBytes(base, nLangs);
      return if |Bytes(b, XRECORDS)| != want then Err(Corrupt) else Ok(nLangs);
    }

    method CheckExtensions(b: bytes) returns (v: Result<()>)
      requires Located(b) && Counted(b) && nRecords > 0 && fields == 0
      requires StringIndex(U32s(Sect(b, hdr.count, STRIDX)), |Sect(b, hdr.count, STRBLOB)|) && meta.language < nStrings
      modifies this`fields, this`xl
      ensures Located(b) && Counted(b)
      ensures v.Ok? <==> ExtensionsOk(b, hdr, nRecords, meta.language)
      ensures v.Ok? ==> Extended(b)
      ensures v.Err? ==> v.error == if UnknownFieldSet(b, hdr) then UnsupportedVersion else Corrupt
    {
      hide DirectoryOk, Listed, SecOf, LengthsOk, StringIndex, IsLayout, LE32, HasField, XRecordsOk, LangsOk,
        UnknownFieldSet, ExtensionShape, LayoutOf;
      var p: nat := hdr.profile;
      var shape := CheckShape(b);
      if shape.Err? {
        return Err(shape.error);
      }
      var nLangs := shape.value;
      ShapeFields(b);
      var fs := if has[XFIELDS] then LE32(Bytes(b, XFIELDS), 0) else 0;
      fields := fs;
      xl := NewXLayout(p, fs, nLangs);
      LayoutUnique(xl, p, fs, nLangs);
      LayoutFits(xl, p, fs, nLangs);
      assert Located(b) && Counted(b) && Extended(b);
      var good := true;
      if has[LANGS] {
        good := CheckLangs(Bytes(b, LANGS), Bytes(b, STRIDX), Bytes(b, STRBLOB), meta.language);
      }
      if good && has[XFIELDS] {
        good := CheckXRecords(Bytes(b, XRECORDS), xl, fs, nRecords, nStrings);
      }
      return if good then Ok(()) else Err(Corrupt);
    }

    lemma ShapeFields(b: bytes)
      requires Located(b) && ExtensionShape(b, hdr, nRecords)
      ensures FieldsOf(b, hdr.count) == if has[XFIELDS] then LE32(Sect(b, hdr.count, XFIELDS), 0) else 0
      ensures has[XFIELDS] ==> |Sect(b, hdr.count, XFIELDS)| == 8
      ensures !UnknownFieldSet(b, hdr)
      ensures has[LANGS] ==> |Sect(b, hdr.count, LANGS)| / 4 >= 2
      ensures has[XFIELDS] ==>
        |Sect(b, hdr.count, XRECORDS)| ==
        nRecords * LayoutOf(hdr.profile, FieldsOf(b, hdr.count), LangCount(b, hdr.count)).width
    {
      hide DirectoryOk, SecOf;
    }

    lemma RecordsFew(b: bytes)
      requires Located(b) && Counted(b)
      ensures hdr.profile != ASN ==> nRecords < 0x1000_0000
      ensures |Sect(b, hdr.count, LANGS)| / 4 <= 0x2000_0000
    {
      hide DirectoryOk, Listed, SecOf, LengthsOk;
      SectionsDisjoint(b, hdr.count, RECORDS, RECORDS);
      SectionsDisjoint(b, hdr.count, LANGS, LANGS);
      var w := RecordWidth(hdr.profile);
      if hdr.profile != ASN {
        assert w >= 10;
        MulMonotone(0x1000_0000, 10, w);
        DivBelow(sec[RECORDS].n, 0x1000_0000, w);
      }
    }
  }

  /** Rules 4 to 8 of a located, counted file. */
  ghost predicate ContentsOk(b: bytes, h: Header, skipCRC: bool, crc: bytes -> u32)
    requires DirectoryOk(b, h.count) && h.profile <= 3 && 1 <= h.idWidth <= 4 && LengthsOk(b, h)
  {
    (skipCRC || ChecksumsOk(b, h.count, crc)) && StringsOk(b, h) && RecordPart(b, h) && TablesOk(b, h.count)
  }

  method CheckMeta(g: Geo2, b: bytes) returns (ok: bool)
    requires g.Located(b) && g.Counted(b)
    modifies g`meta
    ensures g.Located(b) && g.Counted(b)
    ensures ok <==> StringsOk(b, g.hdr)
    ensures ok ==> g.meta == MetaOf(b, g.hdr)
  {
    hide DirectoryOk, Listed, SecOf, LengthsOk, StringIndex, LE32, LE64, AllZero, MetaBelow, ParseMeta;
    LengthFacts(b, g.hdr);
    var zero := ReservedZero(g.Bytes(b, META));
    if !zero { return false; }
    g.meta := ParseMeta(g.Bytes(b, META));
    ok := CheckStrings(g.Bytes(b, STRIDX), g.sec[STRBLOB].n, g.meta);
  }

  method CheckTables(g: Geo2, b: bytes) returns (ok: bool)
    requires g.Located(b) && g.Counted(b)
    ensures ok <==> TablesOk(b, g.hdr.count)
  {
    hide DirectoryOk, Listed, SecOf, LengthsOk, Valid4, Valid6, LE16, LE32, LE64;
    CountsBounded(b, g.hdr);
    LengthFacts(b, g.hdr);
    ok := CheckIPv4(g.Bytes(b, V4IDX), g.Bytes(b, V4STARTS));
    if !ok { return; }
    ok := CheckIPv6(g.Bytes(b, V6STARTS), g.Bytes(b, V6EXCIDX), g.Bytes(b, V6EXCLO));
  }

  method CheckContents(g: Geo2, b: bytes, skipCRC: bool, crc: bytes -> u32) returns (ok: bool)
    requires g.Located(b) && g.Counted(b)
    modifies g`meta
    ensures g.Located(b) && g.Counted(b)
    ensures ok <==> ContentsOk(b, g.hdr, skipCRC, crc)
    ensures ok ==> g.meta == MetaOf(b, g.hdr)
  {
    hide DirectoryOk, Listed, SecOf, LengthsOk, StringsOk, ChecksumsOk, RecordsOk, TablesOk, IDWidth, RecordWidth,
      LE32, AllBelow, IdsOf;
    if !skipCRC {
      ok := g.CheckChecksums(b, crc);
      if !ok { return; }
    }
    ok := CheckMeta(g, b);
    if !ok { return; }
    LengthFacts(b, g.hdr);
    ok := CheckRecords(g.hdr.profile, g.hdr.idWidth, g.Bytes(b, RECORDS), g.nRecords, g.nStrings,
                       g.Bytes(b, V4IDS), g.Bytes(b, V6IDS));
    if !ok { return; }
    ok := CheckTables(g, b);
  }

  /** ParseMeta's check of the reserved bytes. */
  method ReservedZero(m: bytes) returns (ok: bool)
    requires |m| == 64
    ensures ok <==> AllZero(m[44..])
  {
    if k :| 44 <= k < |m| && m[k] != 0 {
      assert m[44..][k - 44] != 0;
      return false;
    }
    return true;
  }

  lemma LengthFacts(b: bytes, h: Header)
    requires DirectoryOk(b, h.count) && h.profile <= 3 && 1 <= h.idWidth <= 4 && LengthsOk(b, h)
    ensures |Sect(b, h.count, META)| == 64
    ensures |Sect(b, h.count, STRIDX)| >= 4 && |Sect(b, h.count, STRIDX)| % 4 == 0
    ensures |Sect(b, h.count, V4IDX)| == 262148
    ensures |Sect(b, h.count, V6EXCIDX)| / 4 == |Sect(b, h.count, V6EXCLO)| / 8
    ensures |Sect(b, h.count, RECORDS)| == |Sect(b, h.count, RECORDS)| / RecordWidth(h.profile) * RecordWidth(h.profile)
    ensures Count(|Sect(b, h.count, V4IDS)|, h.idWidth) == |Sect(b, h.count, V4STARTS)| / 2
    ensures Count(|Sect(b, h.count, V6IDS)|, h.idWidth) == |Sect(b, h.count, V6STARTS)| / 8
  {
    hide DirectoryOk, Listed, SecOf;
    RecordRows(b, h);
  }

  /** The error class of a file that is not well formed: a newer version, or a
      newer field set in a file that passes every check made before that one, is
      unsupported; anything else with the magic is corrupt. */
  ghost function ParseError(b: bytes, skipCRC: bool, crc: bytes -> u32): Error {
    if !HasMagic(b) then BadMagic
    else if |b| >= HEADER_SIZE && b[4] != 2 then UnsupportedVersion
    else if ParseHeader(b).Ok? && NewerFields(b, ParseHeader(b).value, skipCRC, crc) then UnsupportedVersion
    else Corrupt
  }

  ghost predicate NewerFields(b: bytes, h: Header, skipCRC: bool, crc: bytes -> u32) {
    && DirectoryOk(b, h.count) && h.profile <= 3 && 1 <= h.idWidth <= 4 && LengthsOk(b, h)
    && ContentsOk(b, h, skipCRC, crc) && UnknownFieldSet(b, h)
  }

  /** parseGEO2. */
  method ParseGEO2(b: bytes, skipCRC: bool, crc: bytes -> u32) returns (r: Result<Geo2>)
    requires |b| <= MAX_FILE
    ensures r.Ok? <==> WellFormed(b, skipCRC, crc)
    ensures r.Ok? ==> var g := r.value;
      && fresh(g) && g.Located(b) && g.Counted(b) && g.Extended(b)
      && g.hdr == ParseHeader(b).value && g.meta == MetaOf(b, g.hdr)
    ensures r.Err? ==> r.error == ParseError(b, skipCRC, crc)
  {
    hide DirectoryOk, Listed, SecOf, LengthsOk, StringsOk, RecordPart, TablesOk, ChecksumsOk, ExtensionsOk,
      UnknownFieldSet, MetaOf, RecordCount;
    var head := ParseHeader(b);
    if head.Err? {
      return Err(head.error);
    }
    var g := new Geo2(head.value);
    var ok := CheckDirectory(b, g.hdr.count, g.has, g.sec);
    if !ok { return Err(Corrupt); }
    ok := g.CheckLengths(b);
    if !ok { return Err(Corrupt); }
    ok := CheckContents(g, b, skipCRC, crc);
    if !ok { return Err(Corrupt); }
    ContentFacts(g, b);
    var x := g.CheckExtensions(b);
    if x.Err? { return Err(x.error); }
    return Ok(g);
  }

  lemma ContentFacts(g: Geo2, b: bytes)
    requires g.Located(b) && g.Counted(b) && StringsOk(b, g.hdr) && RecordPart(b, g.hdr) && g.meta == MetaOf(b, g.hdr)
    ensures g.nRecords == RecordCount(b, g.hdr) > 0
    ensures StringIndex(U32s(Sect(b, g.hdr.count, STRIDX)), |Sect(b, g.hdr.count, STRBLOB)|)
    ensures g.meta.language < g.nStrings
  {
    hide DirectoryOk, Listed, SecOf;
  }

  lemma BaseLayout(base: XLayout, p: nat, fs: nat, nLangs: nat)
    requires nLangs >= 1 && IsLayout(base, p, fs, 1)
    ensures base.width < 256 && |base.kinds| <= 7
    ensures LayoutOf(p, fs, nLangs).width == base.width + (nLangs - 1) * 3 * |base.kinds|
  {
    hide HasField;
    KindsMeaning(p, fs, NUM_KINDS);
  }
}
