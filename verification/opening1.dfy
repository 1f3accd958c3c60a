/** From the bytes of a GEO1 file to a Reader (geo1.go openGEO1): the converted
    database answers every lookup as the GEO1 tables did. */
module OpeningGeo1 {
  import opened Words
  import opened Ids
  import opened Addresses
  import opened Boundaries
  import opened XLayouts
  import opened Geo1Format
  import opened Geo1Parse
  import opened Geo1Tables
  import opened Geo2Directory
  import opened Geo2Records
  import opened Databases
  import opened Details
  import opened Packing
  import opened Renumber
  import opened Transcode
  import opened Readers

  /** The answer of the GEO1 tables, by their flat lists of starts. */
  ghost function FlatAnswer(d: Geo1, ip: Addr): u32
    requires |d.ids4| / 4 == |d.starts4| / 4 && |d.ids6| / 4 == |d.starts6| / 16
  {
    if ip == NoAddr then 0
    else match KeyOf4(ip)
      case Some(a) => Answer(Flat4(d.starts4), U32s(d.ids4), a)
      case None => Answer(Flat6(d.starts6), U32s(d.ids6), ip.b)
  }

  /** The converted database is valid and holds the tables of d. */
  ghost predicate Keeps(db: Database, d: Geo1) {
    && WellFormed(d) && db.Valid() && db.ValidRecords()
    && db.profile == d.profile && db.nRecords == d.rc && db.idWidth == IDWidth(d.rc)
    && db.S4() == Flat4(d.starts4) && db.Ids4() == U32s(d.ids4)
    && db.S6() == Flat6(d.starts6) && db.Ids6() == U32s(d.ids6)
    && forall i :: 1 <= i < d.rc ==> Decode(db, i) == FlatRecord(d, i)
  }

  /** transcode preserves meaning: every address keeps its answer, and every
      covered one its record. */
  lemma LookupsKept(r: Reader, d: Geo1, ip: Addr)
    requires Keeps(r.s, d)
    ensures r.AnswerOf(ip) == FlatAnswer(d, ip) < d.rc && r.s.profile != ASN
    ensures r.AnswerOf(ip) != 0 ==>
      && IsRecord(r.s, r.AnswerOf(ip))
      && LocalRecord(r.s, 0, r.AnswerOf(ip)) == FlatRecord(d, FlatAnswer(d, ip))
  {
    hide Flat4, Flat6, Ascending, IdsBelow, Answer, Database.Valid, Decode, FlatRecord;
    if r.AnswerOf(ip) != 0 {
      r.AnswerIsRecord(ip);
      r.PrimaryNames(r.AnswerOf(ip));
    }
  }

  /** The tables are pieces of the input, so it bounds their counts. */
  lemma TablesFit(d: Geo1)
    requires WellFormed(d) && |Encode(d)| <= MAX_FILE
    ensures |d.starts4| / 4 < 0x8000_0000 && |d.starts6| / 16 < MAX_V6
  {
  }

  /** transcode fails only when the used strings outnumber their ids. */
  method TranscodeGEO1(p: Parsed) returns (r: Result<Reader>)
    requires p.Located() && WellFormed(p.View()) && Encode(p.View()) == p.b && |p.b| <= MAX_FILE
    ensures r.Ok? <==> StringsFit(p.recs, p.rc, p.profile, |p.strOff|)
    ensures r.Err? ==> r.error == TooLarge
    ensures r.Ok? ==> Keeps(r.value.s, p.View()) && r.value.Indexed() && r.value.Separate()
    ensures r.Ok? ==> fresh(r.value) && fresh(r.value.nameOff)
    ensures r.Ok? ==> r.value.nameOff.Length == NUM_KINDS && r.value.s.langs == []
  {
    hide Flat4, Flat6, Ascending, IdsBelow, Encode, Starts4, Starts6, Valid4, Valid6, IDWidth, Renumbering,
      StringsFit, IdsOf, U32s;
    ghost var d := p.View();
    TablesFit(d);
    var ids := RenumberStrings(p.recs, p.rc, p.profile, |p.strOff|);
    if ids.Err? {
      return Err(TooLarge);
    }
    var newID, next := ids.value.0, ids.value.1;
    ghost var used := Used(p.recs, p.rc, p.profile, |newID|, StringFields(p.profile));
    NumberedUsed(p.recs, p.rc, p.profile, newID, next);
    var strs := BuildStrings(p, newID, next, used);
    var recs := PackRecords(p.recs, p.rc, p.profile, newID);
    var idw := IDWidth(p.rc);
    var v4idx, v4starts := SplitStarts4(p.starts4);
    var v4ids := NarrowIds(p.ids4, p.rc);
    var v6hi, v6excIdx, v6excLo := SplitStarts6(p.starts6);
    var v6ids := NarrowIds(p.ids6, p.rc);
    var db := Database(p.profile, idw, strs, recs, p.rc, v4idx, v4starts, v4ids, v6hi, v6ids, v6excIdx, v6excLo,
                       0, [], XLayout(0, seq(NUM_FIELDS, _ => 0), [], 0), []);
    assert HoldsRecords(db, d, newID, next);
    ConvertedKeeps(db, d, newID, next);
    var reader := new Reader(db);
    return Ok(reader);
  }

  lemma NumberedUsed(recs: bytes, rc: nat, profile: nat, newID: seq<nat>, next: nat)
    requires Rows(recs, rc, profile) && profile <= 2 && Renumbering(recs, rc, profile, newID, next)
    ensures Numbered(newID, next, Used(recs, rc, profile, |newID|, StringFields(profile)))
  {
  }

  lemma ConvertedKeeps(db: Database, d: Geo1, newID: seq<nat>, next: nat)
    requires WellFormed(d) && HoldsRecords(db, d, newID, next)
    requires db.idWidth == IDWidth(d.rc) && db.xl.width == 0 && db.langs == []
    requires Valid4(U32s(db.v4idx), U16s(db.v4starts)) && Starts4(U32s(db.v4idx), U16s(db.v4starts)) == Flat4(d.starts4)
    requires |db.v6excIdx| / 4 == |db.v6excLo| / 8
    requires Valid6(U64s(db.v6hi), U32s(db.v6excIdx), U64s(db.v6excLo))
    requires Starts6(U64s(db.v6hi), U32s(db.v6excIdx), U64s(db.v6excLo)) == Flat6(d.starts6)
    requires IdsOf(db.v4ids, db.idWidth) == U32s(d.ids4) && |db.v4ids| == Size(|d.ids4| / 4, db.idWidth)
    requires IdsOf(db.v6ids, db.idWidth) == U32s(d.ids6) && |db.v6ids| == Size(|d.ids6| / 4, db.idWidth)
    ensures Keeps(db, d)
  {
    hide Ascending, PackRow, PackedOf, Renumbering, Row, RecordWidth, AllZero, RecordStrings, ReadID,
      IDWidth, Decode, FlatRecord, RecordsOk, HoldsRecords, LE16, LE32, LE64;
    HeldBasics(db, d, newID, next);
    PackedAreValid(db, d, newID, next);
    assert |Flat4(d.starts4)| == |d.starts4| / 4 && |Flat6(d.starts6)| == |d.starts6| / 16;
    assert db.Valid();
    assert AllBelow(IdsOf(db.v4ids, db.idWidth), db.nRecords) && AllBelow(IdsOf(db.v6ids, db.idWidth), db.nRecords);
    assert db.ValidRecords();
    forall i | 1 <= i < d.rc
      ensures Decode(db, i) == FlatRecord(d, i)
    {
      RecordsKept(db, d, newID, next, i);
    }
  }

  lemma HeldBasics(db: Database, d: Geo1, newID: seq<nat>, next: nat)
    requires HoldsRecords(db, d, newID, next)
    ensures db.profile == d.profile <= 2 && db.nRecords == d.rc >= 1 && |db.strings| > 0 && db.strings[0] == []
    ensures |db.records| == db.nRecords * RecordWidth(db.profile)
  {
  }

  /** The one database an encoding is of (Geo1Parse.EncodingIsRead). */
  ghost function DatabaseIn(b: bytes): (d: Geo1)
    requires IsEncoding(b)
    ensures WellFormed(d) && Encode(d) == b
  {
    var d :| WellFormed(d) && Encode(d) == b;
    d
  }

  /** Transcoding has ids for all the strings of the records. */
  ghost predicate Convertible(d: Geo1)
    requires WellFormed(d)
  {
    StringsFit(d.recs, d.rc, d.profile, |d.strings|)
  }

  /** The class of the first check that fails. */
  ghost function OpenError(b: bytes): Error {
    if !IsEncoding(b) then (if CheckHeader(b).Some? then CheckHeader(b).value else Corrupt)
    else if !Convertible(DatabaseIn(b)) then TooLarge
    else NoLanguage
  }

  /** openGEO1, with the Language option: it succeeds exactly on the encodings of
      databases whose strings fit, for no language, and keeps every lookup. */
  method OpenGEO1(b: bytes, language: bytes) returns (r: Result<Reader>)
    requires |b| <= MAX_FILE
    ensures r.Ok? <==> IsEncoding(b) && Convertible(DatabaseIn(b)) && language == []
    ensures r.Err? ==> r.error == OpenError(b)
    ensures r.Ok? ==> r.value.Indexed() && r.value.Speaking() && r.value.lang == 0 && r.value.s.langs == []
    ensures r.Ok? ==> Keeps(r.value.s, DatabaseIn(b))
  {
    hide WellFormed, Encode, StringsFit, Keeps, Reader.Indexed;
    var p := ParseGEO1(b);
    if p.Err? {
      return Err(p.error);
    }
    EncodingIsRead(b);
    assert p.value.View() == DatabaseIn(b);
    var t := TranscodeGEO1(p.value);
    if t.Err? {
      return t;
    }
    var reader := t.value;
    assert reader.s.ValidRecords() by { KeepsRecords(reader.s, p.value.View()); }
    var ok := reader.SetLanguage(language);
    return if ok then Ok(reader) else Err(NoLanguage);
  }

  /** Opening a GEO1 file and looking an address up in it gives what its flat
      tables say. */
  method LookupGEO1(b: bytes, ip: Addr) returns (rec: Record, ok: bool)
    requires |b| <= MAX_FILE && IsEncoding(b) && Convertible(DatabaseIn(b))
    ensures var id := FlatAnswer(DatabaseIn(b), ip);
      && ok == (id != 0) && id < DatabaseIn(b).rc
      && rec == if ok then FlatRecord(DatabaseIn(b), id) else NO_RECORD
  {
    hide IsEncoding, WellFormed, Convertible, Keeps, FlatAnswer, FlatRecord, Reader.Indexed, Reader.Speaking;
    var r := OpenGEO1(b, []);
    rec, ok := r.value.Lookup(ip);
    LookupsKept(r.value, DatabaseIn(b), ip);
  }

  lemma KeepsRecords(db: Database, d: Geo1)
    requires Keeps(db, d)
    ensures db.ValidRecords()
  {
  }
}
