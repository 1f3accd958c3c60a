/** The CSV row machine (csvdb/reader.go): it checks the order of rows, splits
    them at the alias blocks and remembers decoded records. */
module CsvReaders {
  import opened Words
  import opened Addresses
  import opened Clipping
  import opened Ranges
  import opened CsvScan
  import opened CsvRecords
  import opened CsvRows
  import opened CsvRuns

  /** The ranges handed to the build, by family (internal/build AddRange). */
  class Builder {
    var v4: seq<Item>
    var v6: seq<Item>

    constructor ()
      ensures v4 == [] && v6 == []
    {
      v4, v6 := [], [];
    }

    method AddRange(f: Addr, l: Addr, id: u32) returns (ok: bool)
      modifies this
      ensures ok <==> IsRange(f.Unmap(), l.Unmap())
      ensures v4 == old(v4) + if ok && f.Unmap().V4? then [Item(Block(f.Unmap().a, l.Unmap().a), id)] else []
      ensures v6 == old(v6) + if ok && f.Unmap().V6? then [Item(Block(f.Unmap().b, l.Unmap().b), id)] else []
    {
      var first, last := f.Unmap(), l.Unmap();
      if !first.IsValid() || !last.IsValid() || first.Is4() != last.Is4() {
        return false;
      }
      if last.Less(first) {
        return false;
      }
      if first.Is4() {
        v4 := v4 + [Item(Block(first.a, last.a), id)];
      } else {
        v6 := v6 + [Item(Block(first.b, last.b), id)];
      }
      return true;
    }
  }

  lemma MappedMeaning(b: u128)
    ensures V6(b).Is4In6() <==> MAPPED.Holds(b)
    ensures MAPPED.Holds(b) ==> V6(b).Unmap() == V4(b - MAPPED.first)
  {
    if MAPPED.Holds(b) {
      DivModUnique(b, TWO32, 0xFFFF, b - MAPPED.first);
    }
  }

  /** end4 and end6 are the last addresses handed to the build. */
  ghost predicate EndIs(items: seq<Item>, end: Addr, six: bool) {
    if items == [] then end.NoAddr?
    else if six then end.V6? && end.b == items[|items| - 1].range.last
    else end.V4? && end.a == items[|items| - 1].range.last
  }

  /** The ranges of a build and the ends of their families. */
  datatype State = State(v4: seq<Item>, v6: seq<Item>, end4: Addr, end6: Addr)

  ghost predicate Ends(s: State) {
    EndIs(s.v4, s.end4, false) && EndIs(s.v6, s.end6, true)
  }

  /** What add does with a row: it succeeds exactly when the row's IPv4 piece is
      above the last IPv4 address, and then the build gets exactly its pieces. */
  ghost predicate Emitted(r: Stored, s0: State, s: State, ok: bool)
    requires IsRange(r.first, r.last)
  {
    && Ends(s)
    && (ok <==> Room(s0.end4, Pieces4(r)))
    && s.v4 == s0.v4 + (if ok then Pieces4(r) else [])
    && (ok ==> s.v6 == s0.v6 + Pieces6(r))
  }

  /** A range can be added above an end. */
  ghost predicate Above(end: Addr, first: Addr) {
    end.IsValid() ==> end.Less(first)
  }

  /** An end lies below every piece of a row of the family. */
  ghost predicate Room(end: Addr, items: seq<Item>) {
    items == [] || end.NoAddr? || (end.V4? && end.a < items[0].range.first)
  }

  /** Every remembered id is the one its row would get if it were decoded afresh. */
  ghost predicate Memo(s: Source, ids: map<bytes, u32>)
    requires s.b.l.Valid()
  {
    forall row: seq<bytes> :: |row| == s.b.l.cols && KeyOf(s.b, row) in ids ==>
                                RecordOf(s.b, row).Some? && ids[KeyOf(s.b, row)] == s.intern(RecordOf(s.b, row).value)
  }

  ghost function KeyOf(b: Build, row: seq<bytes>): bytes
    requires b.l.Valid() && |row| == b.l.cols
  {
    KeyColsIn(b);
    Key(KeyCols(b), row)
  }

  /** The key of the columns from i on. */
  ghost function KeyFrom(cols: seq<nat>, i: nat, row: seq<bytes>): bytes
    requires i <= |cols| && ColumnsIn(cols, |row|)
  {
    Key(cols[i..], row)
  }

  /** Column i is next in a key made from the left. */
  lemma KeyStep(done: bytes, cols: seq<nat>, i: nat, row: seq<bytes>)
    requires i < |cols| && ColumnsIn(cols, |row|)
    ensures cols[i] < |row|
    ensures done + KeyFrom(cols, i, row) == done + Uvarint(|row[cols[i]]|) + row[cols[i]] + KeyFrom(cols, i + 1, row)
  {
    var rest := cols[i..];
    assert rest[0] == cols[i] && rest[1..] == cols[i + 1..];
    hide Uvarint;
    var u, v, w := Uvarint(|row[cols[i]]|), row[cols[i]], KeyFrom(cols, i + 1, row);
    assert done + (u + v + w) == done + u + v + w;
  }

  lemma KeyEnds(cols: seq<nat>, row: seq<bytes>)
    requires ColumnsIn(cols, |row|)
    ensures KeyFrom(cols, 0, row) == Key(cols, row) && KeyFrom(cols, |cols|, row) == []
  {
    assert cols[0..] == cols;
  }

  lemma MemoAdds(s: Source, ids: map<bytes, u32>, row: seq<bytes>)
    requires s.b.l.Valid() && Memo(s, ids) && |row| == s.b.l.cols && RecordOf(s.b, row).Some?
    ensures Memo(s, ids[KeyOf(s.b, row) := s.intern(RecordOf(s.b, row).value)])
  {
    var more := ids[KeyOf(s.b, row) := s.intern(RecordOf(s.b, row).value)];
    forall r: seq<bytes> | |r| == s.b.l.cols && KeyOf(s.b, r) in more
      ensures RecordOf(s.b, r).Some? && more[KeyOf(s.b, r)] == s.intern(RecordOf(s.b, r).value)
    {
      if KeyOf(s.b, r) == KeyOf(s.b, row) {
        KeyColsIn(s.b);
        SameKeySameRecord(s.b, r, row);
      }
    }
  }

  class CsvReader {
    const src: Source
    const bld: Builder
    const keyCols: seq<nat>
    var ids: map<bytes, u32>
    var rec: CsvRecord
    var prev4: Addr
    var prev6: Addr
    var end4: Addr
    var end6: Addr
    ghost var seen: seq<seq<bytes>>

    /** The rows seen so far are accepted, and the build holds what they store. */
    ghost predicate Valid()
      reads this, bld
    {
      && src.b.l.Valid() && keyCols == KeyCols(src.b)
      && Accepted(src, seen)
      && bld.v4 == All4(Kept(src, seen)) && bld.v6 == All6(Kept(src, seen))
      && EndIs(bld.v4, end4, false) && EndIs(bld.v6, end6, true)
      && prev4 == Latest(src, seen, false) && prev6 == Latest(src, seen, true)
      && Memo(src, ids)
    }

    ghost function Now(): State
      reads this, bld
    {
      State(bld.v4, bld.v6, end4, end6)
    }

    constructor (s: Source)
      requires s.b.l.Valid()
      ensures Valid() && src == s && seen == [] && fresh(bld)
    {
      src, keyCols := s, KeyCols(s.b);
      bld := new Builder();
      ids, rec, seen := map[], EMPTY, [];
      prev4, prev6, end4, end6 := NoAddr, NoAddr, NoAddr, NoAddr;
    }

    /** addr: an address in text or, in a decimal layout, as a number. */
    method ParseAddr(f: bytes) returns (a: Option<Addr>)
      ensures a == AddrOf(src, f)
    {
      if !src.b.l.decimal {
        match src.parseAddr(f) {
          case None => return None;
          case Some(x) => return Some(x);
        }
      }
      var hi, lo, ok := ParseUint128(f);
      if !ok {
        return None;
      }
      if src.v6 {
        return Some(V6(hi * TWO64 + lo));
      }
      if hi != 0 || lo > TWO32 - 1 {
        return None;
      }
      return Some(V4(lo));
    }

    /** bounds: the range of a row, both addresses of one family and in order. */
    method Bounds(row: seq<bytes>) returns (r: Option<(Addr, Addr)>)
      requires |row| >= 2
      ensures r.Some? <==> AddrOf(src, row[0]).Some? && AddrOf(src, row[1]).Some?
                           && IsRange(AddrOf(src, row[0]).value, AddrOf(src, row[1]).value)
      ensures r.Some? ==> r.value == (AddrOf(src, row[0]).value, AddrOf(src, row[1]).value)
    {
      var first := ParseAddr(row[0]);
      if first.None? {
        return None;
      }
      var last := ParseAddr(row[1]);
      if last.None? {
        return None;
      }
      if first.value.Is4() != last.value.Is4() || last.value.Less(first.value) {
        return None;
      }
      return Some((first.value, last.value));
    }

    /** fill: rec becomes the record of the row. */
    method Fill(row: seq<bytes>) returns (ok: bool)
      requires src.b.l.Valid() && |row| == src.b.l.cols
      modifies this`rec
      ensures ok <==> RecordOf(src.b, row).Some?
      ensures ok ==> RecordOf(src.b, row) == Some(rec)
    {
      var l, profile := src.b.l, src.b.profile;
      rec := EMPTY;
      if profile.AsnDb? {
        var n, good := ParseUint32(Value(l, row, l.asNum));
        if !good {
          return false;
        }
        rec := rec.(asNumber := n, organization := Value(l, row, l.asOrg));
        return true;
      }
      rec := rec.(continent := Value(l, row, l.continent), country := Value(l, row, l.country),
                  countryName := Value(l, row, l.countryName));
      if profile.HasRegion() {
        rec := rec.(region := Value(l, row, l.region));
      }
      if !profile.City? {
        return true;
      }
      rec := rec.(city := Value(l, row, l.city));
      if src.b.withPostal {
        rec := rec.(postal := Value(l, row, l.postal));
      }
      var lat, lon := Value(l, row, l.lat), Value(l, row, l.lon);
      if lat == [] && lon == [] {
        return true;
      }
      if lat == [] || lon == [] {
        return false;
      }
      var x := src.b.parseCoord(lat, 90);
      if x.None? {
        return false;
      }
      var y := src.b.parseCoord(lon, 180);
      if y.None? {
        return false;
      }
      rec := rec.(location := At(x.value, y.value));
      return true;
    }

    /** The row's key: the lengths and bytes of its key columns. */
    method MakeKey(row: seq<bytes>) returns (key: bytes)
      requires src.b.l.Valid() && keyCols == KeyCols(src.b) && |row| == src.b.l.cols
      ensures key == KeyOf(src.b, row)
    {
      KeyColsIn(src.b);
      KeyEnds(keyCols, row);
      hide KeyCols, Key, KeyFrom, Uvarint, ColumnsIn;
      key := [];
      for i := 0 to |keyCols|
        invariant key + KeyFrom(keyCols, i, row) == Key(keyCols, row)
      {
        KeyStep(key, keyCols, i, row);
        var c := keyCols[i];
        key := key + Uvarint(|row[c]|) + row[c];
      }
    }

    /** addRange: both ends IPv4, or both IPv6 and not IPv4-mapped. */
    method AddRange(first: Addr, last: Addr, id: u32) returns (ok: bool)
      requires IsRange(first, last) && !first.Is4In6() && !last.Is4In6()
      requires Ends(Now())
      modifies this`end4, this`end6, bld
      ensures ok <==> Above(if first.V4? then old(end4) else old(end6), first)
      ensures bld.v4 == old(bld.v4) + if ok && first.V4? then [Item(Block(first.a, last.a), id)] else []
      ensures bld.v6 == old(bld.v6) + if ok && first.V6? then [Item(Block(first.b, last.b), id)] else []
      ensures end4 == (if ok && first.V4? then last else old(end4))
      ensures end6 == (if ok && first.V6? then last else old(end6))
      ensures Ends(Now())
    {
      var end := if first.Is4() then end4 else end6;
      if end.IsValid() && !end.Less(first) {
        return false;
      }
      if first.Is4() {
        end4 := last;
      } else {
        end6 := last;
      }
      ok := bld.AddRange(first, last, id);
    }

    /** add: the pieces of a range outside the alias blocks, and its mapped part as
        IPv4. It fails exactly when the IPv4 piece is not above the last one. */
    method Add(first: Addr, last: Addr, id: u32) returns (ok: bool)
      requires IsRange(first, last) && Ends(Now()) && (first.V6? ==> Above(end6, first))
      modifies this`end4, this`end6, bld
      ensures Emitted(Stored(first, last, id), old(Now()), Now(), ok)
    {
      if first.Is4() {
        ok := AddRange(first, last, id);
        assert Pieces4(Stored(first, last, id)) == [Item(Block(first.a, last.a), id)];
        assert EndIs(old(bld.v4), old(end4), false);
      } else {
        ok := Split(first.b, last.b, id);
      }
    }

    /** The IPv6 case: the loop over the alias blocks. */
    method Split(f: u128, l: u128, id: u32) returns (ok: bool)
      requires f <= l && Above(end6, V6(f)) && Ends(Now())
      modifies this`end4, this`end6, bld
      ensures Emitted(Stored(V6(f), V6(l), id), old(Now()), Now(), ok)
    {
      hide Going, Final, Emitted, Cut, Ends, ALIASES;
      ghost var r, s0 := Stored(V6(f), V6(l), id), Now();
      var cur: u128 := f;
      GoingStart(r, s0);
      for k := 0 to |ALIASES|
        invariant Going(r, s0, k, cur, Now())
      {
        GoingNext(r, s0, k, cur, Now());
        var blk := ALIASES[k];
        if l < blk.first {
          break;
        }
        if blk.last < cur {
          continue;
        }
        ghost var s := Now();
        ok := CutAlias(k, cur, l, id);
        GoingCut(r, s0, k, cur, s, Now(), ok);
        if !ok {
          return;
        }
        if l <= blk.last {
          return true;
        }
        cur := blk.last + 1;
      }
      FinalEmits(r, s0, cur, Now());
      ghost var s := Now();
      ok := AddRange(V6(cur), V6(l), id);
      assert Now() == State(s.v4, s.v6 + [Item(Block(cur, l), id)], s.end4, V6(l));
    }

    /** The range at an alias block it reaches: the piece before the block, and the
        part in the mapped block as IPv4. */
    method CutAlias(k: nat, cur: u128, l: u128, id: u32) returns (ok: bool)
      requires k < |ALIASES| && cur <= l && ALIASES[k].first <= l && cur <= ALIASES[k].last
      requires (k >= 2 ==> MAPPED.last < cur) && Ends(Now()) && Above(end6, V6(cur))
      modifies this`end4, this`end6, bld
      ensures Cut(k, cur, l, id, old(Now()), Now(), ok)
    {
      assert !end4.V6?;
      hide ALIASES, MAPPED, MappedPart, Room, Ends, Cut;
      var blk := ALIASES[k];
      ghost var s := Now();
      AliasBounds(k);
      var at: u128 := cur;
      if cur < blk.first {
        MappedMeaning(cur);
        MappedMeaning(blk.first - 1);
        var above := AddRange(V6(cur), V6(blk.first - 1), id);
        assert Now() == State(s.v4, s.v6 + [Item(Block(cur, blk.first - 1), id)], s.end4, V6(blk.first - 1));
        at := blk.first;
      }
      ghost var s1 := Now();
      CutFirst(k, cur, l, id, s, s1);
      ok := true;
      if k == 1 {
        var to: u128 := Min(l, blk.last);
        MappedOne(cur, l, id, end4);
        ok := AddRange(V6(at).Unmap(), V6(to).Unmap(), id);
        assert ok ==> Now() == State(s1.v4 + Label(MappedPart(cur, l), id), s1.v6, V6(to).Unmap(), s1.end6);
        assert !ok ==> Now() == s1;
        CutSecond(cur, l, id, s, s1, Now(), ok);
      }
    }

    /** The id of the row's record, decoded only when no row with its key came
        before: always the id that decoding this row would give. */
    method IdOf(row: seq<bytes>) returns (ok: bool, id: u32)
      requires src.b.l.Valid() && keyCols == KeyCols(src.b) && |row| == src.b.l.cols && Memo(src, ids)
      modifies this`ids, this`rec
      ensures Memo(src, ids)
      ensures ok <==> RecordOf(src.b, row).Some?
      ensures ok ==> id == src.intern(RecordOf(src.b, row).value)
    {
      hide Memo, RecordOf;
      id := 0;
      var key := MakeKey(row);
      if key !in ids {
        ok := Fill(row);
        if !ok {
          return;
        }
        MemoAdds(src, ids, row);
        ids := ids[key := src.intern(rec)];
      }
      MemoRead(src, ids, row);
      return true, ids[key];
    }

    /** row: a row is accepted exactly when the run up to and with it is, and then
        the build holds what that run stores. */
    method Row(row: seq<bytes>) returns (ok: bool)
      requires Valid()
      modifies this, bld
      ensures ok <==> Accepted(src, old(seen) + [row])
      ensures ok ==> Valid() && seen == old(seen) + [row]
    {
      hide Accepted, Latest, Kept, All4, All6, Memo, EndIs, LineOf, Pieces4, Pieces6, Room, RecordOf;
      Judge(src, seen, row, Now());
      var l := src.b.l;
      if |row| != l.cols {
        LineMeaning(src, row);
        return false;
      }
      var range := Bounds(row);
      LineMeaning(src, row);
      if range.None? {
        return false;
      }
      var first, last := range.value.0, range.value.1;
      var p := if first.Is6() then prev6 else prev4;
      if p.IsValid() && !p.Less(first) {
        return false;
      }
      if first.Is6() {
        prev6 := last;
      } else {
        prev4 := last;
      }
      if l.none != [] && row[NoneCol(l)] == l.none {
        seen := seen + [row];
        return true;
      }
      if Unread(first, last) {
        seen := seen + [row];
        return true;
      }
      var known, id := IdOf(row);
      if !known {
        return false;
      }
      ok := Add(first, last, id);
      if ok {
        seen := seen + [row];
      }
    }

    /** The scanner's buffer holds a copy of the line, and is split in place. */
    method Scan(line: bytes) returns (r: Split)
      ensures r == ReadLine(line)
    {
      hide ReadLine;
      var buf := new u8[|line|](k requires 0 <= k < |line| => line[k]);
      assert buf[..] == line;
      var row, err, e := SplitLine(buf);
      return if err then Rejected(e) else Fields(SlicesOf(buf[..], row));
    }

    /** The whole source: it is read to the end exactly when every line splits, there
        is a row, and the run of all its rows is accepted. */
    method ReadSource(lines: seq<bytes>) returns (ok: bool)
      requires Valid() && seen == []
      modifies this, bld
      ensures ok <==> Readable(lines) && RowsOf(lines) != [] && Accepted(src, RowsOf(lines))
      ensures ok ==> Valid() && seen == RowsOf(lines)
    {
      hide Accepted, Readable, RowsOf, ReadLine;
      NoLines();
      assert lines[..0] == [];
      var any := false;
      for i := 0 to |lines|
        invariant Valid() && Readable(lines[..i]) && seen == RowsOf(lines[..i]) && any == (seen != [])
      {
        var line := Trim(lines[i]);
        LinesStep(lines, i);
        if line == [] {
          continue;
        }
        var split := Scan(line);
        if split.Rejected? {
          return false;
        }
        var good := Row(split.fields);
        if !good {
          RunsStop(src, lines, i + 1);
          return false;
        }
        any := true;
      }
      assert lines[..|lines|] == lines;
      return any;
    }
  }

  /** A line without its line end; lines come split at LF. */
  function Trim(line: bytes): bytes {
    if line != [] && line[|line| - 1] == 0x0D then line[..|line| - 1] else line
  }

  /** One CR before the LF is not part of the line; nothing else is dropped. */
  lemma TrimExact(f: bytes)
    ensures Trim(f + [13]) == f
    ensures (f == [] || f[|f| - 1] != 13) ==> Trim(f) == f
  {
    assert (f + [13])[..|f|] == f;
  }

  /** Every line is blank or splits into fields. */
  ghost predicate Readable(lines: seq<bytes>) {
    forall k :: 0 <= k < |lines| ==> Trim(lines[k]) == [] || ReadLine(Trim(lines[k])).Fields?
  }

  /** The rows of a source; blank lines are skipped. */
  ghost function RowsOf(lines: seq<bytes>): seq<seq<bytes>> {
    if lines == [] then []
    else
      var line := Trim(lines[|lines| - 1]);
      var s := ReadLine(line);
      RowsOf(lines[..|lines| - 1]) + (if line != [] && s.Fields? then [s.fields] else [])
  }

  lemma NoLines()
    ensures Readable([]) && RowsOf([]) == []
  {
  }

  lemma LinesStep(lines: seq<bytes>, i: nat)
    requires i < |lines|
    ensures var line, before, upto := Trim(lines[i]), lines[..i], lines[..i + 1];
      var s := ReadLine(line);
      && (Readable(lines) ==> line == [] || s.Fields?)
      && (Readable(before) && (line == [] || s.Fields?) ==> Readable(upto))
      && RowsOf(upto) == RowsOf(before) + if line != [] && s.Fields? then [s.fields] else []
  {
    hide Trim, ReadLine;
    var upto := lines[..i + 1];
    assert upto[..i] == lines[..i] && upto[i] == lines[i];
    assert forall k :: 0 <= k < i ==> upto[k] == lines[..i][k];
  }

  lemma {:induction false} RowsPrefix(lines: seq<bytes>, n: nat)
    requires n <= |lines|
    ensures RowsOf(lines[..n]) <= RowsOf(lines)
    decreases |lines| - n
  {
    hide RowsOf, ReadLine, Trim;
    if n < |lines| {
      RowsPrefix(lines, n + 1);
      LinesStep(lines, n);
    } else {
      assert lines[..n] == lines;
    }
  }

  /** A source whose first rows are not accepted is not accepted. */
  lemma RunsStop(s: Source, lines: seq<bytes>, n: nat)
    requires s.b.l.Valid() && n <= |lines| && !Accepted(s, RowsOf(lines[..n]))
    ensures !Accepted(s, RowsOf(lines))
  {
    hide Accepted, RowsOf;
    RowsPrefix(lines, n);
    var m := |RowsOf(lines[..n])|;
    assert RowsOf(lines)[..m] == RowsOf(lines[..n]);
    if Accepted(s, RowsOf(lines)) {
      AcceptedPrefixes(s, RowsOf(lines), m);
    }
  }

  lemma MemoRead(s: Source, ids: map<bytes, u32>, row: seq<bytes>)
    requires s.b.l.Valid() && Memo(s, ids) && |row| == s.b.l.cols && KeyOf(s.b, row) in ids
    ensures RecordOf(s.b, row).Some? && ids[KeyOf(s.b, row)] == s.intern(RecordOf(s.b, row).value)
  {
  }

  /** LineOf, case by case. */
  lemma LineMeaning(s: Source, row: seq<bytes>)
    requires s.b.l.Valid()
    ensures LineOf(s, row).Some? ==> |row| == s.b.l.cols
    ensures |row| == s.b.l.cols ==>
      var f, l, o := AddrOf(s, row[0]), AddrOf(s, row[1]), LineOf(s, row);
      && (o.Some? ==> f.Some? && l.Some? && IsRange(f.value, l.value))
      && (f.Some? && l.Some? && IsRange(f.value, l.value) ==>
            if NoData(s.b.l, row) || Unread(f.value, l.value) then o == Some(Line(f.value, l.value, None))
            else if RecordOf(s.b, row).None? then o.None?
            else o == Some(Line(f.value, l.value, Some(s.intern(RecordOf(s.b, row).value)))))
  {
    hide RecordOf, Unread;
  }

  /** Whether one more row is accepted, and what it adds. */
  lemma Judge(s: Source, rows: seq<seq<bytes>>, row: seq<bytes>, now: State)
    requires s.b.l.Valid() && Accepted(s, rows) && Ends(now)
    requires now.v4 == All4(Kept(s, rows)) && now.v6 == All6(Kept(s, rows))
    ensures var o, more := LineOf(s, row), rows + [row];
      && (o.None? ==> !Accepted(s, more))
      && (o.Some? ==>
            var p := Latest(s, rows, o.value.first.Is6());
            && (Accepted(s, more) <==>
                  (p.IsValid() ==> p.Less(o.value.first)) && (Stores(o) ==> Room(now.end4, Pieces4(StoredOf(o)))))
            && ((p.IsValid() ==> p.Less(o.value.first)) && o.value.first.V6? ==> Above(now.end6, o.value.first))
            && All4(Kept(s, more)) == now.v4 + Own4(o) && All6(Kept(s, more)) == now.v6 + Own6(o)
            && forall six ::
                 Latest(s, more, six) == if o.value.first.Is6() == six then o.value.last else Latest(s, rows, six))
  {
    hide LineOf, Kept, All4, All6, Latest;
    var o, more := LineOf(s, row), rows + [row];
    assert more[|rows|] == row && forall k :: 0 <= k < |rows| ==> more[k] == rows[k];
    KeptStep(s, rows, row);
    LatestStep(s, rows, row, true);
    LatestStep(s, rows, row, false);
    if o.Some? {
      LatestDecides(s, rows, row);
      SixInOrder(s, rows);
      if Stores(o) {
        RoomInOrder(now.v4, now.end4, StoredOf(o));
      }
    }
  }

  lemma RoomInOrder(items: seq<Item>, end: Addr, r: Stored)
    requires InOrder(items, 0, MAX4) && EndIs(items, end, false) && IsRange(r.first, r.last)
    ensures InOrder(items + Pieces4(r), 0, MAX4) <==> Room(end, Pieces4(r))
  {
    PiecesInOrder(r);
    var p := Pieces4(r);
    var c := items + p;
    if p == [] {
      assert c == items;
    } else if items != [] {
      assert c[|items| - 1] == items[|items| - 1] && c[|items|] == p[0];
    }
  }

  // ---- what add has left to do ----------------------------------------------------------

  /** The state of add's loop at alias k, with cur to l left. */
  ghost predicate Going(r: Stored, s0: State, k: nat, cur: int, s: State) {
    && r.first.V6? && r.last.V6? && r.first.b <= cur <= r.last.b && k <= |ALIASES|
    && Ends(s) && Above(s.end6, V6(cur)) && (k >= 2 ==> MAPPED.last < cur)
    && s.v6 + Pending6(k, cur, r.last.b, r.id) == s0.v6 + Pieces6(r)
    && (k <= 1 ==> s.v4 == s0.v4 && s.end4 == s0.end4 && Pending4(k, cur, r.last.b, r.id) == Pieces4(r))
    && (k >= 2 ==> s.v4 == s0.v4 + Pieces4(r) && Room(s0.end4, Pieces4(r)))
  }

  /** Only the piece cur to l is left. */
  ghost predicate Final(r: Stored, s0: State, cur: int, s: State) {
    && r.first.V6? && r.last.V6? && r.first.b <= cur <= r.last.b
    && Ends(s) && Above(s.end6, V6(cur)) && !MAPPED.Holds(cur) && !MAPPED.Holds(r.last.b)
    && s.v6 + [Item(Block(cur, r.last.b), r.id)] == s0.v6 + Pieces6(r)
    && s.v4 == s0.v4 + Pieces4(r) && Room(s0.end4, Pieces4(r))
  }

  /** What is done at an alias block the range reaches. */
  ghost predicate Cut(k: nat, cur: int, l: int, id: u32, s: State, s': State, ok: bool)
    requires k < |ALIASES|
  {
    var blk := ALIASES[k];
    && Ends(s') && 0 <= blk.last < MAX6 && Above(s'.end6, V6(blk.last + 1))
    && (k != 1 ==> ok && s'.end4 == s.end4)
    && (k == 1 ==> (ok <==> Room(s.end4, Label(MappedPart(cur, l), id))))
    && s'.v4 == s.v4 + (if ok && k == 1 then Label(MappedPart(cur, l), id) else [])
    && s'.v6 == s.v6 + (if cur < blk.first then [Item(Block(cur, blk.first - 1), id)] else [])
  }

  /** The piece before the block comes first, then the mapped part. */
  lemma CutFirst(k: nat, cur: int, l: int, id: u32, s: State, s1: State)
    requires k < |ALIASES| && 0 <= cur <= ALIASES[k].last && Ends(s1) && Above(s.end6, V6(cur))
    requires var blk := ALIASES[k];
      var piece := Item(Block(cur, blk.first - 1), id);
      s1 == if 0 <= cur < blk.first then State(s.v4, s.v6 + [piece], s.end4, V6(blk.first - 1)) else s
    ensures k != 1 ==> Cut(k, cur, l, id, s, s1, true)
    ensures s1.end4 == s.end4 && s1.v4 == s.v4 && 0 <= ALIASES[k].last < MAX6 && Above(s1.end6, V6(ALIASES[k].last + 1))
    ensures s1.v6 == s.v6 + (if cur < ALIASES[k].first then [Item(Block(cur, ALIASES[k].first - 1), id)] else [])
  {
    AliasBounds(k);
    hide ALIASES, MAPPED, MappedPart, Room, Ends;
  }

  lemma CutSecond(cur: int, l: int, id: u32, s: State, s1: State, s2: State, ok: bool)
    requires Ends(s2) && s1.end4 == s.end4 && s1.v4 == s.v4 && s2.end6 == s1.end6 && s2.v6 == s1.v6
    requires 0 <= ALIASES[1].last < MAX6 && Above(s1.end6, V6(ALIASES[1].last + 1))
    requires s1.v6 == s.v6 + (if cur < ALIASES[1].first then [Item(Block(cur, ALIASES[1].first - 1), id)] else [])
    requires ok <==> Room(s.end4, Label(MappedPart(cur, l), id))
    requires s2.v4 == if ok then s.v4 + Label(MappedPart(cur, l), id) else s.v4
    ensures Cut(1, cur, l, id, s, s2, ok)
  {
    hide ALIASES, MAPPED, MappedPart, Room, Ends;
  }

  lemma GoingStart(r: Stored, s: State)
    requires IsRange(r.first, r.last) && r.first.V6? && Ends(s) && Above(s.end6, r.first)
    ensures Going(r, s, 0, r.first.b, s)
  {
    PendingAll(r);
  }

  lemma GoingNext(r: Stored, s0: State, k: nat, cur: int, s: State)
    requires k < |ALIASES| && Going(r, s0, k, cur, s)
    ensures r.last.b < ALIASES[k].first ==> Final(r, s0, cur, s)
    ensures ALIASES[k].last < cur ==> Going(r, s0, k + 1, cur, s)
    ensures (k >= 2 ==> MAPPED.last < cur) && Ends(s) && Above(s.end6, V6(cur))
    ensures cur <= r.last.b && 0 <= ALIASES[k].last
  {
    hide Pending4, Pending6, Pieces4, Pieces6, Room, Ends, Above, MappedPart;
    Cases6(k, cur, r.last.b, r.id);
    Cases4(k, cur, r.last.b, r.id, s0.end4);
  }

  lemma GoingCut(r: Stored, s0: State, k: nat, cur: int, s: State, s': State, ok: bool)
    requires k < |ALIASES| && Going(r, s0, k, cur, s) && ALIASES[k].first <= r.last.b && cur <= ALIASES[k].last
    requires Cut(k, cur, r.last.b, r.id, s, s', ok)
    ensures !ok || r.last.b <= ALIASES[k].last ==> Emitted(r, s0, s', ok)
    ensures ok && ALIASES[k].last < r.last.b ==> Going(r, s0, k + 1, ALIASES[k].last + 1, s')
  {
    hide Pending4, Pending6, Pieces4, Pieces6, Room, Ends, Above, MappedPart;
    Cases6(k, cur, r.last.b, r.id);
    Cases4(k, cur, r.last.b, r.id, s0.end4);
  }

  lemma FinalEmits(r: Stored, s0: State, cur: int, s: State)
    requires Final(r, s0, cur, s) || Going(r, s0, |ALIASES|, cur, s)
    ensures r.last.V6? && 0 <= cur <= r.last.b && Ends(s) && Above(s.end6, V6(cur))
    ensures !V6(cur).Is4In6() && !r.last.Is4In6()
    ensures Emitted(r, s0, State(s.v4, s.v6 + [Item(Block(cur, r.last.b), r.id)], s.end4, r.last), true)
  {
    hide Pending4, Pending6, Pieces4, Pieces6, Room;
    PendingLast(cur, r.last.b, r.id);
    MappedMeaning(cur);
    MappedMeaning(r.last.b);
  }

  /** The IPv6 pieces still to come at alias k. */
  ghost function Pending6(k: nat, f: int, l: int, id: u32): seq<Item>
    requires k <= |ALIASES|
  {
    Label(Parts(ALIASES[k..], f, l), id)
  }

  ghost function Pending4(k: nat, f: int, l: int, id: u32): seq<Item> {
    if k <= 1 then Label(MappedPart(f, l), id) else []
  }

  lemma PendingAll(r: Stored)
    requires IsRange(r.first, r.last) && r.first.V6?
    ensures Pending6(0, r.first.b, r.last.b, r.id) == Pieces6(r)
    ensures Pending4(0, r.first.b, r.last.b, r.id) == Pieces4(r)
  {
    assert ALIASES[0..] == ALIASES;
  }

  lemma PendingLast(f: int, l: int, id: u32)
    ensures Pending6(|ALIASES|, f, l, id) == [Item(Block(f, l), id)]
  {
    assert ALIASES[|ALIASES|..] == [];
  }

  /** The cases of add's loop at alias k. */
  lemma Cases6(k: nat, f: int, l: int, id: u32)
    requires k < |ALIASES| && f <= l
    ensures var a, left := ALIASES[k], Pending6(k, f, l, id);
      && (a.last < f ==> left == Pending6(k + 1, f, l, id))
      && (l < a.first ==> left == [Item(Block(f, l), id)])
      && (a.first <= l && f <= a.last ==>
            left == (if f < a.first then [Item(Block(f, a.first - 1), id)] else [])
                    + (if l <= a.last then [] else Pending6(k + 1, a.last + 1, l, id)))
  {
    var a, blocks := ALIASES[k], ALIASES[k..];
    assert blocks[0] == a && blocks[1..] == ALIASES[k + 1..];
    var right := if l <= a.last then [] else Parts(blocks[1..], a.last + 1, l);
    var p := Block(f, a.first - 1);
    assert [] + right == right;
    LabelFirst(p, right, id);
    assert Label([Block(f, l)], id) == [Item(Block(f, l), id)];
  }

  lemma Cases4(k: nat, f: int, l: int, id: u32, end: Addr)
    requires k < |ALIASES| && f <= l && (k >= 2 ==> MAPPED.last < f)
    ensures var a, left := ALIASES[k], Pending4(k, f, l, id);
      && (a.last < f ==> left == Pending4(k + 1, f, l, id))
      && (l < a.first ==> left == [] && Room(end, left))
      && (a.last < f && k == 1 ==> left == [] && Room(end, left))
      && (a.first <= l && f <= a.last && k == 0 ==> left == Pending4(1, a.last + 1, l, id))
      && (a.first <= l && f <= a.last && k != 1 && l <= a.last ==> left == [] && Room(end, left))
      && (k == 1 ==> left == Label(MappedPart(f, l), id))
  {
    assert ALIASES[0] == COMPAT && ALIASES[1] == MAPPED;
  }

  lemma AliasBounds(k: nat)
    requires k < |ALIASES|
    ensures 0 <= ALIASES[k].first <= ALIASES[k].last < MAX6 && (k == 0 ==> ALIASES[k].first == 0)
    ensures (k == 1 ==> ALIASES[k] == MAPPED) && (k >= 2 ==> MAPPED.last < ALIASES[k].first)
  {
  }

  lemma MappedOne(f: u128, l: u128, id: u32, end: Addr)
    requires f <= MAPPED.last && MAPPED.first <= l && f <= l && !end.V6?
    ensures 0 <= MAPPED.first <= MAPPED.last < TWO128
    ensures var a: u128, z: u128 := Max(f, MAPPED.first), Min(l, MAPPED.last);
      && V6(a).Unmap().V4? && V6(z).Unmap().V4? && a <= z
      && var b := Block(V6(a).Unmap().a, V6(z).Unmap().a);
      && b.first <= b.last && Label(MappedPart(f, l), id) == [Item(b, id)]
      && (Room(end, Label(MappedPart(f, l), id)) <==> Above(end, V6(a).Unmap()))
  {
    MappedMeaning(Max(f, MAPPED.first));
    MappedMeaning(Min(l, MAPPED.last));
  }
}
