/** Which runs of CSV rows a build accepts, and what they store: the meaning of
    the row machine of csvdb/reader.go. */
module CsvRuns {
  import opened Words
  import opened Addresses
  import opened Ranges
  import opened CsvScan
  import opened CsvRecords
  import opened CsvRows

  type IP = a: Addr | a.IsValid() witness V4(0)

  /** A source: what the build reads of it, whether decimal addresses are IPv6,
      the library's address parser, and the record id the builder interns a
      record under. */
  datatype Source = Source(b: Build, v6: bool, parseAddr: bytes -> Option<IP>, intern: CsvRecord -> u32)

  /** What a well-formed row says: its range, and the id of its record unless
      the row is not stored. */
  datatype Line = Line(first: Addr, last: Addr, id: Option<u32>)

  ghost function AddrOf(s: Source, f: bytes): Option<Addr> {
    if !s.b.l.decimal then
      match s.parseAddr(f)
      case None => None
      case Some(a) => Some(a)
    else if !(1 <= |f| <= 39 && Digits(f) && Decimal(f) < TWO128) then None
    else if s.v6 then Some(V6(Decimal(f)))
    else if Decimal(f) < TWO32 then Some(V4(Decimal(f)))
    else None
  }

  /** The numeral of a number is that address: IPv6 in an IPv6 file, else IPv4, and
      none above the IPv4 range. */
  lemma NumberAddr(s: Source, n: u128)
    requires s.b.l.decimal
    ensures AddrOf(s, Numeral(n)) ==
      if s.v6 then Some(V6(n)) else if n < 0x1_0000_0000 then Some(V4(n)) else None
  {
    NumeralFits(n);
  }

  /** The column whose value marks a row without data. */
  function NoneCol(l: Layout): nat {
    if l.asn then l.asNum else l.country
  }

  predicate NoData(l: Layout, row: seq<bytes>)
    requires l.Valid() && |row| == l.cols
  {
    l.none != [] && row[NoneCol(l)] == l.none
  }

  /** A row is without data when its country, or its AS number in an ASN layout,
      is the layout's mark. */
  lemma NoDataMeaning(l: Layout, row: seq<bytes>)
    requires l.Valid() && |row| == l.cols
    ensures NoData(l, row) <==> l.none != [] && (if l.asn then row[l.asNum] == l.none else row[l.country] == l.none)
  {
  }

  /** The meaning of a row; None when it is malformed. */
  ghost function LineOf(s: Source, row: seq<bytes>): (r: Option<Line>)
    requires s.b.l.Valid()
    ensures r.Some? ==> |row| == s.b.l.cols && IsRange(r.value.first, r.value.last)
  {
    if |row| != s.b.l.cols then None
    else match (AddrOf(s, row[0]), AddrOf(s, row[1]))
      case (Some(f), Some(l)) =>
        if !IsRange(f, l) then None
        else if NoData(s.b.l, row) || Unread(f, l) then Some(Line(f, l, None))
        else (match RecordOf(s.b, row)
              case None => None
              case Some(rec) => Some(Line(f, l, Some(s.intern(rec)))))
      case _ => None
  }

  ghost predicate Stores(o: Option<Line>) {
    o.Some? && o.value.id.Some?
  }

  ghost function StoredOf(o: Option<Line>): Stored
    requires Stores(o)
  {
    Stored(o.value.first, o.value.last, o.value.id.value)
  }

  /** The rows of a run that are stored, in order. */
  ghost function Kept(s: Source, rows: seq<seq<bytes>>): (r: seq<Stored>)
    requires s.b.l.Valid()
    ensures AllRanges(r)
  {
    if rows == [] then []
    else
      var o := LineOf(s, rows[|rows| - 1]);
      Kept(s, rows[..|rows| - 1]) + (if Stores(o) then [StoredOf(o)] else [])
  }

  ghost predicate AllLines(s: Source, rows: seq<seq<bytes>>)
    requires s.b.l.Valid()
  {
    forall k :: 0 <= k < |rows| ==> LineOf(s, rows[k]).Some?
  }

  /** Rows of one family do not overlap and ascend; rows of different families
      are not compared. */
  ghost predicate Before(a: Option<Line>, b: Option<Line>) {
    a.Some? && b.Some? && a.value.first.Is6() == b.value.first.Is6() ==> a.value.last.Less(b.value.first)
  }

  ghost predicate RowsAscend(s: Source, rows: seq<seq<bytes>>)
    requires s.b.l.Valid()
  {
    forall j, k :: 0 <= j < k < |rows| ==> Before(LineOf(s, rows[j]), LineOf(s, rows[k]))
  }

  /** The runs a build accepts: every row is well-formed, the rows of each family
      ascend, and so do the IPv4 ranges once IPv4-mapped rows are IPv4. */
  ghost predicate Accepted(s: Source, rows: seq<seq<bytes>>)
    requires s.b.l.Valid()
  {
    AllLines(s, rows) && RowsAscend(s, rows) && InOrder(All4(Kept(s, rows)), 0, MAX4)
  }

  // ---- one more row ------------------------------------------------------------------

  ghost function Own4(o: Option<Line>): seq<Item>
    requires o.Some? ==> IsRange(o.value.first, o.value.last)
  {
    if Stores(o) then Pieces4(StoredOf(o)) else []
  }

  ghost function Own6(o: Option<Line>): seq<Item>
    requires o.Some? ==> IsRange(o.value.first, o.value.last)
  {
    if Stores(o) then Pieces6(StoredOf(o)) else []
  }

  lemma KeptStep(s: Source, rows: seq<seq<bytes>>, row: seq<bytes>)
    requires s.b.l.Valid()
    ensures All4(Kept(s, rows + [row])) == All4(Kept(s, rows)) + Own4(LineOf(s, row))
    ensures All6(Kept(s, rows + [row])) == All6(Kept(s, rows)) + Own6(LineOf(s, row))
  {
    var more := rows + [row];
    assert more[..|more| - 1] == rows;
    var log, o := Kept(s, rows), LineOf(s, row);
    if Stores(o) {
      var l := Kept(s, more);
      assert l[..|l| - 1] == log && l[|l| - 1] == StoredOf(o);
    } else {
      assert Kept(s, more) == log;
    }
  }

  lemma InOrderPrefix(a: seq<Item>, b: seq<Item>, f: int, l: int)
    requires InOrder(a + b, f, l)
    ensures InOrder(a, f, l)
  {
    var c := a + b;
    assert forall k :: 0 <= k < |a| ==> c[k] == a[k];
  }

  /** Every prefix of an accepted run is accepted. */
  lemma AcceptedPrefix(s: Source, rows: seq<seq<bytes>>, row: seq<bytes>)
    requires s.b.l.Valid() && Accepted(s, rows + [row])
    ensures Accepted(s, rows)
  {
    var more := rows + [row];
    assert forall k :: 0 <= k < |rows| ==> more[k] == rows[k];
    KeptStep(s, rows, row);
    InOrderPrefix(All4(Kept(s, rows)), Own4(LineOf(s, row)), 0, MAX4);
  }

  lemma {:induction false} AcceptedPrefixes(s: Source, rows: seq<seq<bytes>>, n: nat)
    requires s.b.l.Valid() && n <= |rows| && Accepted(s, rows)
    ensures Accepted(s, rows[..n])
    decreases |rows| - n
  {
    hide Accepted;
    if n < |rows| {
      AcceptedPrefixes(s, rows, n + 1);
      assert rows[..n + 1] == rows[..n] + [rows[n]];
      AcceptedPrefix(s, rows[..n], rows[n]);
    } else {
      assert rows[..n] == rows;
    }
  }

  /** The last address of the latest row of one family. */
  ghost function Latest(s: Source, rows: seq<seq<bytes>>, six: bool): (p: Addr)
    requires s.b.l.Valid()
    ensures p.IsValid() ==> p.Is6() == six
  {
    if rows == [] then NoAddr
    else
      var n, o := |rows| - 1, LineOf(s, rows[|rows| - 1]);
      if o.Some? && o.value.first.Is6() == six then o.value.last else Latest(s, rows[..n], six)
  }

  lemma LatestStep(s: Source, rows: seq<seq<bytes>>, row: seq<bytes>, six: bool)
    requires s.b.l.Valid()
    ensures Latest(s, rows + [row], six) ==
      var o := LineOf(s, row);
      if o.Some? && o.value.first.Is6() == six then o.value.last else Latest(s, rows, six)
  {
    var more := rows + [row];
    assert more[..|more| - 1] == rows;
  }

  ghost predicate NotAbove(o: Option<Line>, six: bool, p: Addr) {
    o.Some? && o.value.first.Is6() == six ==> p.IsValid() && !p.Less(o.value.last)
  }

  ghost predicate EndsAt(o: Option<Line>, six: bool, p: Addr) {
    o.Some? && o.value.first.Is6() == six && o.value.last == p
  }

  lemma AscendPrefix(s: Source, rows: seq<seq<bytes>>)
    requires s.b.l.Valid() && rows != [] && RowsAscend(s, rows)
    ensures RowsAscend(s, rows[..|rows| - 1])
  {
    var init := rows[..|rows| - 1];
    assert forall k :: 0 <= k < |init| ==> init[k] == rows[k];
  }

  /** In an ascending run the latest row of a family is its highest. */
  lemma {:induction false} LatestIsHighest(s: Source, rows: seq<seq<bytes>>, six: bool)
    requires s.b.l.Valid() && RowsAscend(s, rows)
    ensures var p := Latest(s, rows, six);
      && (forall k :: 0 <= k < |rows| ==> NotAbove(LineOf(s, rows[k]), six, p))
      && (p.IsValid() ==> exists k :: 0 <= k < |rows| && EndsAt(LineOf(s, rows[k]), six, p))
  {
    if rows != [] {
      var n := |rows| - 1;
      var init := rows[..n];
      AscendPrefix(s, rows);
      LatestIsHighest(s, init, six);
      var o, q, p := LineOf(s, rows[n]), Latest(s, init, six), Latest(s, rows, six);
      forall k | 0 <= k < |rows|
        ensures NotAbove(LineOf(s, rows[k]), six, p)
      {
        if k < n {
          assert init[k] == rows[k] && NotAbove(LineOf(s, init[k]), six, q);
          assert Before(LineOf(s, rows[k]), o);
        }
      }
      if o.Some? && o.value.first.Is6() == six {
        assert EndsAt(LineOf(s, rows[n]), six, p);
      } else if p.IsValid() {
        var k :| 0 <= k < |init| && EndsAt(LineOf(s, init[k]), six, q);
        assert EndsAt(LineOf(s, rows[k]), six, p);
      }
    }
  }

  /** Comparing a row with the latest one of its family is comparing it with all
      of them. */
  lemma LatestDecides(s: Source, rows: seq<seq<bytes>>, row: seq<bytes>)
    requires s.b.l.Valid() && RowsAscend(s, rows) && LineOf(s, row).Some?
    ensures var f := LineOf(s, row).value.first;
      var p := Latest(s, rows, f.Is6());
      RowsAscend(s, rows + [row]) <==> !p.IsValid() || p.Less(f)
  {
    var o := LineOf(s, row);
    var six := o.value.first.Is6();
    var p := Latest(s, rows, six);
    var more := rows + [row];
    LatestIsHighest(s, rows, six);
    if !p.IsValid() || p.Less(o.value.first) {
      forall j, k | 0 <= j < k < |more|
        ensures Before(LineOf(s, more[j]), LineOf(s, more[k]))
      {
        if k == |rows| {
          assert NotAbove(LineOf(s, rows[j]), six, p);
        }
      }
    } else {
      var k :| 0 <= k < |rows| && EndsAt(LineOf(s, rows[k]), six, p);
      assert more[k] == rows[k] && more[|rows|] == row;
    }
  }

  // ---- what an accepted run stores ------------------------------------------------------

  /** A row that is stored and covers an address. */
  ghost predicate RowCoversV6(s: Source, row: seq<bytes>, x: u128)
    requires s.b.l.Valid()
  {
    Stores(LineOf(s, row)) && CoversV6(StoredOf(LineOf(s, row)), x)
  }

  ghost predicate RowCoversV4(s: Source, row: seq<bytes>, a: u32)
    requires s.b.l.Valid()
  {
    Stores(LineOf(s, row)) && CoversV4(StoredOf(LineOf(s, row)), a)
  }

  /** IPv6 pieces never clash: rows in order give pieces in order. */
  lemma {:induction false} SixInOrder(s: Source, rows: seq<seq<bytes>>)
    requires s.b.l.Valid() && RowsAscend(s, rows)
    ensures var p, items := Latest(s, rows, true), All6(Kept(s, rows));
      if p.V6? then InOrder(items, 0, p.b) else items == []
  {
    if rows != [] {
      var n := |rows| - 1;
      var init, row := rows[..n], rows[n];
      assert rows == init + [row];
      AscendPrefix(s, rows);
      var o := LineOf(s, row);
      KeptStep(s, init, row);
      SixInOrder(s, init);
      if o.Some? {
        LatestDecides(s, init, row);
      }
      SixStep(All6(Kept(s, init)), o, Latest(s, init, true));
    }
  }

  lemma SixStep(items: seq<Item>, o: Option<Line>, q: Addr)
    requires o.Some? ==> IsRange(o.value.first, o.value.last)
    requires if q.V6? then InOrder(items, 0, q.b) else items == []
    requires o.Some? && o.value.first.V6? && q.V6? ==> q.Less(o.value.first)
    ensures var p := if o.Some? && o.value.first.Is6() then o.value.last else q;
      if p.V6? then InOrder(items + Own6(o), 0, p.b) else items + Own6(o) == []
  {
    if Stores(o) {
      PiecesInOrder(StoredOf(o));
    }
  }

  ghost predicate GivesV6(s: Source, row: seq<bytes>, x: u128, id: u32)
    requires s.b.l.Valid()
  {
    RowCoversV6(s, row, x) && StoredOf(LineOf(s, row)).id == id
  }

  ghost predicate GivesV4(s: Source, row: seq<bytes>, a: u32, id: u32)
    requires s.b.l.Valid()
  {
    RowCoversV4(s, row, a) && StoredOf(LineOf(s, row)).id == id
  }

  ghost predicate SomeRowV6(s: Source, rows: seq<seq<bytes>>, x: u128, id: u32)
    requires s.b.l.Valid()
  {
    exists k :: 0 <= k < |rows| && GivesV6(s, rows[k], x, id)
  }

  ghost predicate SomeRowV4(s: Source, rows: seq<seq<bytes>>, a: u32, id: u32)
    requires s.b.l.Valid()
  {
    exists k :: 0 <= k < |rows| && GivesV4(s, rows[k], a, id)
  }

  lemma SomeRowStep(s: Source, rows: seq<seq<bytes>>, x: u128, a: u32, id: u32)
    requires s.b.l.Valid() && rows != []
    ensures var init, row := rows[..|rows| - 1], rows[|rows| - 1];
      && (SomeRowV6(s, rows, x, id) <==> SomeRowV6(s, init, x, id) || GivesV6(s, row, x, id))
      && (SomeRowV4(s, rows, a, id) <==> SomeRowV4(s, init, a, id) || GivesV4(s, row, a, id))
  {
    hide GivesV6, GivesV4;
    var init := rows[..|rows| - 1];
    assert forall k :: 0 <= k < |init| ==> init[k] == rows[k];
  }

  lemma StoredStep(log: seq<Stored>, r: Stored, x: u128, a: u32, id: u32)
    ensures StoredV6(log + [r], x, id) <==> StoredV6(log, x, id) || (CoversV6(r, x) && r.id == id)
    ensures StoredV4(log + [r], a, id) <==> StoredV4(log, a, id) || (CoversV4(r, a) && r.id == id)
  {
    hide CoversV6, CoversV4;
    var l := log + [r];
    assert l[|log|] == r && forall k :: 0 <= k < |log| ==> l[k] == log[k];
  }

  lemma {:induction false} RowOfKept(s: Source, rows: seq<seq<bytes>>, x: u128, a: u32, id: u32)
    requires s.b.l.Valid()
    ensures StoredV6(Kept(s, rows), x, id) <==> SomeRowV6(s, rows, x, id)
    ensures StoredV4(Kept(s, rows), a, id) <==> SomeRowV4(s, rows, a, id)
  {
    hide StoredV6, StoredV4, SomeRowV6, SomeRowV4, CoversV6, CoversV4, LineOf;
    if rows == [] {
      NothingStored(s, x, a, id);
    } else {
      var n := |rows| - 1;
      var init, o := rows[..n], LineOf(s, rows[n]);
      RowOfKept(s, init, x, a, id);
      SomeRowStep(s, rows, x, a, id);
      if Stores(o) {
        StoredStep(Kept(s, init), StoredOf(o), x, a, id);
      } else {
        assert Kept(s, rows) == Kept(s, init);
      }
    }
  }

  lemma NothingStored(s: Source, x: u128, a: u32, id: u32)
    requires s.b.l.Valid()
    ensures !StoredV6([], x, id) && !StoredV4([], a, id)
    ensures !SomeRowV6(s, [], x, id) && !SomeRowV4(s, [], a, id)
  {
  }

  /** The build of an accepted run: ascending disjoint ranges in which an address
      has an id exactly when a row covers it and describes that record. */
  lemma AcceptedStores(s: Source, rows: seq<seq<bytes>>, x: u128, a: u32, id: u32)
    requires s.b.l.Valid() && Accepted(s, rows)
    ensures InOrder(All4(Kept(s, rows)), 0, MAX4) && InOrder(All6(Kept(s, rows)), 0, MAX6)
    ensures Has(All6(Kept(s, rows)), x, id) <==> SomeRowV6(s, rows, x, id)
    ensures Has(All4(Kept(s, rows)), a, id) <==> SomeRowV4(s, rows, a, id)
  {
    SixInOrder(s, rows);
    RunConserves(Kept(s, rows), x, a, id);
    RowOfKept(s, rows, x, a, id);
  }

  /** No two rows of an accepted run cover the same stored address. */
  lemma OneRow(s: Source, rows: seq<seq<bytes>>, j: nat, k: nat, x: u128, a: u32)
    requires s.b.l.Valid() && Accepted(s, rows) && j < k < |rows|
    ensures !(RowCoversV6(s, rows[j], x) && RowCoversV6(s, rows[k], x))
    ensures !(RowCoversV4(s, rows[j], a) && RowCoversV4(s, rows[k], a))
  {
    assert Before(LineOf(s, rows[j]), LineOf(s, rows[k]));
    if RowCoversV4(s, rows[j], a) && RowCoversV4(s, rows[k], a) {
      LaterRowClear(s, rows, j, k, a);
    }
  }

  lemma LaterRowClear(s: Source, rows: seq<seq<bytes>>, j: nat, k: nat, a: u32)
    requires s.b.l.Valid() && Accepted(s, rows) && j < k < |rows| && RowCoversV4(s, rows[j], a)
    ensures !RowCoversV4(s, rows[k], a)
  {
    hide LineOf, InOrder, Has, AllLines, RowsAscend, CoversV4, SomeRowV4, SomeRowV6, StoredV4, StoredV6,
      Kept, All4, All6, Pieces4;
    var init, row, i := rows[..k], rows[k], StoredOf(LineOf(s, rows[j])).id;
    AcceptedPrefixes(s, rows, k + 1);
    assert rows[..k + 1] == init + [row];
    KeptStep(s, init, row);
    GivesSome(s, init, j, a);
    RowOfKept(s, init, 0, a, i);
    RunConserves(Kept(s, init), 0, a, i);
    if Stores(LineOf(s, row)) {
      var o := StoredOf(LineOf(s, row));
      PiecesConserve(o, 0, a, o.id);
      InOrderApart(All4(Kept(s, init)), Pieces4(o), MAX4, a, i, o.id);
    }
  }

  lemma GivesSome(s: Source, rows: seq<seq<bytes>>, j: nat, a: u32)
    requires s.b.l.Valid() && j < |rows| && RowCoversV4(s, rows[j], a)
    ensures SomeRowV4(s, rows, a, StoredOf(LineOf(s, rows[j])).id)
  {
    assert GivesV4(s, rows[j], a, StoredOf(LineOf(s, rows[j])).id);
  }

  lemma InOrderApart(a: seq<Item>, b: seq<Item>, l: int, x: int, i: u32, j: u32)
    requires InOrder(a + b, 0, l) && Has(a, x, i)
    ensures !Has(b, x, j)
  {
    var c := a + b;
    var m :| 0 <= m < |a| && a[m].range.Holds(x) && a[m].id == i;
    assert c[m] == a[m];
    assert forall k :: 0 <= k < |b| ==> c[|a| + k] == b[k];
  }
}
