/** A GEO2 file as docs/FORMAT.md lays it out: header, directory and padded
    sections; reading it finds every section that was written. */
module Geo2Format {
  import opened Words
  import opened Geo2Directory
  import opened Geo2Files

  /** A section to write: its id and contents. */
  datatype Section = Section(id: u32, body: bytes)

  /** The contents up to the next multiple of 8. */
  function Padded(b: bytes): (p: bytes)
    ensures |p| == 8 * Units(b) && |b| <= |p| && p[..|b|] == b
  {
    b + seq(8 * Units(b) - |b|, _ => 0)
  }

  /** How many 8-byte units hold the contents. */
  function Units(b: bytes): (u: nat)
    ensures |b| <= 8 * u < |b| + 8
  {
    (|b| + 7) / 8
  }

  /** The units before section k, not counting header and directory. */
  function UnitsBefore(secs: seq<Section>, k: nat): nat
    requires k <= |secs|
  {
    if k == 0 then 0 else UnitsBefore(secs, k - 1) + Units(secs[k - 1].body)
  }

  /** Where section k starts. */
  function OffsetOf(secs: seq<Section>, k: nat): nat
    requires k <= |secs|
  {
    32 + 24 * |secs| + 8 * UnitsBefore(secs, k)
  }

  /** The first k sections, each padded. */
  function Bodies(secs: seq<Section>, k: nat): (b: bytes)
    requires k <= |secs|
    ensures |b| == 8 * UnitsBefore(secs, k)
  {
    if k == 0 then [] else Bodies(secs, k - 1) + Padded(secs[k - 1].body)
  }

  /** A file's sizes fit their fields. */
  ghost predicate Fitting(secs: seq<Section>) {
    |secs| < TWO32 && OffsetOf(secs, |secs|) <= MAX_FILE
  }

  lemma {:induction false} UnitsRise(secs: seq<Section>, j: nat, k: nat)
    requires j <= k <= |secs|
    ensures UnitsBefore(secs, j) <= UnitsBefore(secs, k)
    ensures j < k ==> UnitsBefore(secs, j) + Units(secs[j].body) <= UnitsBefore(secs, k)
    decreases k
  {
    hide Units;
    if j < k {
      UnitsRise(secs, j, k - 1);
    }
  }

  function EntryOf(secs: seq<Section>, k: nat, crc: bytes -> u32): Entry
    requires k < |secs| && Fitting(secs)
  {
    UnitsRise(secs, k, |secs|);
    Entry(secs[k].id, crc(secs[k].body), OffsetOf(secs, k), |secs[k].body|)
  }

  /** The first k directory entries. */
  function Entries(secs: seq<Section>, k: nat, crc: bytes -> u32): (b: bytes)
    requires k <= |secs| && Fitting(secs)
    ensures |b| == 24 * k
  {
    if k == 0 then [] else Entries(secs, k - 1, crc) + AppendEntry(EntryOf(secs, k - 1, crc))
  }

  function WriteFile(h: Header, secs: seq<Section>, crc: bytes -> u32): (b: bytes)
    requires Fitting(secs)
    ensures |b| == OffsetOf(secs, |secs|)
  {
    AppendHeader(h.(count := |secs|)) + Entries(secs, |secs|, crc) + Bodies(secs, |secs|)
  }

  // ---- reading it back ----------------------------------------------------------------

  lemma {:induction false} EntryPlaced(secs: seq<Section>, n: nat, k: nat, crc: bytes -> u32)
    requires k < n <= |secs| && Fitting(secs)
    ensures Entries(secs, n, crc)[24 * k..24 * k + 24] == AppendEntry(EntryOf(secs, k, crc))
  {
    hide AppendEntry, EntryOf, Fitting;
    var init, last := Entries(secs, n - 1, crc), AppendEntry(EntryOf(secs, n - 1, crc));
    if k < n - 1 {
      EntryPlaced(secs, n - 1, k, crc);
      assert (init + last)[24 * k..24 * k + 24] == init[24 * k..24 * k + 24];
    } else {
      assert (init + last)[|init|..] == last;
    }
  }

  lemma {:induction false} BodyPlaced(secs: seq<Section>, n: nat, k: nat)
    requires k < n <= |secs|
    ensures var o, w := 8 * UnitsBefore(secs, k), |secs[k].body|;
      o + w <= |Bodies(secs, n)| && Bodies(secs, n)[o..o + w] == secs[k].body
  {
    hide Padded, Units;
    var init, last := Bodies(secs, n - 1), Padded(secs[n - 1].body);
    var o, w := 8 * UnitsBefore(secs, k), |secs[k].body|;
    if k < n - 1 {
      BodyPlaced(secs, n - 1, k);
      assert (init + last)[o..o + w] == init[o..o + w];
    } else {
      assert (init + last)[o..o + w] == last[..w];
    }
  }

  /** A piece of the middle or of the end of three parts. */
  lemma PieceOfThree(a: bytes, b: bytes, c: bytes, o: nat, w: nat)
    ensures o + w <= |b| ==> (a + b + c)[|a| + o..|a| + o + w] == b[o..o + w]
    ensures o + w <= |c| ==> (a + b + c)[|a| + |b| + o..|a| + |b| + o + w] == c[o..o + w]
    ensures (a + b + c)[..|a|] == a
  {
    assert o + w <= |b| ==> (a + b + c)[|a| + o..|a| + o + w] == (b + c)[o..o + w];
  }

  /** Section k as read from the file. */
  lemma SectionWritten(h: Header, secs: seq<Section>, crc: bytes -> u32, k: nat)
    requires Fitting(secs) && k < |secs|
    ensures var b, n := WriteFile(h, secs, crc), |secs|;
      && DirEnd(n) <= |b| && EntryAt(b, n, k) == EntryOf(secs, k, crc)
      && OffsetOf(secs, k) + |secs[k].body| <= |b|
      && b[OffsetOf(secs, k)..OffsetOf(secs, k) + |secs[k].body|] == secs[k].body
  {
    UnitsRise(secs, k, |secs|);
    UnitsRise(secs, 0, |secs|);
    EntryInFile(h, secs, crc, k);
    BodyInFile(h, secs, crc, k);
    hide WriteFile, EntryAt, OffsetOf, EntryOf, Padded;
  }

  lemma EntryInFile(h: Header, secs: seq<Section>, crc: bytes -> u32, k: nat)
    requires Fitting(secs) && k < |secs| && DirEnd(|secs|) <= |WriteFile(h, secs, crc)|
    ensures EntryAt(WriteFile(h, secs, crc), |secs|, k) == EntryOf(secs, k, crc)
  {
    hide AppendEntry, AppendHeader, ParseDirEntry, EntryOf, OffsetOf;
    EntryPlaced(secs, |secs|, k, crc);
    PieceOfThree(AppendHeader(h.(count := |secs|)), Entries(secs, |secs|, crc), Bodies(secs, |secs|), 24 * k, 24);
    hide Entries, Bodies;
    EntryExact(WriteFile(h, secs, crc), 32 + 24 * k, EntryOf(secs, k, crc));
  }

  lemma BodyInFile(h: Header, secs: seq<Section>, crc: bytes -> u32, k: nat)
    requires Fitting(secs) && k < |secs|
    ensures var b, o, w := WriteFile(h, secs, crc), OffsetOf(secs, k), |secs[k].body|;
      o + w <= |b| && b[o..o + w] == secs[k].body
  {
    BodyPlaced(secs, |secs|, k);
    hide AppendEntry, AppendHeader, EntryOf, Padded, Bodies, Entries, UnitsBefore;
    var head, dir, body := AppendHeader(h.(count := |secs|)), Entries(secs, |secs|, crc), Bodies(secs, |secs|);
    assert WriteFile(h, secs, crc) == head + dir + body;
    assert |head| + |dir| + 8 * UnitsBefore(secs, k) == OffsetOf(secs, k);
    hide WriteFile, OffsetOf;
    ThirdPart(head, dir, body, 8 * UnitsBefore(secs, k), |secs[k].body|, WriteFile(h, secs, crc), OffsetOf(secs, k));
  }

  lemma ThirdPart(a: bytes, b: bytes, c: bytes, o: nat, w: nat, f: bytes, at: nat)
    requires f == a + b + c && at == |a| + |b| + o && o + w <= |c|
    ensures at + w <= |f| && f[at..at + w] == c[o..o + w]
  {
    PieceOfThree(a, b, c, o, w);
  }

  /** The ids a directory may have: each known one once, each required one. */
  ghost predicate IdsOk(secs: seq<Section>) {
    && (forall j, k :: 0 <= j < k < |secs| && secs[j].id == secs[k].id ==> !(0 < secs[j].id < 15))
    && (forall id :: 1 <= id <= 9 ==> Writes(secs, id))
  }

  ghost predicate Writes(secs: seq<Section>, id: nat) {
    exists k :: 0 <= k < |secs| && secs[k].id == id
  }

  /** The contents of section id, empty when it is not written. */
  ghost function BodyOf(secs: seq<Section>, id: nat): bytes {
    if Writes(secs, id) then
      var k :| 0 <= k < |secs| && secs[k].id == id;
      secs[k].body
    else []
  }

  lemma EntriesWritten(h: Header, secs: seq<Section>, crc: bytes -> u32)
    requires Fitting(secs)
    ensures DirEnd(|secs|) <= |WriteFile(h, secs, crc)|
    ensures forall k :: 0 <= k < |secs| ==>
                          EntryAt(WriteFile(h, secs, crc), |secs|, k) == EntryOf(secs, k, crc)
                          && Placed(WriteFile(h, secs, crc), |secs|, k)
  {
    FileHoldsDirectory(h, secs, crc);
    hide EntryAt, Placed, WriteFile, OffsetOf, EntryOf, Fitting;
    forall k | 0 <= k < |secs|
      ensures EntryAt(WriteFile(h, secs, crc), |secs|, k) == EntryOf(secs, k, crc)
      ensures Placed(WriteFile(h, secs, crc), |secs|, k)
    {
      EntryWrittenAt(h, secs, crc, k);
    }
  }

  lemma EntryWrittenAt(h: Header, secs: seq<Section>, crc: bytes -> u32, k: nat)
    requires Fitting(secs) && k < |secs| && DirEnd(|secs|) <= |WriteFile(h, secs, crc)|
    ensures EntryAt(WriteFile(h, secs, crc), |secs|, k) == EntryOf(secs, k, crc)
    ensures Placed(WriteFile(h, secs, crc), |secs|, k)
  {
    hide EntryAt, Placed, WriteFile, OffsetOf, EntryOf, Fitting, AppendHeader;
    SectionWritten(h, secs, crc, k);
    if k > 0 {
      SectionWritten(h, secs, crc, k - 1);
    }
    PlacedAt(WriteFile(h, secs, crc), secs, k, crc);
  }

  /** Writing sections gives an accepted directory. */
  lemma DirectoryWritten(h: Header, secs: seq<Section>, crc: bytes -> u32)
    requires Fitting(secs) && IdsOk(secs)
    ensures DirectoryOk(WriteFile(h, secs, crc), |secs|)
    ensures forall id :: Listed(WriteFile(h, secs, crc), |secs|, id) <==> Writes(secs, id)
  {
    hide EntryAt, Placed, WriteFile, OffsetOf, EntryOf, Fitting;
    var b, n := WriteFile(h, secs, crc), |secs|;
    EntriesWritten(h, secs, crc);
    IdOfEntry(secs, crc);
    hide Listed, Writes;
    forall id
      ensures Listed(b, n, id) <==> Writes(secs, id)
    {
      ListedIsWritten(b, secs, crc, id);
    }
  }

  lemma FileHoldsDirectory(h: Header, secs: seq<Section>, crc: bytes -> u32)
    requires Fitting(secs)
    ensures DirEnd(|secs|) <= |WriteFile(h, secs, crc)|
  {
  }

  lemma IdOfEntry(secs: seq<Section>, crc: bytes -> u32)
    requires Fitting(secs)
    ensures forall k :: 0 <= k < |secs| ==> EntryOf(secs, k, crc).id == secs[k].id
  {
  }

  lemma ListedIsWritten(b: bytes, secs: seq<Section>, crc: bytes -> u32, id: nat)
    requires Fitting(secs) && DirEnd(|secs|) <= |b|
    requires forall k :: 0 <= k < |secs| ==> EntryAt(b, |secs|, k) == EntryOf(secs, k, crc)
    ensures Listed(b, |secs|, id) <==> Writes(secs, id)
  {
    hide EntryAt, Fitting;
    if Writes(secs, id) {
      var k :| 0 <= k < |secs| && secs[k].id == id;
      assert EntryAt(b, |secs|, k).id == id;
    }
  }

  lemma PlacedAt(b: bytes, secs: seq<Section>, k: nat, crc: bytes -> u32)
    requires Fitting(secs) && k < |secs| && DirEnd(|secs|) <= |b| && EntryAt(b, |secs|, k) == EntryOf(secs, k, crc)
    requires k > 0 ==> EntryAt(b, |secs|, k - 1) == EntryOf(secs, k - 1, crc)
    requires OffsetOf(secs, k) + |secs[k].body| <= |b|
    ensures Placed(b, |secs|, k)
  {
    var n, u := |secs|, UnitsBefore(secs, k);
    assert k > 0 ==> UnitsBefore(secs, k - 1) + Units(secs[k - 1].body) == u;
    DivModUnique(OffsetOf(secs, k), 8, 4 + 3 * n + u, 0);
    hide EntryAt, UnitsBefore;
  }

  /** Reading a written file finds every section where it was written. */
  lemma SectionsWritten(h: Header, secs: seq<Section>, crc: bytes -> u32, id: nat)
    requires Fitting(secs) && IdsOk(secs) && Known(id)
    requires DirectoryOk(WriteFile(h, secs, crc), |secs|)
    requires Listed(WriteFile(h, secs, crc), |secs|, id) <==> Writes(secs, id)
    ensures Sect(WriteFile(h, secs, crc), |secs|, id) == BodyOf(secs, id)
  {
    var b, n := WriteFile(h, secs, crc), |secs|;
    if Writes(secs, id) {
      var k :| 0 <= k < n && secs[k].id == id && BodyOf(secs, id) == secs[k].body;
      hide WriteFile, EntryAt, SecOf, Sect, Placed, Fitting, Listed, DirectoryOk, IdsOk;
      OneWritten(h, secs, crc, k);
    } else {
      hide WriteFile, EntryAt, SecOf, Sect, Placed, Fitting, DirectoryOk, IdsOk;
      NoSpan(b, n, id);
      SectAt(b, n, id, 0, 0);
    }
  }

  lemma OneWritten(h: Header, secs: seq<Section>, crc: bytes -> u32, k: nat)
    requires Fitting(secs) && k < |secs| && Known(secs[k].id) && DirectoryOk(WriteFile(h, secs, crc), |secs|)
    ensures Sect(WriteFile(h, secs, crc), |secs|, secs[k].id) == secs[k].body
  {
    hide WriteFile, EntryAt, SecOf, Sect, Placed, Fitting, OffsetOf;
    SectionWritten(h, secs, crc, k);
    SecOfUnique(WriteFile(h, secs, crc), |secs|, k);
    SectAt(WriteFile(h, secs, crc), |secs|, secs[k].id, OffsetOf(secs, k), |secs[k].body|);
  }

  lemma SectAt(b: bytes, n: nat, id: nat, o: nat, w: nat)
    requires DirectoryOk(b, n) && Known(id) && SecOf(b, n, id) == Span(o, w) && o + w <= |b|
    ensures Sect(b, n, id) == b[o..o + w]
  {
    hide SecOf, DirectoryOk;
  }

  lemma NoSpan(b: bytes, n: nat, id: nat)
    requires DirEnd(n) <= |b| && !Listed(b, n, id)
    ensures SecOf(b, n, id) == Span(0, 0)
  {
    hide Listed;
  }

  lemma ChecksumsWritten(h: Header, secs: seq<Section>, crc: bytes -> u32)
    requires Fitting(secs) && DirectoryOk(WriteFile(h, secs, crc), |secs|)
    ensures ChecksumsOk(WriteFile(h, secs, crc), |secs|, crc)
  {
    hide WriteFile, DirectoryOk, EntryAt, OffsetOf, Fitting, Placed;
    forall k | 0 <= k < |secs|
      ensures ChecksumAt(WriteFile(h, secs, crc), |secs|, k, crc)
    {
      SectionWritten(h, secs, crc, k);
    }
  }

  lemma HeaderWritten(h: Header, secs: seq<Section>, crc: bytes -> u32)
    requires Fitting(secs) && ValidHeader(h)
    ensures ParseHeader(WriteFile(h, secs, crc)) == Ok(h.(count := |secs|))
  {
    hide AppendHeader, ParseHeader, Padded;
    var head := AppendHeader(h.(count := |secs|));
    PieceOfThree(head, Entries(secs, |secs|, crc), Bodies(secs, |secs|), 0, 0);
    HeaderExact(WriteFile(h, secs, crc), h.(count := |secs|));
  }
}
