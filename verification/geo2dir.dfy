/** The header and section directory of a GEO2 file (geo2.go, rules 1 and 2 of
    docs/FORMAT.md). */
module Geo2Directory {
  import opened Words

  const MAX_FILE: nat := 0x8000_0000
  const HEADER_SIZE: nat := 32
  const ENTRY_SIZE: nat := 24
  const NUM_SECTIONS: nat := 15

  const META: nat := 1
  const STRIDX: nat := 2
  const STRBLOB: nat := 3
  const RECORDS: nat := 4
  const V4IDX: nat := 5
  const V4STARTS: nat := 6
  const V4IDS: nat := 7
  const V6STARTS: nat := 8
  const V6IDS: nat := 9
  const V6EXCIDX: nat := 10
  const V6EXCLO: nat := 11
  const XFIELDS: nat := 12
  const XRECORDS: nat := 13
  const LANGS: nat := 14

  datatype Error = BadMagic | UnsupportedVersion | Corrupt | TooLarge | NoLanguage
  datatype Result<+T> = Ok(value: T) | Err(error: Error)

  datatype Header = Header(profile: u8, latScale: u8, idWidth: u8, count: u32)

  predicate HasMagic(b: bytes) {
    |b| >= 4 && b[0] == 0x47 && b[1] == 0x45 && b[2] == 0x4F && b[3] == 0x32
  }

  /** ParseHeader, with the error classes of headerError. */
  function ParseHeader(b: bytes): (r: Result<Header>)
    ensures r.Ok? ==> |b| >= HEADER_SIZE && ValidHeader(r.value)
    ensures r == Err(BadMagic) <==> !HasMagic(b)
    ensures r == Err(UnsupportedVersion) <==> HasMagic(b) && |b| >= HEADER_SIZE && b[4] != 2
    ensures r.Err? ==> r.error == BadMagic || r.error == UnsupportedVersion || r.error == Corrupt
  {
    if !HasMagic(b) then Err(BadMagic)
    else if |b| < HEADER_SIZE then Err(Corrupt)
    else if b[4] != 2 then Err(UnsupportedVersion)
    else if b[5] > 3 || b[6] > 7 || b[7] < 1 || b[7] > 4 then Err(Corrupt)
    else if exists i :: 12 <= i < HEADER_SIZE && b[i] != 0 then Err(Corrupt)
    else Ok(Header(b[5], b[6], b[7], LE32(b, 8)))
  }

  predicate ValidHeader(h: Header) {
    h.profile <= 3 && h.latScale <= 7 && 1 <= h.idWidth <= 4
  }

  /** AppendTo: the 32 bytes of a header. */
  function AppendHeader(h: Header): (b: bytes)
    ensures |b| == HEADER_SIZE
  {
    [0x47, 0x45, 0x4F, 0x32, 2, h.profile, h.latScale, h.idWidth] + Put32(h.count) + seq(20, _ => 0)
  }

  /** ParseHeader inverts AppendTo, and accepts nothing else. */
  lemma HeaderExact(b: bytes, h: Header)
    ensures ParseHeader(b) == Ok(h) <==> ValidHeader(h) && |b| >= HEADER_SIZE && b[..HEADER_SIZE] == AppendHeader(h)
  {
    if |b| >= HEADER_SIZE {
      PutLoaded32(b, 8);
      HeaderBytes(b, h);
      if b[..HEADER_SIZE] == AppendHeader(h) {
        CountRead(b, h);
      }
    }
  }

  lemma CountRead(b: bytes, h: Header)
    requires |b| >= HEADER_SIZE && b[..HEADER_SIZE] == AppendHeader(h)
    ensures LE32(b, 8) == h.count
  {
    hide LE32, Put32;
    var a := AppendHeader(h);
    assert b[8..12] == a[8..12] == Put32(h.count);
    LoadsInside(b, 8, 4, 0);
  }

  /** The 32 bytes piece by piece. */
  lemma HeaderBytes(b: bytes, h: Header)
    requires |b| >= HEADER_SIZE
    ensures b[..HEADER_SIZE] == AppendHeader(h) <==>
      && HasMagic(b) && b[4] == 2 && b[5] == h.profile && b[6] == h.latScale && b[7] == h.idWidth
      && b[8..12] == Put32(h.count) && (forall i :: 12 <= i < HEADER_SIZE ==> b[i] == 0)
  {
    hide Put32;
    var a, c := AppendHeader(h), b[..HEADER_SIZE];
    assert a[8..12] == Put32(h.count) && c[8..12] == b[8..12];
    assert forall i :: 12 <= i < HEADER_SIZE ==> a[i] == 0 && c[i] == b[i];
    assert a[..8] == [0x47, 0x45, 0x4F, 0x32, 2, h.profile, h.latScale, h.idWidth] && c[..8] == b[..8];
    assert a == a[..8] + a[8..12] + a[12..] && c == c[..8] + c[8..12] + c[12..];
  }

  datatype Span = Span(off: nat, n: nat)

  datatype Entry = Entry(id: u32, crc: u32, off: u64, len: u64)

  function ParseDirEntry(b: bytes, o: nat): Entry
    requires o + ENTRY_SIZE <= |b|
  {
    Entry(LE32(b, o), LE32(b, o + 4), LE64(b, o + 8), LE64(b, o + 16))
  }

  /** AppendTo: the 24 bytes of an entry. */
  function AppendEntry(e: Entry): (b: bytes)
    ensures |b| == ENTRY_SIZE
  {
    Put32(e.id) + Put32(e.crc) + Put64(e.off) + Put64(e.len)
  }

  /** ParseDirEntry inverts AppendTo: it gives e exactly for the bytes of e. */
  lemma EntryExact(b: bytes, o: nat, e: Entry)
    requires o + ENTRY_SIZE <= |b|
    ensures ParseDirEntry(b, o) == e <==> b[o..o + ENTRY_SIZE] == AppendEntry(e)
  {
    EntryWritten(b, o);
    hide ParseDirEntry, AppendEntry;
    if AppendEntry(ParseDirEntry(b, o)) == AppendEntry(e) {
      AppendInjective(ParseDirEntry(b, o), e);
    }
  }

  lemma EntryWritten(b: bytes, o: nat)
    requires o + ENTRY_SIZE <= |b|
    ensures b[o..o + ENTRY_SIZE] == AppendEntry(ParseDirEntry(b, o))
  {
    hide LE32, LE64, Put32, Put64;
    PutLoaded32(b, o);
    PutLoaded32(b, o + 4);
    PutLoaded64(b, o + 8);
    PutLoaded64(b, o + 16);
    assert b[o..o + 24] == b[o..o + 4] + b[o + 4..o + 8] + b[o + 8..o + 16] + b[o + 16..o + 24];
  }

  lemma AppendInjective(d: Entry, e: Entry)
    requires AppendEntry(d) == AppendEntry(e)
    ensures d == e
  {
    hide LE32, LE64, Put32, Put64;
    PieceOf(d);
    PieceOf(e);
    PutInjective(d.id, e.id);
    PutInjective(d.crc, e.crc);
    PutInjective64(d.off, e.off);
    PutInjective64(d.len, e.len);
    hide AppendEntry;
  }

  lemma PieceOf(e: Entry)
    ensures var a := AppendEntry(e);
      a[0..4] == Put32(e.id) && a[4..8] == Put32(e.crc) && a[8..16] == Put64(e.off) && a[16..24] == Put64(e.len)
  {
    hide Put32, Put64;
  }

  lemma PutInjective(x: u32, y: u32)
    ensures Put32(x) == Put32(y) ==> x == y
  {
    hide Put32, LE32;
  }

  lemma PutInjective64(x: u64, y: u64)
    ensures Put64(x) == Put64(y) ==> x == y
  {
    hide Put64, LE64;
  }

  function DirEnd(n: nat): nat { HEADER_SIZE + n * 24 }

  function EntryAt(b: bytes, n: nat, k: nat): Entry
    requires DirEnd(n) <= |b| && k < n
  {
    ParseDirEntry(b, HEADER_SIZE + k * 24)
  }

  function EntryEnd(b: bytes, n: nat, k: nat): nat
    requires DirEnd(n) <= |b| && k < n
  {
    EntryAt(b, n, k).off + EntryAt(b, n, k).len
  }

  predicate Known(id: nat) { 0 < id < NUM_SECTIONS }

  /** Section k is aligned, follows the directory or section k - 1, and ends in
      the input. */
  ghost predicate Placed(b: bytes, n: nat, k: nat)
    requires DirEnd(n) <= |b| && k < n
  {
    && EntryAt(b, n, k).off % 8 == 0
    && (if k == 0 then DirEnd(n) else EntryEnd(b, n, k - 1)) <= EntryAt(b, n, k).off
    && EntryEnd(b, n, k) <= |b|
  }

  ghost predicate Listed(b: bytes, n: nat, id: nat)
    requires DirEnd(n) <= |b|
  {
    exists k :: 0 <= k < n && EntryAt(b, n, k).id == id
  }

  ghost predicate SameKnown(b: bytes, n: nat, j: nat, k: nat)
    requires DirEnd(n) <= |b| && j < n && k < n
  {
    Known(EntryAt(b, n, j).id) && EntryAt(b, n, j).id == EntryAt(b, n, k).id
  }

  ghost predicate DirectoryOk(b: bytes, n: nat) {
    && DirEnd(n) <= |b|
    && (forall k :: 0 <= k < n ==> Placed(b, n, k))
    && (forall j, k :: 0 <= j < k < n ==> !SameKnown(b, n, j, k))
    && (forall id :: META <= id < V6EXCIDX ==> Listed(b, n, id))
  }

  /** Where section id is, empty when it is absent. */
  ghost function SecOf(b: bytes, n: nat, id: nat): Span
    requires DirEnd(n) <= |b|
  {
    if Listed(b, n, id) then
      var k :| 0 <= k < n && EntryAt(b, n, k).id == id;
      Span(EntryAt(b, n, k).off, EntryAt(b, n, k).len)
    else Span(0, 0)
  }

  lemma SecOfUnique(b: bytes, n: nat, k: nat)
    requires DirEnd(n) <= |b| && k < n && Known(EntryAt(b, n, k).id)
    requires forall i, j :: 0 <= i < j < n ==> !SameKnown(b, n, i, j)
    ensures SecOf(b, n, EntryAt(b, n, k).id) == Span(EntryAt(b, n, k).off, EntryAt(b, n, k).len)
  {
    var id := EntryAt(b, n, k).id;
    assert Listed(b, n, id);
    var m :| 0 <= m < n && EntryAt(b, n, m).id == id
      && SecOf(b, n, id) == Span(EntryAt(b, n, m).off, EntryAt(b, n, m).len);
    assert m < k ==> SameKnown(b, n, m, k);
    assert k < m ==> SameKnown(b, n, k, m);
  }

  /** Later sections start after earlier ones end. */
  lemma {:induction false} SectionsAscend(b: bytes, n: nat, j: nat, k: nat)
    requires DirectoryOk(b, n) && j < k < n
    ensures EntryEnd(b, n, j) <= EntryAt(b, n, k).off
    decreases k - j
  {
    assert Placed(b, n, k);
    if j < k - 1 {
      SectionsAscend(b, n, j, k - 1);
    }
  }

  /** Accepted sections lie in the input, aligned, after the directory, and any
      two of them are disjoint. */
  lemma SectionsDisjoint(b: bytes, n: nat, i: nat, j: nat)
    requires DirectoryOk(b, n) && Known(i) && Known(j)
    ensures var s, t := SecOf(b, n, i), SecOf(b, n, j);
      && s.off % 8 == 0 && s.off + s.n <= |b|
      && (s.n > 0 ==> DirEnd(n) <= s.off)
      && (i != j && s.n > 0 && t.n > 0 ==> s.off + s.n <= t.off || t.off + t.n <= s.off)
  {
    hide EntryAt, Placed;
    if Listed(b, n, i) {
      var x := Place(b, n, i);
      if Listed(b, n, j) {
        var y := Place(b, n, j);
        if x < y {
          SectionsAscend(b, n, x, y);
        } else if y < x {
          SectionsAscend(b, n, y, x);
        }
      }
    }
  }

  lemma Place(b: bytes, n: nat, id: nat) returns (k: nat)
    requires DirectoryOk(b, n) && Known(id) && Listed(b, n, id)
    ensures k < n && EntryAt(b, n, k).id == id
    ensures SecOf(b, n, id) == Span(EntryAt(b, n, k).off, EntryAt(b, n, k).len)
    ensures EntryAt(b, n, k).off % 8 == 0 && DirEnd(n) <= EntryAt(b, n, k).off && EntryEnd(b, n, k) <= |b|
  {
    hide EntryAt;
    var m :| 0 <= m < n && EntryAt(b, n, m).id == id;
    k := m;
    SecOfUnique(b, n, k);
    assert Placed(b, n, k) && Placed(b, n, 0);
    if k > 0 {
      SectionsAscend(b, n, 0, k);
    }
  }

  // ---- the directory check -------------------------------------------------------

  /** The sections found among the first k entries. */
  ghost predicate Recorded(b: bytes, n: nat, k: nat, has: seq<bool>, sec: seq<Span>)
    requires DirEnd(n) <= |b| && k <= n
  {
    && |has| == |sec| == NUM_SECTIONS
    && (forall id :: 0 < id < NUM_SECTIONS && has[id] ==> exists j :: 0 <= j < k && FoundAt(b, n, j, id, sec[id]))
    && (forall id :: 0 <= id < NUM_SECTIONS && !has[id] ==> sec[id] == Span(0, 0))
    && (forall j :: 0 <= j < k && Known(EntryAt(b, n, j).id) ==> has[EntryAt(b, n, j).id])
    && !has[0]
  }

  ghost predicate FoundAt(b: bytes, n: nat, j: nat, id: nat, s: Span)
    requires DirEnd(n) <= |b| && j < n
  {
    EntryAt(b, n, j).id == id && s == Span(EntryAt(b, n, j).off, EntryAt(b, n, j).len)
  }

  lemma RecordedAll(b: bytes, n: nat, has: seq<bool>, sec: seq<Span>, id: nat)
    requires DirEnd(n) <= |b| && Recorded(b, n, n, has, sec) && Known(id)
    requires forall i, j :: 0 <= i < j < n ==> !SameKnown(b, n, i, j)
    ensures has[id] <==> Listed(b, n, id)
    ensures sec[id] == SecOf(b, n, id)
  {
    if has[id] {
      var j :| 0 <= j < n && FoundAt(b, n, j, id, sec[id]);
      SecOfUnique(b, n, j);
    }
  }

  method CheckDirectory(b: bytes, count: u32, has: array<bool>, sec: array<Span>) returns (ok: bool)
    requires |b| <= MAX_FILE && has.Length == sec.Length == NUM_SECTIONS
    requires forall id :: 0 <= id < NUM_SECTIONS ==> !has[id] && sec[id] == Span(0, 0)
    modifies has, sec
    ensures ok <==> DirectoryOk(b, count)
    ensures ok ==> forall id: nat :: Known(id) ==> (has[id] <==> Listed(b, count, id)) && sec[id] == SecOf(b, count, id)
  {
    hide Placed, Recorded, SameKnown, Listed, LE32, LE64;
    NothingRecorded(b, count, has[..], sec[..]);
    var size: u64 := |b|;
    var n: u64 := count;
    var end: u64 := DirEnd(n);
    if end > size {
      return false;
    }
    for k := 0 to n
      invariant end == if k == 0 then DirEnd(n) else EntryEnd(b, n, k - 1)
      invariant Recorded(b, n, k, has[..], sec[..])
      invariant forall j :: 0 <= j < k ==> Placed(b, n, j)
      invariant forall i, j :: 0 <= i < j < k ==> !SameKnown(b, n, i, j)
    {
      var e := ParseDirEntry(b, HEADER_SIZE + k * 24);
      assert e == EntryAt(b, n, k);
      PlacedMeans(b, n, k);
      if e.off % 8 != 0 || e.off < end || e.len > size || e.off > size - e.len {
        return false;
      }
      end := e.off + e.len;
      ghost var has0, sec0 := has[..], sec[..];
      if e.id == 0 || e.id >= NUM_SECTIONS {
        RecordUnknown(b, n, k, has0, sec0);
        continue;
      }
      if has[e.id] {
        FoundTwice(b, n, k, has[..], sec[..]);
        return false;
      }
      RecordOne(b, n, k, has0, sec0);
      has[e.id] := true;
      sec[e.id] := Span(e.off, e.len);
      assert has[..] == has0[e.id := true] && sec[..] == sec0[e.id := Span(e.off, e.len)];
    }
    ghost var hs, ss := has[..], sec[..];
    for id := META to V6EXCIDX
      invariant has[..] == hs && sec[..] == ss
      invariant forall i :: META <= i < id ==> Listed(b, n, i)
    {
      RecordedAll(b, n, has[..], sec[..], id);
      if !has[id] {
        return false;
      }
    }
    forall id: nat | Known(id)
      ensures (has[id] <==> Listed(b, count, id)) && sec[id] == SecOf(b, count, id)
    {
      RecordedAll(b, n, has[..], sec[..], id);
    }
    return true;
  }

  lemma NothingRecorded(b: bytes, n: nat, has: seq<bool>, sec: seq<Span>)
    requires |has| == |sec| == NUM_SECTIONS
    requires forall id :: 0 <= id < NUM_SECTIONS ==> !has[id] && sec[id] == Span(0, 0)
    ensures DirEnd(n) <= |b| ==> Recorded(b, n, 0, has, sec)
  {
  }

  lemma PlacedMeans(b: bytes, n: nat, k: nat)
    requires DirEnd(n) <= |b| && k < n
    ensures var e, end := EntryAt(b, n, k), if k == 0 then DirEnd(n) else EntryEnd(b, n, k - 1);
      Placed(b, n, k) <==> e.off % 8 == 0 && end <= e.off && e.off + e.len <= |b|
  {
  }

  lemma FoundTwice(b: bytes, n: nat, k: nat, has: seq<bool>, sec: seq<Span>)
    requires DirEnd(n) <= |b| && k < n && Recorded(b, n, k, has, sec)
    requires Known(EntryAt(b, n, k).id) && has[EntryAt(b, n, k).id]
    ensures !DirectoryOk(b, n)
  {
    var id := EntryAt(b, n, k).id;
    var j :| 0 <= j < k && FoundAt(b, n, j, id, sec[id]);
    assert SameKnown(b, n, j, k);
  }

  lemma RecordUnknown(b: bytes, n: nat, k: nat, has: seq<bool>, sec: seq<Span>)
    requires DirEnd(n) <= |b| && k < n && Recorded(b, n, k, has, sec)
    requires !Known(EntryAt(b, n, k).id)
    requires forall i, j :: 0 <= i < j < k ==> !SameKnown(b, n, i, j)
    ensures Recorded(b, n, k + 1, has, sec)
    ensures forall i, j :: 0 <= i < j < k + 1 ==> !SameKnown(b, n, i, j)
  {
  }

  lemma RecordOne(b: bytes, n: nat, k: nat, has: seq<bool>, sec: seq<Span>)
    requires DirEnd(n) <= |b| && k < n && Recorded(b, n, k, has, sec)
    requires forall i, j :: 0 <= i < j < k ==> !SameKnown(b, n, i, j)
    requires Known(EntryAt(b, n, k).id) && !has[EntryAt(b, n, k).id]
    ensures var e := EntryAt(b, n, k);
      Recorded(b, n, k + 1, has[e.id := true], sec[e.id := Span(e.off, e.len)])
    ensures forall i, j :: 0 <= i < j < k + 1 ==> !SameKnown(b, n, i, j)
  {
    var e := EntryAt(b, n, k);
    var has', sec' := has[e.id := true], sec[e.id := Span(e.off, e.len)];
    assert FoundAt(b, n, k, e.id, sec'[e.id]);
    forall id | 0 < id < NUM_SECTIONS && has'[id]
      ensures exists j :: 0 <= j < k + 1 && FoundAt(b, n, j, id, sec'[id])
    {
      if id != e.id {
        var j :| 0 <= j < k && FoundAt(b, n, j, id, sec[id]);
        assert FoundAt(b, n, j, id, sec'[id]);
      }
    }
  }
}
