/** The GEO1 file format (docs/FORMAT.md, "GEO1 (legacy)"): the bytes of a
    database, and the reading that inverts them. */
module Geo1Format {
  import opened Words
  import opened Addresses
  import opened Boundaries

  /** What a GEO1 file holds. Tables keep their encoded bytes. */
  datatype Geo1 = Geo1(
    profile: nat, latScale: nat, strings: seq<bytes>, rc: nat, recs: bytes,
    starts4: bytes, ids4: bytes, starts6: bytes, ids6: bytes)

  function RecWidth(profile: nat): nat {
    match profile
    case 0 => 16
    case 1 => 24
    case _ => 48
  }

  function Start4Of(starts: bytes, i: nat): u32
    requires i < |starts| / 4
  {
    U32At(starts, i)
  }

  function Start6Of(starts: bytes, i: nat): u128
    requires i < |starts| / 16
  {
    Join(BE64(starts, i * 16), BE64(starts, i * 16 + 8))
  }

  function Flat4(starts: bytes): seq<int> {
    seq(|starts| / 4, i requires 0 <= i < |starts| / 4 => Start4Of(starts, i))
  }

  function Flat6(starts: bytes): seq<int> {
    seq(|starts| / 16, i requires 0 <= i < |starts| / 16 => Start6Of(starts, i))
  }

  /** The starts are the numbers of their bytes: IPv4 low byte first, IPv6 high
      byte first. */
  lemma StartsRead(starts: bytes, i: nat)
    ensures i < |starts| / 4 ==> Flat4(starts)[i] == Little(starts[i * 4..i * 4 + 4])
    ensures i < |starts| / 16 ==> Flat6(starts)[i] == Big(starts[i * 16..i * 16 + 16])
  {
    hide LE32, BE64, Big, Reversed;
    if i < |starts| / 4 {
      LoadsRead(starts, i * 4);
    }
    if i < |starts| / 16 {
      var o := i * 16;
      Loads64(starts, o);
      Loads64(starts, o + 8);
      assert starts[o..o + 16] == starts[o..o + 8] + starts[o + 8..o + 16];
      BigConcat8(starts[o..o + 8], starts[o + 8..o + 16]);
    }
  }

  /** IPv6 starts ascend exactly when their 16 bytes do, as bytes. */
  lemma StartsAscend(starts: bytes)
    ensures Ascending(Flat6(starts)) <==>
      forall i, j :: 0 <= i < j < |starts| / 16 ==> Earlier(Piece16(starts, i), Piece16(starts, j))
  {
    hide Earlier, Start6Of;
    forall i, j | 0 <= i < j < |starts| / 16
      ensures Flat6(starts)[i] < Flat6(starts)[j] <==> Earlier(Piece16(starts, i), Piece16(starts, j))
    {
      StartsRead(starts, i);
      StartsRead(starts, j);
      BigOrder(Piece16(starts, i), Piece16(starts, j));
    }
  }

  function Piece16(starts: bytes, i: nat): (b: bytes)
    requires i < |starts| / 16
    ensures |b| == 16
  {
    starts[i * 16..i * 16 + 16]
  }

  ghost predicate IdsBelow(ids: bytes, rc: nat) {
    forall i :: 0 <= i < |ids| / 4 ==> U32s(ids)[i] < rc
  }

  /** The rules a GEO1 database obeys. */
  ghost predicate WellFormed(d: Geo1) {
    && d.profile <= 2 && d.latScale <= 7
    && |d.strings| < TWO32 && (forall i :: 0 <= i < |d.strings| ==> |d.strings[i]| < TWO16)
    && 1 <= d.rc < TWO32 && |d.recs| == d.rc * RecWidth(d.profile)
    && |d.starts4| % 4 == 0 && |d.starts4| < 4 * TWO32 && |d.ids4| == |d.starts4|
    && Ascending(Flat4(d.starts4)) && IdsBelow(d.ids4, d.rc)
    && |d.starts6| % 16 == 0 && |d.starts6| < 16 * TWO32 && |d.ids6| * 4 == |d.starts6|
    && Ascending(Flat6(d.starts6)) && IdsBelow(d.ids6, d.rc)
  }

  const MAGIC: bytes := [0x47, 0x45, 0x4F, 0x31]

  function EncodeStrings(s: seq<bytes>): bytes {
    if s == [] then [] else Put16(|s[0]|) + s[0] + EncodeStrings(s[1..])
  }

  function Encode(d: Geo1): bytes
    requires d.profile < 0x100 && d.latScale < 0x100
  {
    MAGIC + [1, d.profile, d.latScale, 0]
    + (Put32(|d.strings|) + EncodeStrings(d.strings)
       + (Put32(d.rc) + Put16(RecWidth(d.profile)) + d.recs
          + (Put32(|d.starts4| / 4) + d.starts4 + d.ids4
             + (Put32(|d.starts6| / 16) + d.starts6 + d.ids6))))
  }

  // ---- reading, one piece at a time ---------------------------------------------------

  function Num16(b: bytes): Option<(u16, bytes)> {
    if |b| < 2 then None else Some((LE16(b, 0), b[2..]))
  }

  function Num32(b: bytes): Option<(u32, bytes)> {
    if |b| < 4 then None else Some((LE32(b, 0), b[4..]))
  }

  function TakeBytes(b: bytes, n: nat): Option<(bytes, bytes)> {
    if |b| < n then None else Some((b[..n], b[n..]))
  }

  function ReadStrings(n: nat, b: bytes): Option<(seq<bytes>, bytes)> {
    if n == 0 then Some(([], b)) else
    match Num16(b)
    case None => None
    case Some((l, r)) =>
      match TakeBytes(r, l)
      case None => None
      case Some((s, r2)) =>
        match ReadStrings(n - 1, r2)
        case None => None
        case Some((t, r3)) => Some(([s] + t, r3))
  }

  /** A count and two arrays of that many elements. */
  function ReadTable(b: bytes, w: nat): Option<(bytes, bytes, bytes)> {
    match Num32(b)
    case None => None
    case Some((n, r)) =>
      match TakeBytes(r, n * w)
      case None => None
      case Some((starts, r2)) =>
        match TakeBytes(r2, n * 4)
        case None => None
        case Some((ids, r3)) => Some((starts, ids, r3))
  }

  function ReadRecords(b: bytes, width: nat): Option<(nat, bytes, bytes)> {
    match Num32(b)
    case None => None
    case Some((rc, r)) =>
      match Num16(r)
      case None => None
      case Some((rw, r2)) =>
        if rc == 0 || rw != width then None else
        match TakeBytes(r2, rc * rw)
        case None => None
        case Some((recs, r3)) => Some((rc, recs, r3))
  }

  predicate HeaderOk(b: bytes) {
    |b| >= 8 && b[..4] == MAGIC && b[4] == 1 && b[5] <= 2 && b[6] <= 7 && b[7] == 0
  }

  /** Everything after the header, without the order and id checks. */
  function ReadBody(profile: nat, latScale: nat, b: bytes): Option<Geo1> {
    match Num32(b)
    case None => None
    case Some((ns, r)) =>
      match ReadStrings(ns, r)
      case None => None
      case Some((strings, r2)) =>
        match ReadRecords(r2, RecWidth(profile))
        case None => None
        case Some((rc, recs, r3)) =>
          match ReadTable(r3, 4)
          case None => None
          case Some((s4, i4, r4)) =>
            match ReadTable(r4, 16)
            case None => None
            case Some((s6, i6, r5)) =>
              if r5 == [] then Some(Geo1(profile, latScale, strings, rc, recs, s4, i4, s6, i6)) else None
  }

  // ---- reading inverts writing ----------------------------------------------------------

  lemma Num32Put(v: nat, r: bytes)
    requires v < TWO32
    ensures Num32(Put32(v) + r) == Some((v, r))
  {
    hide Put32, LE32;
    var b := Put32(v) + r;
    assert b[..4] == Put32(v) && b[4..] == r;
    LoadsInside(b, 0, 4, 0);
  }

  lemma Num16Put(v: nat, r: bytes)
    requires v < TWO16
    ensures Num16(Put16(v) + r) == Some((v, r))
  {
    var b := Put16(v) + r;
    assert b[0] == Put16(v)[0] && b[1] == Put16(v)[1] && b[2..] == r;
  }

  lemma TakeConcat(s: bytes, r: bytes)
    ensures TakeBytes(s + r, |s|) == Some((s, r))
  {
    assert (s + r)[..|s|] == s && (s + r)[|s|..] == r;
  }

  lemma {:induction false} ReadEncodedStrings(s: seq<bytes>, r: bytes)
    requires forall i :: 0 <= i < |s| ==> |s[i]| < TWO16
    ensures ReadStrings(|s|, EncodeStrings(s) + r) == Some((s, r))
  {
    if s == [] {
      assert EncodeStrings(s) + r == r;
    } else {
      var tail := EncodeStrings(s[1..]) + r;
      assert EncodeStrings(s) + r == Put16(|s[0]|) + (s[0] + tail);
      Num16Put(|s[0]|, s[0] + tail);
      TakeConcat(s[0], tail);
      ReadEncodedStrings(s[1..], r);
      assert [s[0]] + s[1..] == s;
    }
  }

  lemma ReadEncodedTable(starts: bytes, ids: bytes, w: nat, n: nat, r: bytes)
    requires n < TWO32 && |starts| == n * w && |ids| == n * 4
    ensures ReadTable(Put32(n) + starts + ids + r, w) == Some((starts, ids, r))
  {
    hide Num32, TakeBytes, Put32;
    assert Put32(n) + starts + ids + r == Put32(n) + (starts + (ids + r));
    Num32Put(n, starts + (ids + r));
    TakeConcat(starts, ids + r);
    TakeConcat(ids, r);
  }

  lemma ReadEncodedRecords(rc: nat, width: nat, recs: bytes, r: bytes)
    requires 1 <= rc < TWO32 && width < TWO16 && |recs| == rc * width
    ensures ReadRecords(Put32(rc) + Put16(width) + recs + r, width) == Some((rc, recs, r))
  {
    hide Num32, Num16, TakeBytes, Put32, Put16;
    assert Put32(rc) + Put16(width) + recs + r == Put32(rc) + (Put16(width) + (recs + r));
    Num32Put(rc, Put16(width) + (recs + r));
    Num16Put(width, recs + r);
    TakeConcat(recs, r);
  }

  /** Reading the encoding of a well-formed database gives it back. */
  lemma ReadEncoded(d: Geo1)
    requires WellFormed(d)
    ensures HeaderOk(Encode(d))
    ensures ReadBody(d.profile, d.latScale, Encode(d)[8..]) == Some(d)
  {
    hide Num32, Num16, TakeBytes, ReadTable, ReadRecords, ReadStrings, EncodeStrings, Put16, Put32, Flat4,
      Flat6, Ascending;
    var b := Encode(d);
    var r5: bytes := [];
    var t6 := Put32(|d.starts6| / 16) + d.starts6 + d.ids6;
    var t4 := Put32(|d.starts4| / 4) + d.starts4 + d.ids4 + t6;
    var tr := Put32(d.rc) + Put16(RecWidth(d.profile)) + d.recs + t4;
    var body := Put32(|d.strings|) + EncodeStrings(d.strings) + tr;
    assert b[8..] == body && b[..4] == MAGIC;
    assert body == Put32(|d.strings|) + (EncodeStrings(d.strings) + tr);
    Num32Put(|d.strings|, EncodeStrings(d.strings) + tr);
    ReadEncodedStrings(d.strings, tr);
    ReadEncodedRecords(d.rc, RecWidth(d.profile), d.recs, t4);
    ReadEncodedTable(d.starts4, d.ids4, 4, |d.starts4| / 4, t6);
    assert t6 + r5 == t6;
    ReadEncodedTable(d.starts6, d.ids6, 16, |d.starts6| / 16, r5);
  }

  // ---- writing inverts reading ------------------------------------------------------------

  lemma Num16Is(b: bytes)
    ensures Num16(b).Some? ==> Put16(Num16(b).value.0) + Num16(b).value.1 == b && Num16(b).value.0 < TWO16
    ensures Num16(b).Some? ==> |Num16(b).value.1| == |b| - 2
  {
    hide Put16, LE16;
    if |b| >= 2 {
      PutLoaded16(b, 0);
      assert b == b[..2] + b[2..];
    }
  }

  lemma Num32Is(b: bytes)
    ensures Num32(b).Some? ==> Put32(Num32(b).value.0) + Num32(b).value.1 == b && Num32(b).value.0 < TWO32
    ensures Num32(b).Some? ==> |Num32(b).value.1| == |b| - 4
  {
    hide Put32, LE32;
    if |b| >= 4 {
      PutLoaded32(b, 0);
      assert b == b[..4] + b[4..];
    }
  }

  lemma TakeIs(b: bytes, n: nat)
    ensures TakeBytes(b, n).Some? ==> |TakeBytes(b, n).value.0| == n
    ensures TakeBytes(b, n).Some? ==> TakeBytes(b, n).value.0 + TakeBytes(b, n).value.1 == b
  {
  }

  lemma {:induction false} WriteReadStrings(n: nat, b: bytes)
    ensures ReadStrings(n, b).Some? ==>
      var (s, r) := ReadStrings(n, b).value;
      && |s| == n && (forall i :: 0 <= i < n ==> |s[i]| < TWO16)
      && EncodeStrings(s) + r == b && 2 * n + |r| <= |b|
  {
    hide Num16, TakeBytes, Put16;
    if n == 0 {
      assert [] + b == b;
    } else if ReadStrings(n, b).Some? {
      Num16Is(b);
      var (l, r) := Num16(b).value;
      TakeIs(r, l);
      var (s0, r2) := TakeBytes(r, l).value;
      WriteReadStrings(n - 1, r2);
      var (t, r3) := ReadStrings(n - 1, r2).value;
      var s := [s0] + t;
      assert s[1..] == t && s[0] == s0;
      assert EncodeStrings(s) + r3 == Put16(l) + (s0 + (EncodeStrings(t) + r3));
    }
  }

  lemma WriteReadTable(b: bytes, w: nat)
    ensures ReadTable(b, w).Some? ==>
      var (starts, ids, r) := ReadTable(b, w).value;
      exists n: nat :: TableOf(b, w, n, starts, ids, r)
  {
    hide Num32, TakeBytes, Put32;
    if ReadTable(b, w).Some? {
      var (starts, ids, r) := ReadTable(b, w).value;
      Num32Is(b);
      var (n, r1) := Num32(b).value;
      TakeIs(r1, n * w);
      var r2 := TakeBytes(r1, n * w).value.1;
      TakeIs(r2, n * 4);
      assert Put32(n) + starts + ids + r == Put32(n) + (starts + (ids + r));
      assert TableOf(b, w, n, starts, ids, r);
    }
  }

  ghost predicate TableOf(b: bytes, w: nat, n: nat, starts: bytes, ids: bytes, r: bytes) {
    n < TWO32 && |starts| == n * w && |ids| == n * 4 && Put32(n) + starts + ids + r == b
  }

  lemma WriteReadRecords(b: bytes, width: nat)
    ensures ReadRecords(b, width).Some? ==>
      var (rc, recs, r) := ReadRecords(b, width).value;
      1 <= rc < TWO32 && |recs| == rc * width && Put32(rc) + Put16(width) + recs + r == b
  {
    hide Num32, Num16, TakeBytes, Put32, Put16;
    if ReadRecords(b, width).Some? {
      var (rc, recs, r) := ReadRecords(b, width).value;
      Num32Is(b);
      var r1 := Num32(b).value.1;
      Num16Is(r1);
      var r2 := Num16(r1).value.1;
      TakeIs(r2, rc * width);
      assert Put32(rc) + Put16(width) + recs + r == Put32(rc) + (Put16(width) + (recs + r));
    }
  }

  /** One table's piece of an encoding. */
  lemma TablePiece(b: bytes, w: nat, starts: bytes, ids: bytes, r: bytes)
    requires ReadTable(b, w) == Some((starts, ids, r)) && (w == 4 || w == 16)
    ensures |starts| % w == 0 && |starts| < w * TWO32 && |ids| == |starts| / w * 4
    ensures Put32(|starts| / w) + starts + ids + r == b
  {
    hide ReadTable, Put32;
    WriteReadTable(b, w);
    var n: nat :| TableOf(b, w, n, starts, ids, r);
  }

  /** Whatever is read from a body encodes back to it. */
  lemma WriteRead(b: bytes)
    requires HeaderOk(b)
    ensures ReadBody(b[5], b[6], b[8..]).Some? ==>
      var d := ReadBody(b[5], b[6], b[8..]).value;
      && d.profile == b[5] && d.latScale == b[6] && Encode(d) == b
      && |d.strings| < TWO32 && (forall i :: 0 <= i < |d.strings| ==> |d.strings[i]| < TWO16)
      && 1 <= d.rc < TWO32 && |d.recs| == d.rc * RecWidth(d.profile)
      && |d.starts4| % 4 == 0 && |d.starts4| < 4 * TWO32 && |d.ids4| == |d.starts4|
      && |d.starts6| % 16 == 0 && |d.starts6| < 16 * TWO32 && |d.ids6| * 4 == |d.starts6|
  {
    hide Num32, Num16, TakeBytes, ReadTable, ReadRecords, ReadStrings, EncodeStrings, Put16, Put32, RecWidth;
    var body := b[8..];
    if ReadBody(b[5], b[6], body).Some? {
      Num32Is(body);
      var (ns, r) := Num32(body).value;
      WriteReadStrings(ns, r);
      var (strings, r2) := ReadStrings(ns, r).value;
      WriteReadRecords(r2, RecWidth(b[5]));
      var (rc, recs, r3) := ReadRecords(r2, RecWidth(b[5])).value;
      var (s4, i4, r4) := ReadTable(r3, 4).value;
      TablePiece(r3, 4, s4, i4, r4);
      var (s6, i6, r5) := ReadTable(r4, 16).value;
      TablePiece(r4, 16, s6, i6, r5);
      var d := ReadBody(b[5], b[6], body).value;
      assert Put32(|s6| / 16) + s6 + i6 + r5 == Put32(|s6| / 16) + s6 + i6;
      assert b == MAGIC + [1, d.profile, d.latScale, 0] + body;
      assert Encode(d) == b;
    }
  }
}
