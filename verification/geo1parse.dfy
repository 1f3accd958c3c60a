/** parseGEO1 (geo1.go): a cursor over the input accepts exactly the encodings
    of well-formed databases. */
module Geo1Parse {
  import opened Words
  import opened Addresses
  import opened Boundaries
  import opened Geo1Format
  import opened Geo2Directory
  import Geo2Tables

  /** A parsed input: the tables are pieces of it, the strings are located by
      the offset of their bytes, which their length precedes. */
  datatype Parsed = Parsed(
    profile: nat, latScale: nat, b: bytes, strOff: seq<nat>, rc: nat, recs: bytes,
    starts4: bytes, ids4: bytes, starts6: bytes, ids6: bytes)
  {
    predicate Located() {
      forall i :: 0 <= i < |strOff| ==> StringAt(b, strOff[i])
    }

    function Str(o: nat): bytes
      requires Located() && o < |strOff|
    {
      StringOf(b, strOff[o])
    }

    function Strings(): (s: seq<bytes>)
      requires Located()
      ensures |s| == |strOff|
    {
      seq(|strOff|, i requires 0 <= i < |strOff| => Str(i))
    }

    /** The database the input encodes. */
    function View(): Geo1
      requires Located()
    {
      Geo1(profile, latScale, Strings(), rc, recs, starts4, ids4, starts6, ids6)
    }
  }

  predicate StringAt(b: bytes, o: nat) {
    2 <= o <= |b| && o + LE16(b, o - 2) <= |b|
  }

  function StringOf(b: bytes, o: nat): bytes
    requires StringAt(b, o)
  {
    b[o..o + LE16(b, o - 2)]
  }

  /** b is the encoding of a well-formed database. */
  ghost predicate IsEncoding(b: bytes) {
    exists d :: WellFormed(d) && Encode(d) == b
  }

  /** There is at most one, the one read from it. */
  lemma EncodingIsRead(b: bytes)
    ensures IsEncoding(b) <==>
      HeaderOk(b) && ReadBody(b[5], b[6], b[8..]).Some? && WellFormed(ReadBody(b[5], b[6], b[8..]).value)
    ensures forall d :: WellFormed(d) && Encode(d) == b ==> ReadBody(b[5], b[6], b[8..]) == Some(d)
  {
    hide ReadBody, Flat4, Flat6, Ascending, IdsBelow;
    forall d | WellFormed(d) && Encode(d) == b
      ensures HeaderOk(b) && ReadBody(b[5], b[6], b[8..]) == Some(d)
    {
      ReadEncoded(d);
      HeaderFields(d);
    }
    if HeaderOk(b) && ReadBody(b[5], b[6], b[8..]).Some? {
      WriteRead(b);
    }
  }

  lemma HeaderFields(d: Geo1)
    requires WellFormed(d)
    ensures |Encode(d)| >= 8 && Encode(d)[5] == d.profile && Encode(d)[6] == d.latScale
  {
  }

  class Cursor {
    const b: bytes
    var off: nat

    constructor (input: bytes, o: nat)
      requires o <= |input|
      ensures b == input && off == o
    {
      b, off := input, o;
    }

    ghost predicate Valid()
      reads this
    {
      off <= |b|
    }

    ghost function Rest(): bytes
      requires Valid()
      reads this
    {
      b[off..]
    }

    /** take: the size is formed in uint64, where it cannot wrap. */
    method Take(count: u32, width: u16) returns (s: Option<bytes>)
      requires Valid()
      modifies this`off
      ensures Valid() && old(off) <= off
      ensures TakeBytes(old(Rest()), count * width) == if s.Some? then Some((s.value, Rest())) else None
      ensures off == old(off) + if s.Some? then (count as int) * (width as int) else 0
      ensures s.Some? ==> s.value == b[old(off)..off]
    {
      MulMonotone(count, width, TWO16);
      var n: u64 := (count as int) * (width as int);
      if n > |b| - off {
        return None;
      }
      var piece := b[off..off + n];
      assert b[off..][..n] == piece && b[off..][n..] == b[off + n..];
      off := off + n;
      return Some(piece);
    }

    method U32() returns (v: Option<u32>)
      requires Valid()
      modifies this`off
      ensures Valid() && old(off) <= off
      ensures Num32(old(Rest())) == if v.Some? then Some((v.value, Rest())) else None
      ensures v.Some? ==> off == old(off) + 4
    {
      hide LE32;
      ghost var r := Rest();
      var s := Take(1, 4);
      if s.None? {
        return None;
      }
      LoadsInside(r, 0, 4, 0);
      return Some(LE32(s.value, 0));
    }

    method U16() returns (v: Option<u16>)
      requires Valid()
      modifies this`off
      ensures Valid() && old(off) <= off
      ensures Num16(old(Rest())) == if v.Some? then Some((v.value, Rest())) else None
      ensures v.Some? ==> off == old(off) + 2 && v.value == LE16(b, old(off))
    {
      var s := Take(1, 2);
      if s.None? {
        return None;
      }
      return Some(LE16(s.value, 0));
    }
  }

  /** How the strings read so far and those left make all of them. */
  ghost predicate StringsSoFar(n: nat, start: bytes, i: nat, done: seq<bytes>, rest: bytes)
    requires i <= n
  {
    ReadStrings(n, start) ==
    match ReadStrings(n - i, rest)
    case None => None
    case Some((t, r)) => Some((done + t, r))
  }

  lemma OneMoreString(n: nat, start: bytes, i: nat, done: seq<bytes>, rest: bytes)
    requires i < n && StringsSoFar(n, start, i, done, rest)
    ensures Num16(rest).None? ==> ReadStrings(n, start).None?
    ensures Num16(rest).Some? ==> var (l, r) := Num16(rest).value;
      && (TakeBytes(r, l).None? ==> ReadStrings(n, start).None?)
      && (TakeBytes(r, l).Some? ==>
            StringsSoFar(n, start, i + 1, done + [TakeBytes(r, l).value.0], TakeBytes(r, l).value.1))
  {
    hide Num16, TakeBytes;
    if Num16(rest).Some? {
      var (l, r) := Num16(rest).value;
      if TakeBytes(r, l).Some? {
        var (s, r2) := TakeBytes(r, l).value;
        match ReadStrings(n - i - 1, r2)
        case None =>
        case Some((t, r3)) => assert done + ([s] + t) == done + [s] + t;
      }
    }
  }

  /** The string table: the count is bounded by the bytes left before any work. */
  method ParseStrings(c: Cursor) returns (ns: nat, strOff: Option<seq<nat>>)
    requires c.Valid()
    modifies c`off
    ensures c.Valid() && old(c.off) <= c.off
    ensures strOff.None? ==> match Num32(old(c.Rest())) case None => true case Some((n, r)) => ReadStrings(n, r).None?
    ensures strOff.Some? ==>
      && (forall i :: 0 <= i < |strOff.value| ==> StringAt(c.b, strOff.value[i]))
      && Num32(old(c.Rest())).Some?
      && var (n, r) := Num32(old(c.Rest())).value;
        |strOff.value| == n
        && ReadStrings(n, r) == Some((seq(n, i requires 0 <= i < n => StringOf(c.b, strOff.value[i])), c.Rest()))
  {
    hide Num16, Num32, TakeBytes, ReadStrings, LE16;
    ns := 0;
    var count := c.U32();
    if count.None? {
      return 0, None;
    }
    ns := count.value;
    ghost var start := c.Rest();
    WriteReadStrings(ns, start);
    if ns > (|c.b| - c.off) / 2 {
      return ns, None;
    }
    var offs: seq<nat> := [];
    ghost var done: seq<bytes> := [];
    NoStringsYet(ns, start);
    for i := 0 to ns
      invariant c.Valid() && old(c.off) <= c.off && |offs| == |done| == i
      invariant forall x :: 0 <= x < i ==> StringAt(c.b, offs[x]) && done[x] == StringOf(c.b, offs[x])
      invariant StringsSoFar(ns, start, i, done, c.Rest())
    {
      OneMoreString(ns, start, i, done, c.Rest());
      ghost var at := c.off;
      var l := c.U16();
      if l.None? {
        return ns, None;
      }
      var s := c.Take(l.value, 1);
      if s.None? {
        return ns, None;
      }
      offs := offs + [c.off - l.value];
      done := done + [s.value];
      TakenString(c.b, at, c.off, l.value, s.value);
    }
    AllStrings(ns, start, done, c.Rest());
    assert done == seq(ns, i requires 0 <= i < ns => StringOf(c.b, offs[i]));
    return ns, Some(offs);
  }

  lemma NoStringsYet(n: nat, start: bytes)
    ensures StringsSoFar(n, start, 0, [], start)
  {
    match ReadStrings(n, start)
    case None =>
    case Some((t, r)) => assert [] + t == t;
  }

  lemma AllStrings(n: nat, start: bytes, done: seq<bytes>, rest: bytes)
    requires StringsSoFar(n, start, n, done, rest)
    ensures ReadStrings(n, start) == Some((done, rest))
  {
    assert done + [] == done;
  }

  lemma TakenString(b: bytes, at: nat, end: nat, l: nat, s: bytes)
    requires at + 2 + l == end <= |b| && l == LE16(b, at) && s == b[at + 2..end]
    ensures StringAt(b, end - l) && StringOf(b, end - l) == s
  {
  }

  method ParseRecords(c: Cursor, width: u16) returns (r: Option<(nat, bytes)>)
    requires c.Valid()
    modifies c`off
    ensures c.Valid() && old(c.off) <= c.off
    ensures ReadRecords(old(c.Rest()), width) == if r.Some? then Some((r.value.0, r.value.1, c.Rest())) else None
  {
    hide Num32, Num16, TakeBytes;
    var rc := c.U32();
    if rc.None? { return None; }
    var rw := c.U16();
    if rw.None? { return None; }
    if rc.value == 0 { return None; }
    if rw.value != width { return None; }
    var recs := c.Take(rc.value, rw.value);
    if recs.None? { return None; }
    return Some((rc.value, recs.value));
  }

  method ParseTable(c: Cursor, width: u16) returns (r: Option<(bytes, bytes)>)
    requires c.Valid()
    modifies c`off
    ensures c.Valid() && old(c.off) <= c.off
    ensures ReadTable(old(c.Rest()), width) == if r.Some? then Some((r.value.0, r.value.1, c.Rest())) else None
  {
    hide Num32, TakeBytes;
    var n := c.U32();
    if n.None? { return None; }
    var starts := c.Take(n.value, width);
    if starts.None? { return None; }
    var ids := c.Take(n.value, 4);
    if ids.None? { return None; }
    return Some((starts.value, ids.value));
  }

  method CheckStarts4(starts: bytes) returns (ok: bool)
    ensures ok <==> Ascending(Flat4(starts))
  {
    hide LE32;
    ghost var s := Flat4(starts);
    var i := 1;
    while i < |starts| / 4
      invariant 1 <= i
      invariant forall k :: 0 < k < i && k < |s| ==> s[k - 1] < s[k]
    {
      assert s[i] == U32At(starts, i) && s[i - 1] == U32At(starts, i - 1);
      if U32At(starts, i) <= U32At(starts, i - 1) {
        return false;
      }
      i := i + 1;
    }
    Geo2Tables.AscendingBySteps(s);
    return true;
  }

  method CheckStarts6(starts: bytes) returns (ok: bool)
    ensures ok <==> Ascending(Flat6(starts))
  {
    hide BE64;
    ghost var s := Flat6(starts);
    var i := 1;
    while i < |starts| / 16
      invariant 1 <= i
      invariant forall k :: 0 < k < i && k < |s| ==> s[k - 1] < s[k]
    {
      assert s[i] == Start6Of(starts, i) && s[i - 1] == Start6Of(starts, i - 1);
      if !Less128(BE64(starts, i * 16 - 16), BE64(starts, i * 16 - 8), BE64(starts, i * 16), BE64(starts, i * 16 + 8)) {
        return false;
      }
      i := i + 1;
    }
    Geo2Tables.AscendingBySteps(s);
    return true;
  }

  method CheckRecordIDs(ids: bytes, rc: nat) returns (ok: bool)
    ensures ok <==> IdsBelow(ids, rc)
  {
    hide LE32;
    for i := 0 to |ids| / 4
      invariant forall k :: 0 <= k < i ==> U32s(ids)[k] < rc
    {
      if U32At(ids, i) >= rc {
        return false;
      }
    }
    return true;
  }

  /** checkHeader, with its error classes. */
  function CheckHeader(h: bytes): (e: Option<Error>)
    ensures e.None? <==> HeaderOk(h)
    ensures e == Some(BadMagic) <==> !(MAGIC <= h)
    ensures e == Some(UnsupportedVersion) <==> MAGIC <= h && |h| >= 8 && h[4] != 1
    ensures e == Some(Corrupt) <==> MAGIC <= h && (|h| < 8 || (h[4] == 1 && !HeaderOk(h)))
  {
    if |h| < 4 || h[..4] != MAGIC then Some(BadMagic)
    else if |h| < 8 then Some(Corrupt)
    else if h[4] != 1 then Some(UnsupportedVersion)
    else if h[5] > 2 || h[6] > 7 || h[7] != 0 then Some(Corrupt)
    else None
  }

  /** parseGEO1 accepts exactly the encodings of well-formed databases, and
      what it returns is the database the input encodes. */
  method ParseGEO1(b: bytes) returns (r: Result<Parsed>)
    ensures r.Ok? <==> IsEncoding(b)
    ensures r.Ok? ==> r.value.b == b && r.value.Located() && WellFormed(r.value.View()) && Encode(r.value.View()) == b
    ensures r.Err? ==> r.error == if CheckHeader(b).Some? then CheckHeader(b).value else Corrupt
  {
    hide Num32, Num16, TakeBytes, ReadStrings, ReadRecords, ReadTable, Encode, Flat4, Flat6, Ascending,
      IdsBelow, RecWidth;
    EncodingIsRead(b);
    var e := CheckHeader(b);
    if e.Some? { return Err(e.value); }
    var c := new Cursor(b, 8);
    var ns, strOff := ParseStrings(c);
    if strOff.None? { return Err(Corrupt); }
    RecWidthFits(b[5]);
    var recs := ParseRecords(c, RecWidth(b[5]));
    if recs.None? { return Err(Corrupt); }
    var t4 := ParseTable(c, 4);
    if t4.None? { return Err(Corrupt); }
    var ok4 := CheckStarts4(t4.value.0);
    var good4 := CheckRecordIDs(t4.value.1, recs.value.0);
    if !ok4 || !good4 { return Err(Corrupt); }
    var t6 := ParseTable(c, 16);
    if t6.None? { return Err(Corrupt); }
    var ok6 := CheckStarts6(t6.value.0);
    var good6 := CheckRecordIDs(t6.value.1, recs.value.0);
    var p := Parsed(b[5], b[6], b, strOff.value, recs.value.0, recs.value.1,
                    t4.value.0, t4.value.1, t6.value.0, t6.value.1);
    ghost var (n, r1) := Num32(b[8..]).value;
    assert p.Strings() == seq(n, i requires 0 <= i < n => StringOf(b, strOff.value[i]));
    assert c.off == |b| ==> ReadBody(b[5], b[6], b[8..]) == Some(p.View());
    if !ok6 || !good6 { return Err(Corrupt); }
    if c.off != |b| { return Err(Corrupt); }
    WriteRead(b);
    return Ok(p);
  }

  lemma RecWidthFits(p: nat)
    ensures RecWidth(p) < TWO16
  {
  }
}
