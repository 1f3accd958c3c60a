/** transcode's string renumbering (geo1.go): the strings of u16 fields get the
    lowest ids, then the city names; strings no record uses are dropped. */
module Renumber {
  import opened Words
  import opened Geo1Format
  import opened Geo2Directory
  import opened Geo2Records

  const F_COUNTRY_ISO: nat := 0
  const F_COUNTRY_NAME: nat := 1
  const F_CONTINENT: nat := 2
  const F_COUNTRY_GEO: nat := 3
  const F_REGION_ISO: nat := 4
  const F_REGION_NAME: nat := 5
  const F_CITY_NAME: nat := 6
  const F_CITY_GEO: nat := 7
  const F_LAT: nat := 8
  const F_LON: nat := 9
  const F_ACCURACY: nat := 10
  const F_TIME_ZONE: nat := 11

  /** The fields a profile's records have. */
  predicate HasF(profile: nat, f: nat) {
    f * 4 + 4 <= RecWidth(profile)
  }

  ghost predicate Rows(recs: bytes, rc: nat, profile: nat) {
    |recs| == rc * RecWidth(profile)
  }

  /** u32 field f of GEO1 record i. */
  function Field(recs: bytes, rc: nat, profile: nat, i: nat, f: nat): u32
    requires Rows(recs, rc, profile) && i < rc && HasF(profile, f)
  {
    RowInside(RecWidth(profile), i, rc);
    LE32(recs, i * RecWidth(profile) + f * 4)
  }

  /** Whether field f of record i names string o of a table of ns. */
  ghost predicate Names(recs: bytes, rc: nat, profile: nat, ns: nat, f: nat, i: nat, o: nat)
    requires Rows(recs, rc, profile) && HasF(profile, f)
  {
    1 <= i < rc && 0 < o < ns && Field(recs, rc, profile, i, f) == o
  }

  ghost predicate UsedIn(recs: bytes, rc: nat, profile: nat, ns: nat, f: nat, o: nat)
    requires Rows(recs, rc, profile) && HasF(profile, f)
  {
    exists i: nat :: Names(recs, rc, profile, ns, f, i, o)
  }

  ghost predicate UsedInSome(recs: bytes, rc: nat, profile: nat, ns: nat, fs: seq<nat>, o: nat)
    requires Rows(recs, rc, profile) && forall k :: 0 <= k < |fs| ==> HasF(profile, fs[k])
  {
    exists k :: 0 <= k < |fs| && UsedIn(recs, rc, profile, ns, fs[k], o)
  }

  /** The strings the given fields use. */
  ghost function Used(recs: bytes, rc: nat, profile: nat, ns: nat, fs: seq<nat>): set<nat>
    requires Rows(recs, rc, profile) && forall k :: 0 <= k < |fs| ==> HasF(profile, fs[k])
  {
    set o: nat | 0 < o < ns && UsedInSome(recs, rc, profile, ns, fs, o)
  }

  /** newID numbers exactly the strings in used, 1 to next - 1, each once. */
  ghost predicate Numbered(newID: seq<nat>, next: nat, used: set<nat>) {
    && (forall o :: o in used ==> 0 < o < |newID|)
    && (forall o :: 0 <= o < |newID| ==> (newID[o] != 0 <==> o in used) && newID[o] < next)
    && (forall o, q :: 0 <= o < q < |newID| && newID[o] != 0 ==> newID[o] != newID[q])
    && |used| + 1 == next
  }

  lemma NumberOne(newID: seq<nat>, next: nat, used: set<nat>, o: nat)
    requires Numbered(newID, next, used) && 0 < o < |newID| && newID[o] == 0
    ensures Numbered(newID[o := next], next + 1, used + {o})
  {
  }

  ghost predicate Extends(a: seq<nat>, b: seq<nat>) {
    |a| == |b| && forall o :: 0 <= o < |a| && a[o] != 0 ==> b[o] == a[o]
  }

  /** The strings field f of the first i records use. */
  ghost predicate UsedBelow(recs: bytes, rc: nat, profile: nat, ns: nat, f: nat, i: nat, o: nat)
    requires Rows(recs, rc, profile) && HasF(profile, f)
  {
    exists x: nat :: x < i && Names(recs, rc, profile, ns, f, x, o)
  }

  /** assign: numbers the strings of one field that have no number yet. */
  method Assign(recs: bytes, rc: nat, profile: nat, f: nat, newID: array<nat>, next: nat, ghost used: set<nat>)
    returns (next': nat, ghost used': set<nat>)
    requires Rows(recs, rc, profile) && HasF(profile, f) && rc >= 1
    requires Numbered(newID[..], next, used)
    modifies newID
    ensures Numbered(newID[..], next', used') && Extends(old(newID[..]), newID[..])
    ensures forall o: nat :: o in used' <==> o in used || UsedIn(recs, rc, profile, newID.Length, f, o)
  {
    hide LE32, RecWidth, Field;
    next', used' := next, used;
    ghost var before := newID[..];
    var ns := newID.Length;
    for i := 1 to rc
      invariant Numbered(newID[..], next', used') && Extends(before, newID[..])
      invariant forall o: nat :: o in used' <==> o in used || UsedBelow(recs, rc, profile, ns, f, i, o)
    {
      var o := Field(recs, rc, profile, i, f);
      ghost var was := used';
      OneMoreRecord(recs, rc, profile, ns, f, i);
      if o != 0 && o < ns && newID[o] == 0 {
        ghost var ids := newID[..];
        NumberOne(ids, next', used', o);
        newID[o] := next';
        assert newID[..] == ids[o := next'];
        next', used' := next' + 1, used' + {o};
      }
      assert o != 0 && o < ns ==> o in used';
      forall q: nat
        ensures q in used' <==> q in used || UsedBelow(recs, rc, profile, ns, f, i + 1, q)
      {
        assert q in used' <==> q in was || (q == o && 0 < o < ns);
      }
    }
    AllRecords(recs, rc, profile, ns, f);
  }

  lemma OneMoreRecord(recs: bytes, rc: nat, profile: nat, ns: nat, f: nat, i: nat)
    requires Rows(recs, rc, profile) && HasF(profile, f) && 1 <= i < rc
    ensures forall q: nat ::
        UsedBelow(recs, rc, profile, ns, f, i + 1, q)
        <==> UsedBelow(recs, rc, profile, ns, f, i, q) || (0 < q < ns && Field(recs, rc, profile, i, f) == q)
  {
    hide Field;
    forall q: nat
      ensures UsedBelow(recs, rc, profile, ns, f, i + 1, q)
        <==> UsedBelow(recs, rc, profile, ns, f, i, q) || (0 < q < ns && Field(recs, rc, profile, i, f) == q)
    {
      assert Names(recs, rc, profile, ns, f, i, q) <==> 0 < q < ns && Field(recs, rc, profile, i, f) == q;
    }
  }

  lemma AllRecords(recs: bytes, rc: nat, profile: nat, ns: nat, f: nat)
    requires Rows(recs, rc, profile) && HasF(profile, f)
    ensures forall q: nat :: UsedBelow(recs, rc, profile, ns, f, rc, q) <==> UsedIn(recs, rc, profile, ns, f, q)
  {
    hide Field;
    forall q: nat
      ensures UsedBelow(recs, rc, profile, ns, f, rc, q) <==> UsedIn(recs, rc, profile, ns, f, q)
    {
      if UsedIn(recs, rc, profile, ns, f, q) {
        var i: nat :| Names(recs, rc, profile, ns, f, i, q);
        assert i < rc;
      }
    }
  }

  /** The u16 string fields of a profile, in the order transcode numbers them. */
  function U16Fields(profile: nat): (r: seq<nat>)
    requires profile <= 2
    ensures forall k :: 0 <= k < |r| ==> HasF(profile, r[k])
  {
    [F_COUNTRY_ISO, F_COUNTRY_NAME, F_CONTINENT]
    + (if profile >= 1 then [F_REGION_ISO, F_REGION_NAME] else [])
    + (if profile >= 2 then [F_TIME_ZONE] else [])
  }

  /** Every string field of a profile: those, then the city name. */
  function StringFields(profile: nat): (r: seq<nat>)
    requires profile <= 2
    ensures forall k :: 0 <= k < |r| ==> HasF(profile, r[k])
  {
    U16Fields(profile) + if profile >= 2 then [F_CITY_NAME] else []
  }

  /** The numbering is total on the used strings, and those of u16 fields fit. */
  ghost predicate Renumbering(recs: bytes, rc: nat, profile: nat, newID: seq<nat>, next: nat)
    requires Rows(recs, rc, profile) && profile <= 2
  {
    && Numbered(newID, next, Used(recs, rc, profile, |newID|, StringFields(profile)))
    && next <= 0x100_0000
    && forall o :: o in Used(recs, rc, profile, |newID|, U16Fields(profile)) ==> newID[o] < TWO16
  }

  /** The tables have room for the used strings. */
  ghost predicate StringsFit(recs: bytes, rc: nat, profile: nat, ns: nat)
    requires Rows(recs, rc, profile) && profile <= 2
  {
    && |Used(recs, rc, profile, ns, U16Fields(profile))| < TWO16
    && (profile >= 2 ==> |Used(recs, rc, profile, ns, StringFields(profile))| < 0x100_0000)
  }

  method RenumberStrings(recs: bytes, rc: nat, profile: nat, ns: nat) returns (r: Result<(seq<nat>, nat)>)
    requires Rows(recs, rc, profile) && profile <= 2 && rc >= 1
    ensures r.Ok? <==> StringsFit(recs, rc, profile, ns)
    ensures r.Ok? ==> |r.value.0| == ns && Renumbering(recs, rc, profile, r.value.0, r.value.1)
    ensures r.Err? ==> r.error == TooLarge
  {
    hide UsedIn, Numbered, Field, Rows;
    var newID := new nat[ns](_ => 0);
    var next := 1;
    ghost var used: set<nat> := {};
    NothingNumbered(newID[..]);
    var fs := U16Fields(profile);
    UsedByNone(recs, rc, profile, ns, fs);
    for k := 0 to |fs|
      invariant Numbered(newID[..], next, used) && used == Used(recs, rc, profile, ns, fs[..k])
    {
      next, used := Assign(recs, rc, profile, fs[k], newID, next, used);
      UsedByOneMore(recs, rc, profile, ns, fs, k);
    }
    assert fs[..|fs|] == fs;
    NumberedCount(newID[..], next, used);
    if next > 0x1_0000 {
      return Err(TooLarge);
    }
    ghost var used16, ids16 := used, newID[..];
    assert forall o :: o in used16 ==> ids16[o] < TWO16;
    if profile >= 2 {
      next, used := Assign(recs, rc, profile, F_CITY_NAME, newID, next, used);
      ghost var all := StringFields(profile);
      assert all[..|fs|] == fs && all[..|fs| + 1] == all && all[|fs|] == F_CITY_NAME;
      UsedByOneMore(recs, rc, profile, ns, all, |fs|);
      forall o: nat
        ensures o in used <==> o in Used(recs, rc, profile, ns, all)
      {
        assert o in Used(recs, rc, profile, ns, all[..|fs|]) <==> o in used16;
      }
      assert used == Used(recs, rc, profile, ns, all);
      NumberedCount(newID[..], next, used);
      if next > 0x100_0000 {
        return Err(TooLarge);
      }
    } else {
      assert StringFields(profile) == fs;
    }
    return Ok((newID[..], next));
  }

  lemma NothingNumbered(newID: seq<nat>)
    requires forall o :: 0 <= o < |newID| ==> newID[o] == 0
    ensures Numbered(newID, 1, {})
  {
  }

  lemma NumberedCount(newID: seq<nat>, next: nat, used: set<nat>)
    requires Numbered(newID, next, used)
    ensures |used| + 1 == next
    ensures forall o :: o in used ==> 0 < o < |newID| && 0 < newID[o] < next
  {
  }

  lemma UsedByNone(recs: bytes, rc: nat, profile: nat, ns: nat, fs: seq<nat>)
    requires Rows(recs, rc, profile) && forall k :: 0 <= k < |fs| ==> HasF(profile, fs[k])
    ensures Used(recs, rc, profile, ns, fs[..0]) == {}
  {
  }

  lemma UsedByOneMore(recs: bytes, rc: nat, profile: nat, ns: nat, fs: seq<nat>, k: nat)
    requires Rows(recs, rc, profile) && (forall x :: 0 <= x < |fs| ==> HasF(profile, fs[x])) && k < |fs|
    ensures forall o: nat ::
        o in Used(recs, rc, profile, ns, fs[..k + 1])
        <==> o in Used(recs, rc, profile, ns, fs[..k]) || UsedIn(recs, rc, profile, ns, fs[k], o)
  {
    hide Field, Rows, HasF;
    forall o: nat
      ensures o in Used(recs, rc, profile, ns, fs[..k + 1])
        <==> o in Used(recs, rc, profile, ns, fs[..k]) || UsedIn(recs, rc, profile, ns, fs[k], o)
    {
      assert fs[..k + 1][k] == fs[k];
      assert forall x :: 0 <= x < k ==> fs[..k][x] == fs[..k + 1][x];
      assert UsedIn(recs, rc, profile, ns, fs[k], o) ==> 0 < o < ns;
    }
  }
}
