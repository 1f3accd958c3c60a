/** What one CSV row stores (csvdb/reader.go add, unread): an IPv6 range split
    at the alias blocks, its IPv4-mapped part as IPv4. */
module CsvRows {
  import opened Words
  import opened Addresses
  import opened Clipping
  import opened Ranges

  /** A row that is stored: its addresses and the id of its record. */
  datatype Stored = Stored(first: Addr, last: Addr, id: u32)

  ghost predicate IsRange(first: Addr, last: Addr) {
    match (first, last)
    case (V4(f), V4(l)) => f <= l
    case (V6(f), V6(l)) => f <= l
    case _ => false
  }

  function Max(a: int, b: int): int { if a < b then b else a }
  function Min(a: int, b: int): int { if a < b then a else b }

  /** The IPv4-mapped part of an IPv6 range, in IPv4 form. */
  function MappedPart(f: int, l: int): seq<Block> {
    var a, z := Max(f, MAPPED.first), Min(l, MAPPED.last);
    if a <= z then [Block(a - MAPPED.first, z - MAPPED.first)] else []
  }

  ghost function Pieces4(r: Stored): seq<Item>
    requires IsRange(r.first, r.last)
  {
    match r.first
    case V4(f) => [Item(Block(f, r.last.a), r.id)]
    case V6(f) => Label(MappedPart(f, r.last.b), r.id)
  }

  ghost function Pieces6(r: Stored): seq<Item>
    requires IsRange(r.first, r.last)
  {
    match r.first
    case V4(_) => []
    case V6(f) => Label(Parts(ALIASES, f, r.last.b), r.id)
  }

  /** unread: the range lies in an alias block whose data is not stored. */
  predicate Unread(first: Addr, last: Addr) {
    first.V6? && last.V6?
    && exists k :: 0 <= k < |ALIASES| && k != 1 && ALIASES[k].first <= first.b && last.b <= ALIASES[k].last
  }

  /** The address an answer for x is stored under, in the table it is read from. */
  ghost predicate CoversV6(r: Stored, x: u128) {
    IsRange(r.first, r.last) && r.first.V6? && r.first.b <= x <= r.last.b && !InSome(ALIASES, x)
  }

  ghost predicate CoversV4(r: Stored, a: u32) {
    IsRange(r.first, r.last) &&
    match r.first
    case V4(f) => f <= a <= r.last.a
    case V6(f) => f <= MAPPED.first + a <= r.last.b
  }

  /** A row's pieces are its addresses: nothing is lost but the alias blocks,
      nothing is added, and the mapped block becomes IPv4. */
  lemma PiecesConserve(r: Stored, x: u128, a: u32, id: u32)
    requires IsRange(r.first, r.last)
    ensures Has(Pieces6(r), x, id) <==> CoversV6(r, x) && id == r.id
    ensures Has(Pieces4(r), a, id) <==> CoversV4(r, a) && id == r.id
  {
    match r.first {
      case V4(f) =>
        var p := Pieces4(r);
        assert p[0].range.Holds(a) <==> f <= a <= r.last.a;
      case V6(f) =>
        AliasesDisjoint();
        PartsExact(ALIASES, f, r.last.b, x);
        HasLabel(Parts(ALIASES, f, r.last.b), x, id, r.id);
        var m := MappedPart(f, r.last.b);
        HasLabel(m, a, id, r.id);
        assert InSome(m, a) <==> f <= MAPPED.first + a <= r.last.b by {
          if |m| > 0 {
            assert m[0].Holds(a) <==> f <= MAPPED.first + a <= r.last.b;
          }
        }
    }
  }

  /** The pieces of a row are in ascending order and non-empty. */
  lemma PiecesInOrder(r: Stored)
    requires IsRange(r.first, r.last)
    ensures r.first.V6? ==> InOrder(Pieces6(r), r.first.b, r.last.b)
    ensures r.first.V4? ==> Pieces6(r) == [] && InOrder(Pieces4(r), r.first.a, r.last.a)
    ensures |Pieces4(r)| <= 1 && InOrder(Pieces4(r), 0, MAX4)
  {
    if r.first.V6? {
      AliasesDisjoint();
      PartsOrdered(ALIASES, r.first.b, r.last.b);
    }
  }

  /** unread holds exactly for the rows from which add would emit nothing. */
  lemma UnreadEmitsNothing(r: Stored)
    requires IsRange(r.first, r.last)
    ensures Unread(r.first, r.last) <==> Pieces4(r) == [] && Pieces6(r) == []
  {
    if r.first.V6? {
      var f, l := r.first.b, r.last.b;
      var p := Parts(ALIASES, f, l);
      AliasesDisjoint();
      if Unread(r.first, r.last) {
        var k :| 0 <= k < |ALIASES| && k != 1 && ALIASES[k].first <= f && l <= ALIASES[k].last;
        AliasedNoParts(f, l, k);
        assert k == 0 ==> l < MAPPED.first;
        assert k >= 2 ==> MAPPED.last < f;
      } else if p == [] && MappedPart(f, l) == [] {
        AllAliased(f, l, f);
        AllAliased(f, l, l);
        BetweenAliases(f, l);
      }
    }
  }

  lemma AliasedNoParts(f: int, l: int, k: nat)
    requires k < |ALIASES| && ALIASES[k].first <= f <= l <= ALIASES[k].last
    ensures Parts(ALIASES, f, l) == []
  {
    var p := Parts(ALIASES, f, l);
    var x := if p == [] then f else p[0].first;
    AliasesDisjoint();
    PartsOrdered(ALIASES, f, l);
    PartsExact(ALIASES, f, l, x);
    assert p != [] ==> InSome(p, x) by {
      assert p != [] ==> p[0].Holds(x);
    }
    assert f <= x <= l ==> ALIASES[k].Holds(x);
  }

  lemma AllAliased(f: u128, l: u128, x: u128)
    requires f <= x <= l && Parts(ALIASES, f, l) == []
    ensures InSome(ALIASES, x)
  {
    AliasesDisjoint();
    PartsExact(ALIASES, f, l, x);
  }

  /** The addresses right after the first three aliases are not aliased. */
  lemma BetweenAliases(f: u128, l: u128)
    requires f <= l && Parts(ALIASES, f, l) == [] && MappedPart(f, l) == []
    ensures Unread(V6(f), V6(l))
  {
    AllAliased(f, l, f);
    var k :| 0 <= k < |ALIASES| && ALIASES[k].Holds(f);
    assert k != 1 by {
      assert ALIASES[1] == MAPPED;
    }
    var e := ALIASES[k].last;
    if e < l {
      AllAliased(f, l, e + 1);
      NotAliased(k);
    }
    assert ALIASES[k].first <= f && l <= ALIASES[k].last;
  }

  lemma NotAliased(k: nat)
    requires k < |ALIASES|
    ensures !InSome(ALIASES, ALIASES[k].last + 1)
  {
    var x := ALIASES[k].last + 1;
    assert ALIASES[0] == COMPAT && ALIASES[1] == MAPPED && ALIASES[2] == TEREDO && ALIASES[3] == SIX_TO_FOUR;
    assert !COMPAT.Holds(x) && !MAPPED.Holds(x) && !TEREDO.Holds(x) && !SIX_TO_FOUR.Holds(x);
  }

  // ---- runs of rows ---------------------------------------------------------------------

  ghost predicate AllRanges(log: seq<Stored>) {
    forall k :: 0 <= k < |log| ==> IsRange(log[k].first, log[k].last)
  }

  /** What a run of stored rows hands to the builder. */
  ghost function All4(log: seq<Stored>): seq<Item>
    requires AllRanges(log)
  {
    if log == [] then [] else All4(log[..|log| - 1]) + Pieces4(log[|log| - 1])
  }

  ghost function All6(log: seq<Stored>): seq<Item>
    requires AllRanges(log)
  {
    if log == [] then [] else All6(log[..|log| - 1]) + Pieces6(log[|log| - 1])
  }

  ghost predicate StoredV6(log: seq<Stored>, x: u128, id: u32) {
    exists k :: 0 <= k < |log| && CoversV6(log[k], x) && log[k].id == id
  }

  ghost predicate StoredV4(log: seq<Stored>, a: u32, id: u32) {
    exists k :: 0 <= k < |log| && CoversV4(log[k], a) && log[k].id == id
  }

  /** Each address of the build carries the id of a row that covers it, and each
      address a row covers is in the build. */
  lemma {:induction false} RunConserves(log: seq<Stored>, x: u128, a: u32, id: u32)
    requires AllRanges(log)
    ensures Has(All6(log), x, id) <==> StoredV6(log, x, id)
    ensures Has(All4(log), a, id) <==> StoredV4(log, a, id)
  {
    if log != [] {
      var n := |log| - 1;
      var init, r := log[..n], log[n];
      RunConserves(init, x, a, id);
      PiecesConserve(r, x, a, id);
      HasConcat(All6(init), Pieces6(r), x, id);
      HasConcat(All4(init), Pieces4(r), a, id);
      assert StoredV6(log, x, id) <==> StoredV6(init, x, id) || (CoversV6(r, x) && r.id == id) by {
        assert forall k :: 0 <= k < n ==> init[k] == log[k];
      }
      assert StoredV4(log, a, id) <==> StoredV4(init, a, id) || (CoversV4(r, a) && r.id == id) by {
        assert forall k :: 0 <= k < n ==> init[k] == log[k];
      }
    }
  }
}
