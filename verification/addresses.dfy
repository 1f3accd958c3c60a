/** netip addresses, 128-bit arithmetic on 64-bit halves, and the IPv6
    prefixes whose addresses stand for IPv4 ones. */
module Addresses {
  import opened Words

  /** A netip.Addr without a zone: the zero Addr, IPv4 or IPv6. */
  datatype Addr = NoAddr | V4(a: u32) | V6(b: u128) {
    predicate Is4() { V4? }
    predicate Is6() { V6? }
    predicate IsValid() { !NoAddr? }

    /** ::ffff:0:0/96 */
    predicate Is4In6() { V6? && b / TWO32 == 0xFFFF }

    function Unmap(): Addr {
      if Is4In6() then V4(b % TWO32) else this
    }

    /** netip's order: the zero Addr, then IPv4, then IPv6. */
    predicate Less(o: Addr) {
      match (this, o)
      case (NoAddr, _) => !o.NoAddr?
      case (V4(_), NoAddr) => false
      case (V4(x), V4(y)) => x < y
      case (V4(_), V6(_)) => true
      case (V6(x), V6(y)) => x < y
      case (V6(_), _) => false
    }
  }

  datatype Option<+T> = None | Some(value: T)

  function High(k: u128): u64 { k / TWO64 }
  function Low(k: u128): u64 { k % TWO64 }

  function Join(hi: u64, lo: u64): (k: u128)
    ensures High(k) == hi && Low(k) == lo
  {
    DivModUnique(hi * TWO64 + lo, TWO64, hi, lo);
    hi * TWO64 + lo
  }

  predicate Less128(ahi: u64, alo: u64, bhi: u64, blo: u64) {
    ahi < bhi || (ahi == bhi && alo < blo)
  }

  /** hi:lo - 1, by a borrow out of the low half. */
  function Dec128(hi: u64, lo: u64): (r: (u64, u64))
    requires hi != 0 || lo != 0
    ensures Join(r.0, r.1) == Join(hi, lo) - 1
  {
    (if lo == 0 then hi - 1 else hi, if lo == 0 then TWO64 - 1 else lo - 1)
  }

  /** hi:lo + 1, by a carry into the high half. */
  function Inc128(hi: u64, lo: u64): (r: (u64, u64))
    requires hi != TWO64 - 1 || lo != TWO64 - 1
    ensures Join(r.0, r.1) == Join(hi, lo) + 1
  {
    (if lo == TWO64 - 1 then hi + 1 else hi, if lo == TWO64 - 1 then 0 else lo + 1)
  }

  // ---- the alias prefixes -----------------------------------------------------

  datatype Block = Block(first: int, last: int) {
    predicate Holds(x: int) { first <= x <= last }
  }

  /** ::/96 and ::ffff:0:0/96 (sections 2.5.5.1 and 2.5.5.2 of RFC 4291),
      2001::/32 (section 4 of RFC 4380) and 2002::/16 (section 2 of RFC 3056). */
  const COMPAT := Block(0, TWO32 - 1)
  const MAPPED := Block(0xFFFF * TWO32, 0xFFFF * TWO32 + TWO32 - 1)
  const TEREDO := Block(0x2001_0000 * 0x1_0000_0000_0000_0000_0000_0000,
                        0x2001_0001 * 0x1_0000_0000_0000_0000_0000_0000 - 1)
  const SIX_TO_FOUR := Block(0x2002 * 0x1_0000_0000_0000_0000_0000_0000_0000,
                             0x2003 * 0x1_0000_0000_0000_0000_0000_0000_0000 - 1)

  const ALIASES: seq<Block> := [COMPAT, MAPPED, TEREDO, SIX_TO_FOUR]

  /** The same prefixes by the halves of their first and last addresses. */
  datatype Halves = Halves(fh: u64, fl: u64, lh: u64, ll: u64)

  const V6_ALIASES: seq<Halves> := [
    Halves(0, 0, 0, TWO32 - 1),
    Halves(0, 0xFFFF * TWO32, 0, 0xFFFF * TWO32 + TWO32 - 1),
    Halves(0x2001_0000 * TWO32, 0, 0x2001_0000 * TWO32 + TWO32 - 1, TWO64 - 1),
    Halves(0x2002 * TWO48, 0, 0x2002 * TWO48 + TWO48 - 1, TWO64 - 1)]

  lemma HalvesAreAliases(k: nat)
    requires k < |ALIASES|
    ensures |V6_ALIASES| == |ALIASES|
    ensures var h := V6_ALIASES[k]; ALIASES[k] == Block(Join(h.fh, h.fl), Join(h.lh, h.ll))
  {
  }

  ghost predicate InSome(blocks: seq<Block>, x: int) {
    exists k :: 0 <= k < |blocks| && blocks[k].Holds(x)
  }

  /** embeddedV4: bytes 2-5 of 2002::/16, 4-7 of 2001::/32, 12-15 of ::/96. */
  function EmbeddedV4(k: u128): Option<u32> {
    var hi, lo := High(k), Low(k);
    if hi / TWO48 == 0x2002 then Some(hi / TWO16 % TWO32)
    else if hi / TWO32 == 0x2001_0000 then Some(hi % TWO32)
    else if hi == 0 && lo / TWO32 == 0 then Some(lo % TWO32)
    else None
  }

  /** The IPv4 key an address is looked up by, if any. */
  function KeyOf4(ip: Addr): Option<u32> {
    match ip
    case NoAddr => None
    case V4(a) => Some(a)
    case V6(b) => if ip.Is4In6() then Some(b % TWO32) else EmbeddedV4(b)
  }

  /** The prefixes the range code carves out are exactly the addresses lookups
      send to the IPv4 table. */
  lemma AliasesAreEmbedded(k: u128)
    ensures InSome(ALIASES, k) <==> KeyOf4(V6(k)).Some?
  {
    var hi, lo := High(k), Low(k);
    assert k == hi * TWO64 + lo;
    assert hi / TWO48 == 0x2002 <==> SIX_TO_FOUR.Holds(k);
    assert hi / TWO32 == 0x2001_0000 <==> TEREDO.Holds(k);
    assert (hi == 0 && lo / TWO32 == 0) <==> COMPAT.Holds(k);
    assert V6(k).Is4In6() <==> MAPPED.Holds(k);
    assert ALIASES[0] == COMPAT && ALIASES[1] == MAPPED && ALIASES[2] == TEREDO && ALIASES[3] == SIX_TO_FOUR;
  }

  /** Every IPv6 form of an IPv4 address has that address as its key, whatever
      its other bits. */
  lemma FormsOfV4(a: u32, rest: nat)
    ensures KeyOf4(V4(a)) == Some(a)
    ensures KeyOf4(V6(MAPPED.first + a)) == Some(a)
    ensures KeyOf4(V6(a)) == Some(a)
    ensures rest < TWO64 ==> KeyOf4(V6((0x2001_0000 * TWO32 + a) * TWO64 + rest)) == Some(a)
    ensures rest < TWO16 * TWO64 ==> KeyOf4(V6((0x2002 * TWO32 + a) * TWO16 * TWO64 + rest)) == Some(a)
  {
    if rest < TWO64 {
      DivModUnique((0x2001_0000 * TWO32 + a) * TWO64 + rest, TWO64, 0x2001_0000 * TWO32 + a, rest);
    }
    if rest < TWO16 * TWO64 {
      var hi := (0x2002 * TWO32 + a) * TWO16 + rest / TWO64;
      DivModUnique((0x2002 * TWO32 + a) * TWO16 * TWO64 + rest, TWO64, hi, rest % TWO64);
      DivModUnique(hi, TWO16, 0x2002 * TWO32 + a, rest / TWO64);
    }
  }

  /** One step of range6's loop: the bounds cut at alias k if it lies between
      them and the key. */
  method CutAt(k: nat, fh: u64, fl: u64, lh: u64, ll: u64, hi: u64, lo: u64)
    returns (fh': u64, fl': u64, lh': u64, ll': u64)
    requires k < |ALIASES|
    ensures var a, f, l, key := ALIASES[k], Join(fh, fl), Join(lh, ll), Join(hi, lo);
      && Join(fh', fl') == (if a.last < key && f <= a.last then a.last + 1 else f)
      && Join(lh', ll') == (if key < a.first && a.first <= l then a.first - 1 else l)
  {
    var a := V6_ALIASES[k];
    HalvesAreAliases(k);
    fh', fl', lh', ll' := fh, fl, lh, ll;
    if Less128(a.lh, a.ll, hi, lo) && !Less128(a.lh, a.ll, fh, fl) {
      var n := Inc128(a.lh, a.ll);
      fh', fl' := n.0, n.1;
    }
    if Less128(hi, lo, a.fh, a.fl) && !Less128(lh, ll, a.fh, a.fl) {
      var p := Dec128(a.fh, a.fl);
      lh', ll' := p.0, p.1;
    }
  }
}
