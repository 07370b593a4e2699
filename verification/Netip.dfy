/**
 Addresses and prefixes as net/netip has them. A prefix is compared bit by bit under its mask;
 what that means as an interval of numbers is proved here.
 */
module Netip {
  import opened Arithmetic

  const U32: nat := 0x1_0000_0000
  const U128: nat := 0x1_0000_0000_0000_0000_0000_0000_0000_0000

  datatype Addr =
    | NoAddr                          // the zero Addr, not valid
    | V4(n: nat)
    | V6(n: nat, zone: string)
  {
    predicate Valid() {
      match this
      case NoAddr => false
      case V4(n) => n < U32
      case V6(n, _) => n < U128
    }

    predicate Zoned() {
      V6? && zone != ""
    }

    /** An IPv4-mapped address, ::ffff:0:0/96 (section 2.5.5.2 of RFC 4291). */
    predicate Is4In6() {
      V6? && n / U32 == 0xffff
    }

    /** The IPv4 address a mapped address carries, any other address unchanged. */
    function Unmap(): (a: Addr)
      ensures Valid() ==> a.Valid()
      ensures !a.Is4In6()
    {
      if Is4In6() then V4(n % U32) else this
    }

    function BitLen(): nat {
      match this
      case NoAddr => 0
      case V4(_) => 32
      case V6(_, _) => 128
    }

    function Number(): nat {
      if NoAddr? then 0 else n
    }
  }

  /** The mapped addresses are the 2^32 numbers from ::ffff:0:0 on, of any zone, and the rest of the
      number is the IPv4 address. */
  lemma UnmapExactly(a: Addr)
    requires a.Valid()
    ensures a.V4? ==> a.Unmap() == a
    ensures a.V6? ==>
              a.Unmap() ==
              if 0xffff_0000_0000 <= a.n < 0x1_0000_0000_0000 then V4(a.n - 0xffff_0000_0000) else a
  {
  }

  // --------------------------------------------------------------------- bits

  function Pow2(k: nat): (p: nat)
    ensures p >= 1
  {
    if k == 0 then 1 else 2 * Pow2(k - 1)
  }

  predicate Bit(n: nat, i: nat) {
    (n / Pow2(i)) % 2 == 1
  }

  lemma HalfAgain(n: nat, k: nat)
    ensures n / Pow2(k) / 2 == n / Pow2(k + 1)
  {
    var p, q := Pow2(k), n / Pow2(k);
    var h := q / 2;
    assert n == q * p + n % p;
    assert q == 2 * h + q % 2;
    assert n == h * (2 * p) + ((q % 2) * p + n % p);
    assert 0 <= (q % 2) * p + n % p < 2 * p;
    QuotientUnique(n, 2 * p, h, (q % 2) * p + n % p);
  }

  /** Numbers of w bits that agree on every bit from k on have the same quotient by 2^k. */
  lemma {:induction false} AgreeingBits(a: nat, b: nat, k: nat, w: nat)
    requires k <= w && a < Pow2(w) && b < Pow2(w)
    ensures (forall i | k <= i < w :: Bit(a, i) == Bit(b, i)) <==> a / Pow2(k) == b / Pow2(k)
    decreases w - k
  {
    if k == w {
      QuotientUnique(a, Pow2(w), 0, a);
      QuotientUnique(b, Pow2(w), 0, b);
    } else {
      AgreeingBits(a, b, k + 1, w);
      HalfAgain(a, k);
      HalfAgain(b, k);
      assert (forall i | k <= i < w :: Bit(a, i) == Bit(b, i)) <==>
             Bit(a, k) == Bit(b, k) && (forall i | k + 1 <= i < w :: Bit(a, i) == Bit(b, i));
    }
  }

  /** The greatest multiple of d up to n. */
  function RoundDown(n: nat, d: nat): (r: nat)
    requires d > 0
    ensures r <= n < r + d
  {
    n - n % d
  }

  // ----------------------------------------------------------------- prefixes

  datatype Prefix = Prefix(addr: Addr, bits: int) {
    predicate Valid() {
      addr.Valid() && !addr.Zoned() && 0 <= bits <= addr.BitLen()
    }

    /** The number of bits outside the mask. */
    function HostBits(): nat {
      if Valid() then addr.BitLen() - bits else 0
    }

    /** The bits of a and of the prefix differ nowhere under the mask. */
    predicate Contains(a: Addr) {
      && Valid() && a.Valid() && !a.Zoned() && a.BitLen() == addr.BitLen()
      && forall i | HostBits() <= i < addr.BitLen() :: Bit(a.Number(), i) == Bit(addr.Number(), i)
    }

    /** The prefix with its host bits cleared. */
    function Masked(): Prefix
      requires Valid()
    {
      Prefix(if addr.V4? then V4(First()) else V6(First(), ""), bits)
    }

    /** The least number under the prefix. */
    function First(): nat {
      RoundDown(addr.Number(), Pow2(HostBits()))
    }

    /** The address is of the prefix's family and in its interval of numbers. */
    predicate Spans(a: Addr) {
      && Valid() && a.Valid() && !a.Zoned() && a.BitLen() == addr.BitLen()
      && First() <= a.Number() < First() + Pow2(HostBits())
    }
  }

  lemma NextOctet(k: nat)
    ensures Pow2(k + 8) == 0x100 * Pow2(k)
  {
    assert Pow2(k + 2) == 4 * Pow2(k);
    assert Pow2(k + 4) == 4 * Pow2(k + 2);
    assert Pow2(k + 6) == 4 * Pow2(k + 4);
    assert Pow2(k + 8) == 4 * Pow2(k + 6);
  }

  lemma NextWord(k: nat)
    ensures Pow2(k + 32) == 0x1_0000_0000 * Pow2(k)
  {
    hide Pow2;
    NextOctet(k);
    NextOctet(k + 8);
    NextOctet(k + 16);
    NextOctet(k + 24);
  }

  lemma Widths()
    ensures Pow2(32) == U32 && Pow2(128) == U128
  {
    var zero: nat := 0;
    assert Pow2(zero) == 1;
    hide Pow2;
    NextWord(zero);
    NextWord(zero + 32);
    NextWord(zero + 64);
    NextWord(zero + 96);
  }

  lemma SameQuotient(a: nat, n: nat, d: nat)
    requires d > 0
    ensures a / d == n / d <==> RoundDown(n, d) <= a < RoundDown(n, d) + d
  {
    var q, r := n / d, RoundDown(n, d);
    assert r == q * d;
    if a / d == q {
      assert a == q * d + a % d;
    }
    if r <= a < r + d {
      QuotientUnique(a, d, q, a - r);
    }
  }

  /** Comparing under the mask is membership in an interval, for every prefix length of either
      family. */
  lemma ContainsIsInterval(p: Prefix, a: Addr)
    ensures p.Contains(a) <==> p.Spans(a)
  {
    if p.Valid() && a.Valid() && !a.Zoned() && a.BitLen() == p.addr.BitLen() {
      Widths();
      AgreeingBits(a.Number(), p.addr.Number(), p.HostBits(), p.addr.BitLen());
      SameQuotient(a.Number(), p.addr.Number(), Pow2(p.HostBits()));
    }
  }

  /** Clearing the host bits keeps what a prefix contains. */
  lemma {:induction false} MaskedSpansTheSame(p: Prefix, a: Addr)
    requires p.Valid()
    ensures p.Masked().Valid() && p.Masked().Masked() == p.Masked()
    ensures p.Masked().Contains(a) <==> p.Contains(a)
  {
    var d, r := Pow2(p.HostBits()), p.First();
    var q := p.addr.Number() / d;
    assert r == q * d;
    QuotientUnique(r, d, q, 0);
    assert RoundDown(r, d) == r;
    ContainsIsInterval(p, a);
    ContainsIsInterval(p.Masked(), a);
  }

  /** Two prefixes of one family are nested or disjoint. */
  lemma NestedOrDisjoint(p: Prefix, q: Prefix)
    requires p.Valid() && q.Valid() && p.addr.BitLen() == q.addr.BitLen() && p.bits <= q.bits
    ensures (forall a :: q.Contains(a) ==> p.Contains(a)) || (forall a :: !(q.Contains(a) && p.Contains(a)))
  {
    if a :| q.Contains(a) && p.Contains(a) {
      forall b | q.Contains(b) ensures p.Contains(b) {
        forall i | p.HostBits() <= i < p.addr.BitLen() ensures Bit(b.Number(), i) == Bit(p.addr.Number(), i) {
          assert Bit(b.Number(), i) == Bit(q.addr.Number(), i) == Bit(a.Number(), i);
        }
      }
    }
  }
}
