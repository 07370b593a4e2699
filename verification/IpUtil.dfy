/**
 Which addresses are looked up for a caller (iputil/iputil.go): the complement of a table of
 prefixes and of the classes of net/netip, here as intervals.
 */
module IpUtil {
  import opened Netip

  // ------------------------------------------------- what net/netip classifies

  /** Byte i of an IPv4 address, from the front. */
  function Octet(n: nat, i: nat): nat
    requires i < 4
  {
    n / [0x100_0000, 0x1_0000, 0x100, 1][i] % 0x100
  }

  /** The first 16 bits of an IPv6 address. */
  function FirstHextet(n: nat): nat {
    n / 0x1_0000_0000_0000_0000_0000_0000_0000
  }

  predicate IsUnspecified(a: Addr) {
    a.Number() == 0
  }

  predicate IsLoopback(a: Addr) {
    if a.V4? then Octet(a.n, 0) == 127 else a.Number() == 1
  }

  predicate IsPrivate(a: Addr) {
    if a.V4? then
      || Octet(a.n, 0) == 10
      || (Octet(a.n, 0) == 172 && Octet(a.n, 1) / 0x10 == 1)
      || (Octet(a.n, 0) == 192 && Octet(a.n, 1) == 168)
    else FirstHextet(a.Number()) / 0x200 == 0xfc00 / 0x200
  }

  predicate IsLinkLocalUnicast(a: Addr) {
    if a.V4? then Octet(a.n, 0) == 169 && Octet(a.n, 1) == 254
    else FirstHextet(a.Number()) / 0x40 == 0xfe80 / 0x40
  }

  predicate IsMulticast(a: Addr) {
    if a.V4? then Octet(a.n, 0) / 0x10 == 0xe else FirstHextet(a.Number()) / 0x100 == 0xff
  }

  predicate Classified(a: Addr) {
    IsUnspecified(a) || IsLoopback(a) || IsPrivate(a) || IsLinkLocalUnicast(a) || IsMulticast(a)
  }

  // ------------------------------------------------------------------- Public

  const NOT_GLOBALLY_REACHABLE: seq<Prefix> := [
    Prefix(V4(0x0000_0000), 8),    // this network
    Prefix(V4(0x6440_0000), 10),   // 100.64.0.0, shared address space
    Prefix(V4(0xc000_0000), 24),   // 192.0.0.0, IETF protocol assignments
    Prefix(V4(0xc000_0200), 24),   // 192.0.2.0, documentation
    Prefix(V4(0xc612_0000), 15),   // 198.18.0.0, benchmarking
    Prefix(V4(0xc633_6400), 24),   // 198.51.100.0, documentation
    Prefix(V4(0xcb00_7100), 24),   // 203.0.113.0, documentation
    Prefix(V4(0xf000_0000), 4),    // 240.0.0.0, reserved
    Prefix(V6(0x0100_0000_0000_0000_0000_0000_0000_0000, ""), 64),   // discard only
    Prefix(V6(0x2001_0002_0000_0000_0000_0000_0000_0000, ""), 48),   // benchmarking
    Prefix(V6(0x2001_0db8_0000_0000_0000_0000_0000_0000, ""), 32),   // documentation
    Prefix(V6(0x3fff_0000_0000_0000_0000_0000_0000_0000, ""), 20),   // documentation
    Prefix(V6(0x5f00_0000_0000_0000_0000_0000_0000_0000, ""), 16)    // segment routing SIDs
  ]

  predicate InSome(prefixes: seq<Prefix>, a: Addr) {
    exists i | 0 <= i < |prefixes| :: prefixes[i].Contains(a)
  }

  /** Outside every class and every prefix of the table, after unmapping. */
  predicate Public(addr: Addr) {
    if !addr.Valid() || addr.Zoned() then false else
      var a := addr.Unmap();
      && !Classified(a)
      && !InSome(NOT_GLOBALLY_REACHABLE, a)
  }

  // ---------------------------------------------------------------- intervals

  /** The IPv4 numbers that are not public: disjoint intervals, in order. */
  const RESERVED4: seq<(nat, nat)> := [
    (0x0000_0000, 0x0100_0000),    // 0.0.0.0/8
    (0x0a00_0000, 0x0b00_0000),    // 10.0.0.0/8
    (0x6440_0000, 0x6480_0000),    // 100.64.0.0/10
    (0x7f00_0000, 0x8000_0000),    // 127.0.0.0/8
    (0xa9fe_0000, 0xa9ff_0000),    // 169.254.0.0/16
    (0xac10_0000, 0xac20_0000),    // 172.16.0.0/12
    (0xc000_0000, 0xc000_0100),    // 192.0.0.0/24
    (0xc000_0200, 0xc000_0300),    // 192.0.2.0/24
    (0xc0a8_0000, 0xc0a9_0000),    // 192.168.0.0/16
    (0xc612_0000, 0xc614_0000),    // 198.18.0.0/15
    (0xc633_6400, 0xc633_6500),    // 198.51.100.0/24
    (0xcb00_7100, 0xcb00_7200),    // 203.0.113.0/24
    (0xe000_0000, 0x1_0000_0000)   // 224.0.0.0/4 and 240.0.0.0/4
  ]

  /** The IPv6 numbers, mapped addresses aside, that are not public. */
  const RESERVED6: seq<(nat, nat)> := [
    (0, 2),                                                                                            // :: and ::1
    (0x0100_0000_0000_0000_0000_0000_0000_0000, 0x0100_0000_0000_0001_0000_0000_0000_0000),            // 100::/64
    (0x2001_0002_0000_0000_0000_0000_0000_0000, 0x2001_0002_0001_0000_0000_0000_0000_0000),            // 2001:2::/48
    (0x2001_0db8_0000_0000_0000_0000_0000_0000, 0x2001_0db9_0000_0000_0000_0000_0000_0000),            // 2001:db8::/32
    (0x3fff_0000_0000_0000_0000_0000_0000_0000, 0x3fff_1000_0000_0000_0000_0000_0000_0000),            // 3fff::/20
    (0x5f00_0000_0000_0000_0000_0000_0000_0000, 0x5f01_0000_0000_0000_0000_0000_0000_0000),            // 5f00::/16
    (0xfc00_0000_0000_0000_0000_0000_0000_0000, 0xfe00_0000_0000_0000_0000_0000_0000_0000),            // fc00::/7
    (0xfe80_0000_0000_0000_0000_0000_0000_0000, 0xfec0_0000_0000_0000_0000_0000_0000_0000),            // fe80::/10
    (0xff00_0000_0000_0000_0000_0000_0000_0000, 0x1_0000_0000_0000_0000_0000_0000_0000_0000)           // ff00::/8
  ]

  predicate Within(n: nat, intervals: seq<(nat, nat)>) {
    exists i | 0 <= i < |intervals| :: intervals[i].0 <= n < intervals[i].1
  }

  /** The number is in one of the reserved intervals of the family. */
  predicate Reserved(a: Addr) {
    match a
    case NoAddr => true
    case V4(n) => Within(n, RESERVED4)
    case V6(n, _) => Within(n, RESERVED6)
  }

  lemma SpanOf(p: Prefix, a: Addr, hi: nat)
    requires p.Valid() && a.Valid() && !a.Zoned() && a.BitLen() == p.addr.BitLen()
    requires hi == p.addr.Number() + Pow2(p.HostBits()) && p.addr.Number() % Pow2(p.HostBits()) == 0
    ensures p.Contains(a) <==> p.addr.Number() <= a.Number() < hi
  {
    ContainsIsInterval(p, a);
  }

  lemma HostSizes(zero: nat)
    requires zero == 0
    ensures Pow2(zero + 8) == 0x100 && Pow2(zero + 17) == 0x2_0000 && Pow2(zero + 22) == 0x40_0000
    ensures Pow2(zero + 24) == 0x100_0000 && Pow2(zero + 28) == 0x1000_0000
  {
    NextOctet(zero);
    NextOctet(zero + 8);
    NextOctet(zero + 16);
    assert Pow2(zero + 17) == 2 * Pow2(zero + 16);
    assert Pow2(zero + 24) == 2 * Pow2(zero + 23) == 4 * Pow2(zero + 22);
    assert Pow2(zero + 28) == 4 * Pow2(zero + 26) == 16 * Pow2(zero + 24);
  }

  lemma HostSizes6(zero: nat)
    requires zero == 0
    ensures Pow2(zero + 64) == 0x1_0000_0000_0000_0000 && Pow2(zero + 80) == 0x1_0000_0000_0000_0000_0000
    ensures Pow2(zero + 96) == 0x1_0000_0000_0000_0000_0000_0000
    ensures Pow2(zero + 108) == 0x1000_0000_0000_0000_0000_0000_0000
    ensures Pow2(zero + 112) == 0x1_0000_0000_0000_0000_0000_0000_0000
  {
    assert Pow2(zero) == 1;
    assert Pow2(zero + 112) == 4 * Pow2(zero + 110) == 16 * Pow2(zero + 108);
    hide Pow2;
    NextWord(zero);
    NextWord(zero + 32);
    NextWord(zero + 64);
    NextOctet(zero + 64);
    NextOctet(zero + 72);
    NextOctet(zero + 96);
    NextOctet(zero + 104);
  }

  /** Entry i of the table as an interval of the numbers of its family. */
  const SPANS: seq<(nat, nat)> := [
    RESERVED4[0], RESERVED4[2], RESERVED4[6], RESERVED4[7], RESERVED4[9], RESERVED4[10], RESERVED4[11],
    (0xf000_0000, 0x1_0000_0000),
    RESERVED6[1], RESERVED6[2], RESERVED6[3], RESERVED6[4], RESERVED6[5]
  ]

  /** The interval that starts at the prefix's address and is as long as its mask is open. */
  ghost predicate StartsAndEnds(p: Prefix, span: (nat, nat)) {
    && p.Valid() && p.addr.Number() == span.0
    && span.1 == span.0 + Pow2(p.HostBits()) && span.0 % Pow2(p.HostBits()) == 0
  }

  lemma TableStart(i: nat)
    requires i < 4
    ensures NOT_GLOBALLY_REACHABLE[i].addr.V4? && StartsAndEnds(NOT_GLOBALLY_REACHABLE[i], SPANS[i])
  {
    hide Pow2;
    HostSizes(0);
  }

  lemma TableMiddle(i: nat)
    requires 4 <= i < 8
    ensures NOT_GLOBALLY_REACHABLE[i].addr.V4? && StartsAndEnds(NOT_GLOBALLY_REACHABLE[i], SPANS[i])
  {
    hide Pow2;
    HostSizes(0);
  }

  lemma TableEnd(i: nat)
    requires 8 <= i < 13
    ensures NOT_GLOBALLY_REACHABLE[i].addr.V6? && StartsAndEnds(NOT_GLOBALLY_REACHABLE[i], SPANS[i])
  {
    hide Pow2;
    HostSizes6(0);
  }

  /** Entry i of the table contains the addresses of its family in span i. */
  lemma EntrySpan(i: nat, a: Addr)
    requires i < 13 && a.Valid() && !a.Zoned() && if i < 8 then a.V4? else a.V6?
    ensures NOT_GLOBALLY_REACHABLE[i].Contains(a) <==> SPANS[i].0 <= a.Number() < SPANS[i].1
  {
    if i < 4 {
      TableStart(i);
    } else if i < 8 {
      TableMiddle(i);
    } else {
      TableEnd(i);
    }
    hide Pow2, Prefix.Contains, NOT_GLOBALLY_REACHABLE, SPANS;
    SpanOf(NOT_GLOBALLY_REACHABLE[i], a, SPANS[i].1);
  }

  lemma OtherFamily(i: nat, a: Addr)
    requires i < 13 && if i < 8 then !a.V4? else !a.V6?
    ensures !NOT_GLOBALLY_REACHABLE[i].Contains(a)
  {
  }

  lemma Listed(a: Addr)
    requires a.Valid() && !a.Zoned()
    ensures InSome(NOT_GLOBALLY_REACHABLE, a) <==>
            exists i | 0 <= i < 13 :: (if i < 8 then a.V4? else a.V6?) && SPANS[i].0 <= a.Number() < SPANS[i].1
  {
    hide Prefix.Contains;
    forall i | 0 <= i < 13
      ensures NOT_GLOBALLY_REACHABLE[i].Contains(a) <==>
              (if i < 8 then a.V4? else a.V6?) && SPANS[i].0 <= a.Number() < SPANS[i].1
    {
      if if i < 8 then a.V4? else a.V6? {
        EntrySpan(i, a);
      } else {
        OtherFamily(i, a);
      }
    }
  }

  /** The first two octets, as what is above the other sixteen bits. */
  lemma TopOctets(n: nat) returns (top: nat)
    requires n < U32
    ensures 0x1_0000 * top <= n < 0x1_0000 * (top + 1) && top < 0x1_0000
    ensures 0x100 * Octet(n, 0) + Octet(n, 1) == top && Octet(n, 0) < 0x100 && Octet(n, 1) < 0x100
  {
    top := n / 0x1_0000;
    var first := n / 0x100_0000;
    assert 0x100 * first <= top < 0x100 * (first + 1);
  }

  lemma Loopback4(n: nat)
    requires n < U32
    ensures IsLoopback(V4(n)) <==> 0x7f00_0000 <= n < 0x8000_0000
    ensures IsMulticast(V4(n)) <==> 0xe000_0000 <= n < 0xf000_0000
  {
    hide Octet;
    var top := TopOctets(n);
  }

  lemma Private4(n: nat)
    requires n < U32
    ensures IsPrivate(V4(n)) <==>
            0x0a00_0000 <= n < 0x0b00_0000 || 0xac10_0000 <= n < 0xac20_0000 || 0xc0a8_0000 <= n < 0xc0a9_0000
  {
    hide Octet;
    var top := TopOctets(n);
  }

  lemma LinkLocal4(n: nat)
    requires n < U32
    ensures IsLinkLocalUnicast(V4(n)) <==> 0xa9fe_0000 <= n < 0xa9ff_0000
  {
    hide Octet;
    var top := TopOctets(n);
  }

  lemma Classified4(n: nat)
    requires n < U32
    ensures Classified(V4(n)) <==>
            || n == 0 || 0x7f00_0000 <= n < 0x8000_0000 || 0x0a00_0000 <= n < 0x0b00_0000
            || 0xac10_0000 <= n < 0xac20_0000 || 0xc0a8_0000 <= n < 0xc0a9_0000
            || 0xa9fe_0000 <= n < 0xa9ff_0000 || 0xe000_0000 <= n < 0xf000_0000
  {
    hide IsLoopback, IsMulticast, IsPrivate, IsLinkLocalUnicast;
    Loopback4(n);
    Private4(n);
    LinkLocal4(n);
  }

  lemma Classified6(n: nat)
    requires n < U128
    ensures Classified(V6(n, "")) <==>
            || n < 2 || RESERVED6[6].0 <= n < RESERVED6[6].1
            || RESERVED6[7].0 <= n < RESERVED6[7].1 || RESERVED6[8].0 <= n
  {
  }

  lemma Listed4(n: nat)
    requires n < U32
    ensures InSome(NOT_GLOBALLY_REACHABLE, V4(n)) <==>
            || n < 0x0100_0000 || 0x6440_0000 <= n < 0x6480_0000 || 0xc000_0000 <= n < 0xc000_0100
            || 0xc000_0200 <= n < 0xc000_0300 || 0xc612_0000 <= n < 0xc614_0000
            || 0xc633_6400 <= n < 0xc633_6500 || 0xcb00_7100 <= n < 0xcb00_7200 || 0xf000_0000 <= n
  {
    hide InSome;
    Listed(V4(n));
    var s := SPANS;
    assert s[0].0 <= n < s[0].1 || s[1].0 <= n < s[1].1 || s[2].0 <= n < s[2].1 || s[3].0 <= n < s[3].1
           || s[4].0 <= n < s[4].1 || s[5].0 <= n < s[5].1 || s[6].0 <= n < s[6].1 || s[7].0 <= n < s[7].1
           <==> InSome(NOT_GLOBALLY_REACHABLE, V4(n));
  }

  lemma Listed6(n: nat)
    requires n < U128
    ensures InSome(NOT_GLOBALLY_REACHABLE, V6(n, "")) <==>
            || RESERVED6[1].0 <= n < RESERVED6[1].1 || RESERVED6[2].0 <= n < RESERVED6[2].1
            || RESERVED6[3].0 <= n < RESERVED6[3].1 || RESERVED6[4].0 <= n < RESERVED6[4].1
            || RESERVED6[5].0 <= n < RESERVED6[5].1
  {
    hide InSome;
    Listed(V6(n, ""));
    var s, r := SPANS, RESERVED6;
    assert s[8] == r[1] && s[9] == r[2] && s[10] == r[3] && s[11] == r[4] && s[12] == r[5];
  }

  /** The numbers of RESERVED4, written out. */
  lemma Within4(n: nat)
    ensures Within(n, RESERVED4) <==>
            || n < 0x0100_0000 || 0x0a00_0000 <= n < 0x0b00_0000 || 0x6440_0000 <= n < 0x6480_0000
            || 0x7f00_0000 <= n < 0x8000_0000 || 0xa9fe_0000 <= n < 0xa9ff_0000 || 0xac10_0000 <= n < 0xac20_0000
            || 0xc000_0000 <= n < 0xc000_0100 || 0xc000_0200 <= n < 0xc000_0300 || 0xc0a8_0000 <= n < 0xc0a9_0000
            || 0xc612_0000 <= n < 0xc614_0000 || 0xc633_6400 <= n < 0xc633_6500 || 0xcb00_7100 <= n < 0xcb00_7200
            || 0xe000_0000 <= n < U32
  {
    var r := RESERVED4;
    assert Within(n, r) <==>
           || r[0].0 <= n < r[0].1 || r[1].0 <= n < r[1].1 || r[2].0 <= n < r[2].1 || r[3].0 <= n < r[3].1
           || r[4].0 <= n < r[4].1 || r[5].0 <= n < r[5].1 || r[6].0 <= n < r[6].1 || r[7].0 <= n < r[7].1
           || r[8].0 <= n < r[8].1 || r[9].0 <= n < r[9].1 || r[10].0 <= n < r[10].1 || r[11].0 <= n < r[11].1
           || r[12].0 <= n < r[12].1;
  }

  lemma Public4(n: nat)
    requires n < U32
    ensures Public(V4(n)) <==> !Within(n, RESERVED4)
  {
    hide InSome, Classified, Within;
    Classified4(n);
    Listed4(n);
    Within4(n);
  }

  lemma Public6(n: nat)
    requires n < U128 && n / U32 != 0xffff
    ensures Public(V6(n, "")) <==> !Within(n, RESERVED6)
  {
    hide InSome, Classified;
    Classified6(n);
    Listed6(n);
    var r := RESERVED6;
    assert r[0].1 == 2 && r[6].0 < r[6].1 && r[7].0 < r[7].1 && r[8].1 == U128;
  }

  /** The public addresses are exactly the zone-free ones outside a fixed union of intervals, and
      a mapped address is judged like the IPv4 address it carries. */
  lemma PublicIsComplement(addr: Addr)
    ensures Public(addr) <==> addr.Valid() && !addr.Zoned() && !Reserved(addr.Unmap())
    ensures addr.Valid() && !addr.Zoned() ==> Public(addr) == Public(addr.Unmap())
  {
    if addr.Valid() && !addr.Zoned() {
      var a := addr.Unmap();
      if a.V4? {
        Public4(a.n);
      } else {
        Public6(a.n);
      }
    }
  }

  /** A mapped address is public if and only if the IPv4 address it carries is, and an address with
      a zone never is. */
  lemma MappedAndZoned(n: nat, zone: string)
    requires n < 0x1_0000_0000
    ensures Public(V6(0xffff_0000_0000 + n, "")) <==> Public(V4(n))
    ensures zone != "" ==> forall m :: !Public(V6(m, zone))
  {
    UnmapExactly(V6(0xffff_0000_0000 + n, ""));
    UnmapExactly(V4(n));
  }
}
