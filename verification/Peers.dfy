/**
 Whose word is taken for a client's address (server/request.go), and which networks -T accepts
 (cmd/echoip/main.go). Text is taken as already parsed.
 */
module Peers {
  import opened Wrappers
  import opened Netip
  import opened IpUtil

  // --------------------------------------------------------- trusted networks

  datatype NetworkArgument = Network(prefix: Prefix) | Single(addr: Addr) | Malformed

  datatype Refusal = MappedNetwork | HostBitsSet | NotANetwork

  /** A refused argument, or a prefix that covers what the argument names (see AcceptedCovers). */
  function ParsePrefix(v: NetworkArgument): Result<Prefix, Refusal>
    requires v.Network? ==> v.prefix.Valid()
  {
    match v
    case Network(p) =>
      if p.addr.Is4In6() then Err(MappedNetwork)
      else if p != p.Masked() then Err(HostBitsSet)
      else Ok(p)
    case Single(a) =>
      var u := a.Unmap();
      Ok(Prefix(if u.V6? then V6(u.n, "") else u, u.BitLen()))
    case Malformed => Err(NotANetwork)
  }

  /** Exactly these arguments are accepted: networks that are not written as mapped addresses and
      have no host bits, and single addresses. */
  lemma AcceptedExactly(v: NetworkArgument)
    requires v.Network? ==> v.prefix.Valid()
    ensures var mapped := v.Network? && v.prefix.addr.V6?
                          && 0xffff_0000_0000 <= v.prefix.addr.n < 0x1_0000_0000_0000;
            var hostBits := v.Network? && v.prefix.addr.Number() % Pow2(v.prefix.HostBits()) != 0;
            match v
            case Malformed => ParsePrefix(v) == Err(NotANetwork)
            case Single(a) => ParsePrefix(v).Ok?
            case Network(p) =>
              ParsePrefix(v) == if mapped then Err(MappedNetwork) else if hostBits then Err(HostBitsSet) else Ok(p)
  {
    if v.Network? {
      var n := v.prefix.addr.Number();
      assert 0xffff_0000_0000 <= n < 0x1_0000_0000_0000 <==> n / U32 == 0xffff;
      HostBitsAreMasked(v.prefix);
    }
  }

  lemma HostBitsAreMasked(p: Prefix)
    requires p.Valid()
    ensures p == p.Masked() <==> p.addr.Number() % Pow2(p.HostBits()) == 0
  {
  }

  /** An empty list trusts everybody. */
  predicate Trusts(networks: seq<Prefix>, peer: Addr) {
    networks == [] || InSome(networks, peer)
  }

  /** The address lies in the 2^k numbers from the one the argument names, k being the bits the
      argument leaves open, and is of its family. */
  predicate Covers(v: NetworkArgument, a: Addr) {
    match v
    case Network(p) =>
      p.Valid() && a.BitLen() == p.addr.BitLen()
      && p.addr.Number() <= a.Number() < p.addr.Number() + Pow2(p.HostBits())
    case Single(b) => a.BitLen() == b.Unmap().BitLen() && a.Number() == b.Unmap().Number()
    case Malformed => false
  }

  lemma AcceptedCovers(v: NetworkArgument, a: Addr)
    requires v.Network? ==> v.prefix.Valid()
    requires v.Single? ==> v.addr.Valid()
    requires ParsePrefix(v).Ok? && a.Valid() && !a.Zoned()
    ensures ParsePrefix(v).value.Contains(a) <==> Covers(v, a)
  {
    var p := ParsePrefix(v).value;
    ContainsIsInterval(p, a);
    if v.Single? {
      assert Pow2(p.HostBits()) == 1;
    }
  }

  /** A list built from accepted arguments trusts a zone-free peer if and only if it is empty or
      one of the arguments covers the peer: no argument is widened, narrowed or dropped. */
  lemma {:induction false} TrustsUnion(args: seq<NetworkArgument>, networks: seq<Prefix>, peer: Addr)
    requires forall v | v in args :: (v.Network? ==> v.prefix.Valid()) && (v.Single? ==> v.addr.Valid())
    requires |networks| == |args| && forall i | 0 <= i < |args| :: ParsePrefix(args[i]) == Ok(networks[i])
    ensures peer.Valid() && !peer.Zoned() ==>
              (Trusts(networks, peer) <==> args == [] || exists i | 0 <= i < |args| :: Covers(args[i], peer))
  {
    if peer.Valid() && !peer.Zoned() {
      forall i | 0 <= i < |args| ensures networks[i].Contains(peer) <==> Covers(args[i], peer) {
        assert args[i] in args;
        AcceptedCovers(args[i], peer);
      }
    }
  }

  /** A peer with a zone is trusted by an empty list only. */
  lemma ZonedPeer(networks: seq<Prefix>, peer: Addr)
    requires peer.V6? && peer.zone != ""
    ensures Trusts(networks, peer) <==> networks == []
  {
  }

  // ------------------------------------------------------ the client's address

  /** Text from the query or from a header, which may not be an address. */
  datatype Supplied = NotAnAddress | Address(addr: Addr)

  datatype Problem = InvalidAddress | NotPublicAddress | Internal

  function SuppliedAddr(v: Supplied): Result<Addr, Problem> {
    match v
    case NotAnAddress => Err(InvalidAddress)
    case Address(a) => if Public(a.Unmap()) then Ok(a.Unmap()) else Err(NotPublicAddress)
  }

  /** The first trusted header that is set. */
  function Forwarded(headers: seq<Option<Supplied>>): Option<Supplied> {
    if headers == [] then None
    else if headers[0].Some? then headers[0]
    else Forwarded(headers[1..])
  }

  /** ?ip= first, then a header of a trusted peer, then the peer itself. */
  function IpFromRequest(networks: seq<Prefix>, query: Option<Supplied>, headers: seq<Option<Supplied>>,
                         remote: Option<Addr>): Result<Addr, Problem>
  {
    var peer := if remote.Some? then remote.value.Unmap() else NoAddr;
    if query.Some? then SuppliedAddr(query.value) else
      var forwarded := if Trusts(networks, peer) then Forwarded(headers) else None;
      if forwarded.Some? then SuppliedAddr(forwarded.value)
      else if remote == None then Err(Internal)
      else Ok(peer)
  }

  /** Whatever a caller sends, the address looked up is public or the peer's own, and an IPv4
      address comes in one representation only, so it has one cache entry. */
  lemma LookedUpAddress(networks: seq<Prefix>, query: Option<Supplied>, headers: seq<Option<Supplied>>,
                        remote: Option<Addr>)
    ensures var r := IpFromRequest(networks, query, headers, remote);
            r.Ok? ==> !r.value.Is4In6() && (Public(r.value) || (remote.Some? && r.value == remote.value.Unmap()))
    ensures !Trusts(networks, if remote.Some? then remote.value.Unmap() else NoAddr) ==>
              IpFromRequest(networks, query, headers, remote) == IpFromRequest(networks, query, [], remote)
  {
  }

  /** What becomes of text from the query or a header. */
  ghost predicate IsOutcome(v: Supplied, r: Result<Addr, Problem>) {
    match v
    case NotAnAddress => r == Err(InvalidAddress)
    case Address(a) => if Public(a.Unmap()) then r == Ok(a.Unmap()) else r == Err(NotPublicAddress)
  }

  /** What decides: ?ip= if it is there; else, for a peer that is trusted, the first of the headers
      that is set; else the peer. */
  lemma WhatDecides(networks: seq<Prefix>, query: Option<Supplied>, headers: seq<Option<Supplied>>,
                    remote: Option<Addr>, i: nat)
    ensures var r := IpFromRequest(networks, query, headers, remote);
            var trusted := Trusts(networks, if remote.Some? then remote.value.Unmap() else NoAddr);
            && (query.Some? ==> IsOutcome(query.value, r))
            && (query == None && trusted && i < |headers| && headers[i].Some?
                && (forall j | 0 <= j < i :: headers[j] == None)
                ==> IsOutcome(headers[i].value, r))
            && (query == None && (!trusted || forall j | 0 <= j < |headers| :: headers[j] == None)
                ==> r == if remote == None then Err(Internal) else Ok(remote.value.Unmap()))
  {
    hide Trusts, Public;
    if i < |headers| && forall j | 0 <= j < i :: headers[j] == None {
      FirstSet(headers, i);
    }
    if forall j | 0 <= j < |headers| :: headers[j] == None {
      FirstSet(headers, |headers|);
    }
  }

  lemma {:induction false} FirstSet(headers: seq<Option<Supplied>>, i: nat)
    requires i <= |headers| && forall j | 0 <= j < i :: headers[j] == None
    ensures i == |headers| ==> Forwarded(headers) == None
    ensures i < |headers| && headers[i].Some? ==> Forwarded(headers) == headers[i]
  {
    if i == 0 {
    } else {
      FirstSet(headers[1..], i - 1);
    }
  }
}
