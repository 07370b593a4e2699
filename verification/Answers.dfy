/**
 How a request is answered (server/response.go, server/handler.go): from the cache, or by looking
 the address up and then keeping the answer if it lacks nothing. Database answers and, for each
 address, the resolver's answer are taken as fixed here; Reloading has what happens when the
 databases are replaced.
 */
module Answers {
  import opened Wrappers
  import opened Netip
  import opened Recency
  import Cache
  import opened Peers

  datatype City = City(name: string, latitude: Option<real>, longitude: Option<real>, postalCode: string,
                       timezone: string, regionName: string, regionCode: string, countryName: string,
                       countryISO: string, countryIsEU: Option<bool>)

  datatype ASN = ASN(number: nat, organization: string)

  datatype Response = Response(ip: Addr, country: string, countryISO: string, countryEU: Option<bool>,
                               regionName: string, regionCode: string, postalCode: string, city: string,
                               latitude: Option<real>, longitude: Option<real>, timezone: string,
                               asn: string, asnOrg: string, hostname: string, userAgent: Option<string>)

  /** What the server answers from. An address a database does not hold, a database that is not
      loaded and a failed lookup all give an empty record. */
  datatype Sources = Sources(city: Addr -> City, asn: Addr -> ASN, resolver: Option<Addr -> string>)

  /** For a client that is gone the reverse lookup may give any name at all. */
  datatype Client = Present | Left(hostname: string)

  datatype Endpoint = Json | Page | Field(field: FieldName)

  datatype FieldName = Country | CountryISO | CityName | Coordinates | ASNumber | ASNOrg

  datatype Request = Request(addr: Addr, endpoint: Endpoint, userAgent: Option<string>, client: Client)

  /** A field endpoint never reports the hostname and does not ask for it. */
  predicate WantsHostname(q: Request) {
    !q.endpoint.Field?
  }

  function Hostname(src: Sources, q: Request, hostname: bool): string {
    if !hostname || src.resolver == None then ""
    else match q.client
      case Present => src.resolver.value(q.addr)
      case Left(name) => name
  }

  function DigitOf(d: nat): char
    requires d < 10
  {
    ('0' as int + d) as char
  }

  /** A number in decimal digits. */
  function Decimal(n: nat): string {
    (if n < 10 then "" else Decimal(n / 10)) + [DigitOf(n % 10)]
  }

  function Lookup(src: Sources, q: Request, hostname: bool): Response {
    var city, asn := src.city(q.addr), src.asn(q.addr);
    Response(q.addr, city.countryName, city.countryISO, city.countryIsEU, city.regionName, city.regionCode,
             city.postalCode, city.name, city.latitude, city.longitude, city.timezone,
             if asn.number > 0 then "AS" + Decimal(asn.number) else "", asn.organization,
             Hostname(src, q, hostname), None)
  }

  /** Nothing is missing from the answer: it has the hostname, or there is none to have. */
  predicate Complete(src: Sources, q: Request) {
    WantsHostname(q) || src.resolver == None
  }

  /** The answer is kept only if it is complete and the client is still there. */
  predicate Kept(src: Sources, q: Request) {
    Complete(src, q) && q.client.Present?
  }

  /** What an endpoint shows of a response. */
  datatype Report = Everything(response: Response) | Text(text: string) | Place(place: Option<(real, real)>)

  function Reported(endpoint: Endpoint, r: Response): Report {
    match endpoint
    case Json => Everything(r)
    case Page => Everything(r)
    case Field(Country) => Text(r.country)
    case Field(CountryISO) => Text(r.countryISO)
    case Field(CityName) => Text(r.city)
    case Field(Coordinates) =>
      Place(if r.latitude.Some? && r.longitude.Some? then Some((r.latitude.value, r.longitude.value)) else None)
    case Field(ASNumber) => Text(r.asn)
    case Field(ASNOrg) => Text(r.asnOrg)
  }

  // ------------------------------------------------------------ one request alone

  /** The answer and the cache after it, when nothing else runs in between. */
  function Serve(src: Sources, cache: Lru<Addr, Response>, q: Request): (Response, Lru<Addr, Response>) {
    var found, read := Find(cache, q.addr), Read(cache, q.addr);
    var response := if found.Some? then found.value else Lookup(src, q, Complete(src, q));
    var after := if found == None && Kept(src, q) then Set(read, q.addr, response) else read;
    (response.(userAgent := q.userAgent), after)
  }

  /** A request as it comes in: where the address is to be taken from, and who asks for what. */
  datatype Incoming = Incoming(query: Option<Supplied>, headers: seq<Option<Supplied>>, remote: Option<Addr>,
                               endpoint: Endpoint, userAgent: Option<string>, client: Client)
  {
    function For(addr: Addr): Request {
      Request(addr, endpoint, userAgent, client)
    }
  }

  class Server {
    const cache: Cache.Cache<Addr, Response>
    const networks: seq<Prefix>   // the trusted proxies

    constructor (cache: Cache.Cache<Addr, Response>, networks: seq<Prefix>)
      ensures this.cache == cache && this.networks == networks
    {
      this.cache, this.networks := cache, networks;
    }

    /** Once the address is chosen: the answer and the cache are those of Serve. */
    method Respond(src: Sources, q: Request) returns (response: Response)
      requires cache.Valid()
      modifies cache, cache.values, cache.values.root, cache.owned
      ensures cache.Valid() && fresh(cache.owned - old(cache.owned))
      ensures (response, cache.Model()) == Serve(src, old(cache.Model()), q)
    {
      hide Read, Set, Find, Lookup;
      hide Cache.Cache.Valid, Cache.Cache.Model;
      var cached := cache.Get(q.addr);
      if cached.Some? {
        response := cached.value;
      } else {
        var complete := WantsHostname(q) || src.resolver == None;
        response := Lookup(src, q, complete);
        if complete && q.client.Present? {
          cache.Set(q.addr, response);
        }
      }
      response := response.(userAgent := q.userAgent);
    }

    /** A request whose address is refused leaves the cache alone. Any other is served as by
        Serve, and while the cache holds full answers only, it goes on to, and the endpoint
        reports what a server without a cache reports. */
    method NewResponse(src: Sources, incoming: Incoming) returns (r: Result<Response, Problem>)
      requires cache.Valid()
      modifies cache, cache.values, cache.values.root, cache.owned
      ensures cache.Valid() && fresh(cache.owned - old(cache.owned))
      ensures match IpFromRequest(networks, incoming.query, incoming.headers, incoming.remote)
              case Err(problem) => r == Err(problem) && cache.Model() == old(cache.Model())
              case Ok(addr) => r.Ok? && (r.value, cache.Model()) == Serve(src, old(cache.Model()), incoming.For(addr))
      ensures EntriesAreComplete(src, old(cache.Model()).items) ==>
                && EntriesAreComplete(src, cache.Model().items)
                && (r.Ok? ==>
                      IsRight(src, incoming.For(r.value.ip), r.value) && Tells(src, incoming.For(r.value.ip), r.value))
    {
      hide Cache.Cache.Valid, Cache.Cache.Model, IpFromRequest, Serve, IsRight, Tells, EntriesAreComplete;
      var chosen := IpFromRequest(networks, incoming.query, incoming.headers, incoming.remote);
      if chosen.Err? {
        return Err(chosen.error);
      }
      var q := incoming.For(chosen.value);
      var response := Respond(src, q);
      if EntriesAreComplete(src, old(cache.Model()).items) {
        ServeIsTransparent(src, old(cache.Model()), q);
        RightTells(src, q, response);
      }
      r := Ok(response);
    }
  }

  // -------------------------------------------- any number of requests at a time

  /** Requests overlap: each reads the cache in one step and finishes in a later one, with steps
      of others, clears and resizes in between. */
  datatype Step =
    | Begin(t: nat, q: Request)
    | Finish(t: nat)
    | Clear
    | SetCapacity(capacity: int)

  datatype State = State(cache: Lru<Addr, Response>, pending: map<nat, Request>, answers: seq<(Request, Response)>)

  function Answer(s: State, q: Request, r: Response): State {
    s.(answers := s.answers + [(q, r.(userAgent := q.userAgent))])
  }

  /** A step whose request is not there changes nothing. */
  function After(src: Sources, s: State, step: Step): State {
    match step
    case Begin(t, q) =>
      if t in s.pending then s else
        var s' := s.(cache := Read(s.cache, q.addr));
        (match Find(s.cache, q.addr)
         case Some(r) => Answer(s', q, r)
         case None => s'.(pending := s.pending[t := q]))
    case Finish(t) =>
      if t !in s.pending then s else
        var q := s.pending[t];
        var r := Lookup(src, q, Complete(src, q));
        var s' := s.(pending := s.pending - {t},
                     cache := if Kept(src, q) then Set(s.cache, q.addr, r) else s.cache);
        Answer(s', q, r)
    case Clear => s.(cache := Cleared(s.cache))
    case SetCapacity(n) => s.(cache := Resize(s.cache, n))
  }

  function Run(src: Sources, capacity: int, steps: seq<Step>): State {
    if steps == [] then State(New(capacity), map[], []) else
      After(src, Run(src, capacity, steps[..|steps| - 1]), steps[|steps| - 1])
  }

  /** The answer a server without a cache gives. */
  function Uncached(src: Sources, q: Request): Response {
    Lookup(src, q, Complete(src, q)).(userAgent := q.userAgent)
  }

  /** The response that may be cached: hostname included, user agent empty. */
  function FullAnswer(src: Sources, a: Addr): Response {
    Lookup(src, Request(a, Json, None, Present), true)
  }

  /** Every entry holds the full answer for its address, and no user agent. */
  ghost predicate EntriesAreComplete(src: Sources, items: seq<Entry<Addr, Response>>) {
    forall i | 0 <= i < |items| :: items[i].response == FullAnswer(src, items[i].addr)
  }

  /** Every answer is what the uncached server gives. The hostname may differ in an answer to a
      client that is gone, or that is not reported, and in no other. */
  ghost predicate AnswersAreRight(src: Sources, answers: seq<(Request, Response)>) {
    forall i | 0 <= i < |answers| :: IsRight(src, answers[i].0, answers[i].1)
  }

  predicate IsRight(src: Sources, q: Request, r: Response) {
    && (q.client.Present? || q.endpoint.Field? ==>
          Reported(q.endpoint, r) == Reported(q.endpoint, Uncached(src, q)))
    && r.(hostname := "") == Uncached(src, q).(hostname := "")
  }

  // ------------------------------------------ where each part of an answer comes from

  predicate IsDigit(c: char) {
    '0' <= c <= '9'
  }

  function DigitValue(c: char): (d: nat)
    requires IsDigit(c)
    ensures d < 10
  {
    c as int - '0' as int
  }

  /** What decimal digits stand for. */
  function Value(digits: string): nat
    requires forall c | c in digits :: IsDigit(c)
  {
    if digits == [] then 0 else
      var last := digits[|digits| - 1];
      assert last in digits;
      10 * Value(digits[..|digits| - 1]) + DigitValue(last)
  }

  /** "AS" and the number in decimal digits without leading zeros, or nothing for zero. */
  ghost predicate IsASNumber(text: string, number: nat) {
    if number == 0 then text == ""
    else
      && |text| > 2 && text[..2] == "AS" && text[2] != '0'
      && (forall c | c in text[2..] :: IsDigit(c)) && Value(text[2..]) == number
  }

  /** Each field is that of the address in the right database. */
  ghost predicate ComesFrom(src: Sources, a: Addr, r: Response) {
    var city, asn := src.city(a), src.asn(a);
    && r.ip == a
    && r.country == city.countryName && r.countryISO == city.countryISO && r.countryEU == city.countryIsEU
    && r.regionName == city.regionName && r.regionCode == city.regionCode && r.postalCode == city.postalCode
    && r.city == city.name && r.latitude == city.latitude && r.longitude == city.longitude
    && r.timezone == city.timezone && r.asnOrg == asn.organization && IsASNumber(r.asn, asn.number)
  }

  /** The name the resolver has for an address, or nothing without a resolver. */
  ghost predicate IsHostname(src: Sources, a: Addr, name: string) {
    match src.resolver
    case None => name == ""
    case Some(resolve) => name == resolve(a)
  }

  /** A response that may be cached for an address. */
  ghost predicate IsFull(src: Sources, a: Addr, r: Response) {
    ComesFrom(src, a, r) && IsHostname(src, a, r.hostname) && r.userAgent == None
  }

  /** What a request is told, in terms of the sources alone. */
  ghost predicate Tells(src: Sources, q: Request, r: Response) {
    var city, asn := src.city(q.addr), src.asn(q.addr);
    && ComesFrom(src, q.addr, r) && r.userAgent == q.userAgent
    && (q.client.Present? && !q.endpoint.Field? ==> IsHostname(src, q.addr, r.hostname))
    && match q.endpoint
       case Json => Reported(q.endpoint, r) == Everything(r)
       case Page => Reported(q.endpoint, r) == Everything(r)
       case Field(Country) => Reported(q.endpoint, r) == Text(city.countryName)
       case Field(CountryISO) => Reported(q.endpoint, r) == Text(city.countryISO)
       case Field(CityName) => Reported(q.endpoint, r) == Text(city.name)
       case Field(Coordinates) =>
         Reported(q.endpoint, r) ==
         (if city.latitude == None || city.longitude == None then Place(None)
          else Place(Some((city.latitude.value, city.longitude.value))))
       case Field(ASNumber) => Reported(q.endpoint, r).Text? && IsASNumber(Reported(q.endpoint, r).text, asn.number)
       case Field(ASNOrg) => Reported(q.endpoint, r) == Text(asn.organization)
  }

  lemma NoDigits()
    ensures Value("") == 0
  {
  }

  lemma FirstDigit(d: nat)
    requires 0 < d < 10
    ensures DigitOf(d) != '0'
  {
  }

  lemma OneMoreDigit(digits: string, d: nat)
    requires d < 10 && forall c | c in digits :: IsDigit(c)
    ensures forall c | c in digits + [DigitOf(d)] :: IsDigit(c)
    ensures Value(digits + [DigitOf(d)]) == 10 * Value(digits) + d
  {
    var more := digits + [DigitOf(d)];
    assert more[..|more| - 1] == digits && more[|more| - 1] == DigitOf(d);
    forall c | c in more ensures IsDigit(c) {
      assert c in digits || c == DigitOf(d);
    }
  }

  lemma {:induction false} DecimalDigits(n: nat)
    ensures Decimal(n) != [] && (forall c | c in Decimal(n) :: IsDigit(c)) && Value(Decimal(n)) == n
    ensures n > 0 ==> Decimal(n)[0] != '0'
  {
    hide Value, IsDigit, DigitOf;
    if n < 10 {
      NoDigits();
      OneMoreDigit("", n);
      if n > 0 {
        FirstDigit(n);
      }
    } else {
      DecimalDigits(n / 10);
      OneMoreDigit(Decimal(n / 10), n % 10);
    }
  }

  lemma LookupComesFrom(src: Sources, q: Request, hostname: bool)
    ensures ComesFrom(src, q.addr, Lookup(src, q, hostname))
  {
    hide Value;
    var number := src.asn(q.addr).number;
    DecimalDigits(number);
    assert ("AS" + Decimal(number))[2..] == Decimal(number);
  }

  lemma FullAnswerIsFull(src: Sources, a: Addr)
    ensures IsFull(src, a, FullAnswer(src, a))
  {
    hide ComesFrom;
    LookupComesFrom(src, Request(a, Json, None, Present), true);
  }

  lemma KeepsSource(src: Sources, a: Addr, r: Response, r': Response)
    requires ComesFrom(src, a, r) && r.(hostname := "", userAgent := None) == r'.(hostname := "", userAgent := None)
    ensures ComesFrom(src, a, r')
  {
  }

  /** An answer like that of the uncached server tells what the sources have. */
  lemma RightTells(src: Sources, q: Request, r: Response)
    requires IsRight(src, q, r)
    ensures Tells(src, q, r)
  {
    hide Value, IsASNumber, Decimal;
    LookupComesFrom(src, q, Complete(src, q));
    KeepsSource(src, q.addr, Lookup(src, q, Complete(src, q)), r);
  }

  // ------------------------------------------------------------------- proofs

  lemma WithoutMembers<K, V>(items: seq<Entry<K, V>>, a: K, i: nat)
    requires i < |Without(items, a)|
    ensures Without(items, a)[i] in items
  {
    var j := if Has(items, a) && i >= IndexOf(items, a) then i + 1 else i;
    hide IndexOf;
    assert Without(items, a)[i] == items[j];
  }

  lemma ReadKeepsComplete(src: Sources, c: Lru<Addr, Response>, a: Addr)
    requires EntriesAreComplete(src, c.items)
    ensures EntriesAreComplete(src, Read(c, a).items)
  {
    forall i | 0 <= i < |Read(c, a).items|
      ensures Read(c, a).items[i].response == FullAnswer(src, Read(c, a).items[i].addr)
    {
      if i < |Without(c.items, a)| {
        WithoutMembers(c.items, a, i);
      }
    }
  }

  lemma SetKeepsComplete(src: Sources, c: Lru<Addr, Response>, a: Addr)
    requires EntriesAreComplete(src, c.items)
    ensures EntriesAreComplete(src, Set(c, a, FullAnswer(src, a)).items)
  {
    hide FullAnswer, Without, IndexOf, Has;
    if c.capacity > 0 {
      var rest := Without(c.items, a);
      var n := Evicted(rest, |rest| - c.capacity + 1);
      var items := Set(c, a, FullAnswer(src, a)).items;
      forall i | 0 <= i < |items| ensures items[i].response == FullAnswer(src, items[i].addr) {
        if i < |rest| - n {
          assert items[i] == rest[i + n];
          WithoutMembers(c.items, a, i + n);
        }
      }
    }
  }

  lemma StepIsTransparent(src: Sources, s: State, step: Step)
    requires EntriesAreComplete(src, s.cache.items) && AnswersAreRight(src, s.answers)
    ensures EntriesAreComplete(src, After(src, s, step).cache.items)
    ensures AnswersAreRight(src, After(src, s, step).answers)
  {
    match step
    case Begin(t, q) => ReadKeepsComplete(src, s.cache, q.addr);
    case Finish(t) =>
      if t in s.pending && Kept(src, s.pending[t]) {
        SetKeepsComplete(src, s.cache, s.pending[t].addr);
      }
    case _ =>
  }

  /** Transparency: in every interleaving of requests, clears and resizes, whatever the capacity,
      the endpoints report what a server without a cache reports, and every entry is the full
      answer for its address. */
  lemma {:induction false} CacheIsTransparent(src: Sources, capacity: int, steps: seq<Step>)
    ensures EntriesAreComplete(src, Run(src, capacity, steps).cache.items)
    ensures AnswersAreRight(src, Run(src, capacity, steps).answers)
  {
    if steps == [] {
    } else {
      CacheIsTransparent(src, capacity, steps[..|steps| - 1]);
      StepIsTransparent(src, Run(src, capacity, steps[..|steps| - 1]), steps[|steps| - 1]);
    }
  }

  /** In terms of the sources alone: every answer in every interleaving has each field of its
      address from the right database, the hostname of the resolver where it is reported to a
      client that is there, and each endpoint reports its own field; and every entry can be told
      to anyone. */
  lemma AnswersTell(src: Sources, capacity: int, steps: seq<Step>)
    ensures var s := Run(src, capacity, steps);
            && (forall i | 0 <= i < |s.answers| :: Tells(src, s.answers[i].0, s.answers[i].1))
            && (forall i | 0 <= i < |s.cache.items| :: IsFull(src, s.cache.items[i].addr, s.cache.items[i].response))
  {
    hide Tells, IsFull, IsRight, FullAnswer;
    CacheIsTransparent(src, capacity, steps);
    var s := Run(src, capacity, steps);
    forall i | 0 <= i < |s.answers| ensures Tells(src, s.answers[i].0, s.answers[i].1) {
      RightTells(src, s.answers[i].0, s.answers[i].1);
    }
    forall i | 0 <= i < |s.cache.items|
      ensures IsFull(src, s.cache.items[i].addr, s.cache.items[i].response)
    {
      FullAnswerIsFull(src, s.cache.items[i].addr);
    }
  }

  /** On a miss, a full answer for a client that is there is kept, so that the next read of the
      address hits: that of a JSON or page request, and without a resolver that of any request.
      Nothing else is kept, and a hit changes no entry. */
  lemma KeptExactly(src: Sources, cache: Lru<Addr, Response>, q: Request)
    ensures var (r, after) := Serve(src, cache, q);
            if Find(cache, q.addr) == None && q.client.Present? && (!q.endpoint.Field? || src.resolver == None)
            then after == Set(cache, q.addr, r.(userAgent := None)) && IsFull(src, q.addr, r.(userAgent := None))
                 && (cache.capacity > 0 ==> Find(after, q.addr) == Some(r.(userAgent := None)))
            else after == Read(cache, q.addr) && (Find(cache, q.addr) == None ==> after == cache)
  {
    hide Value, IsASNumber, Decimal, ComesFrom;
    LookupComesFrom(src, q, Complete(src, q));
    var r := Lookup(src, q, Complete(src, q));
    KeepsSource(src, q.addr, r, r.(userAgent := None));
    if Find(cache, q.addr) == None && cache.capacity > 0 {
      StoredIsFound(cache, q.addr, r);
    }
  }

  lemma StoredIsFound<K, V>(c: Lru<K, V>, a: K, response: V)
    requires !Has(c.items, a) && c.capacity > 0
    ensures Find(Set(c, a, response), a) == Some(response)
  {
    var items, k := Set(c, a, response).items, Evicted(c.items, |c.items| - c.capacity + 1);
    assert items == c.items[k..] + [Entry(a, response)];
    assert items[|items| - 1].addr == a;
    assert IndexOf(c.items, a) == |c.items|;
    forall j | 0 <= j < |items| - 1 ensures items[j].addr != a {
      assert items[j] == c.items[j + k];
    }
    assert IndexOf(items, a) == |items| - 1;
  }

  /** Transparency for one request alone, from any cache of full answers. */
  lemma ServeIsTransparent(src: Sources, cache: Lru<Addr, Response>, q: Request)
    requires EntriesAreComplete(src, cache.items)
    ensures var (r, after) := Serve(src, cache, q);
            r.ip == q.addr && IsRight(src, q, r) && EntriesAreComplete(src, after.items)
  {
    ReadKeepsComplete(src, cache, q.addr);
    SetKeepsComplete(src, Read(cache, q.addr), q.addr);
  }

  /** NewResponse alone is Begin followed by Finish. */
  lemma ServeIsTwoSteps(src: Sources, s: State, t: nat, q: Request)
    requires t !in s.pending
    ensures var (r, cache) := Serve(src, s.cache, q);
            var s' := After(src, After(src, s, Begin(t, q)), Finish(t));
            s'.cache == cache && s'.answers == s.answers + [(q, r)] && s'.pending == s.pending
  {
    if Find(s.cache, q.addr) == None {
      assert s.pending[t := q] - {t} == s.pending;
    }
  }
}
