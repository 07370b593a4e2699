/**
 Dispatch (server/router.go): which route answers, and what the Allow list says when none does.
 */
module Router {
  import opened Wrappers

  datatype Format = Negotiated | TextFormat | JsonFormat | HtmlFormat

  datatype Route = Route(method_: string, path: string, prefix: bool, format: Format)

  const GET := "GET"
  const HEAD := "HEAD"
  const OPTIONS := "OPTIONS"

  datatype Outcome =
    | Handled(route: nat, failure: Option<Format>)         // by that route; the format of its failure, if it fails
    | NotFound
    | NoContent(allow: seq<string>)                        // 204
    | MethodNotAllowed(allow: seq<string>, format: Format) // 405

  predicate Serves(r: Route, path: string) {
    if r.prefix then r.path <= path else r.path == path
  }

  /** A GET route answers HEAD too. */
  predicate MatchesMethod(r: Route, m: string) {
    m == r.method_ || (m == HEAD && r.method_ == GET)
  }

  /** A prefix route serves its path with anything after it, any other route its path alone, and a
      route answers its own method and, for GET, HEAD. */
  lemma ServesExactly(r: Route, path: string, m: string)
    ensures Serves(r, path) <==> if r.prefix then exists rest :: path == r.path + rest else path == r.path
    ensures MatchesMethod(r, m) <==> m == r.method_ || (m == "HEAD" && r.method_ == "GET")
  {
    if r.prefix && r.path <= path {
      assert path == r.path + path[|r.path|..];
    }
  }

  function AppendOnce(list: seq<string>, s: string): seq<string> {
    if s in list then list else list + [s]
  }

  function AppendMethods(allowed: seq<string>, m: string): seq<string> {
    var once := AppendOnce(allowed, m);
    if m == GET then AppendOnce(once, HEAD) else once
  }

  /** What the loop collects from the routes on a path. */
  function Allowed(routes: seq<Route>, path: string): seq<string> {
    if routes == [] then [] else
      var r, before := routes[|routes| - 1], Allowed(routes[..|routes| - 1], path);
      if Serves(r, path) then AppendMethods(before, r.method_) else before
  }

  ghost predicate NoDuplicates(list: seq<string>) {
    forall i, j | 0 <= i < j < |list| :: list[i] != list[j]
  }

  /** Dispatch hands a request with that method on that path to some route. */
  ghost predicate Answered(routes: seq<Route>, path: string, m: string) {
    exists i | 0 <= i < |routes| :: Serves(routes[i], path) && MatchesMethod(routes[i], m)
  }

  ghost predicate Exists(routes: seq<Route>, path: string) {
    exists i | 0 <= i < |routes| :: Serves(routes[i], path)
  }

  /** handlers gives, for each route, the format its handler's failure asks for, if it fails. */
  method Dispatch(routes: seq<Route>, handlers: nat -> Option<Format>, m: string, path: string)
      returns (outcome: Outcome)
    ensures outcome.Handled? <==> Answered(routes, path, m)
    ensures outcome.Handled? ==>
              && outcome.route < |routes|
              && Serves(routes[outcome.route], path) && MatchesMethod(routes[outcome.route], m)
              && forall j | 0 <= j < outcome.route :: !(Serves(routes[j], path) && MatchesMethod(routes[j], m))
    ensures outcome.Handled? ==>
              && (outcome.failure == None <==> handlers(outcome.route) == None)
              && (handlers(outcome.route) == Some(Negotiated) ==> outcome.failure == Some(routes[outcome.route].format))
              && (handlers(outcome.route) != Some(Negotiated) ==> outcome.failure == handlers(outcome.route))
    ensures outcome.NotFound? <==> !Exists(routes, path)
    ensures outcome.NoContent? ==> m == "OPTIONS" && outcome.allow == Allowed(routes, path) + ["OPTIONS"]
    ensures outcome.MethodNotAllowed? ==>
              && m != "OPTIONS" && outcome.allow == Allowed(routes, path) + ["OPTIONS"]
              && exists i | 0 <= i < |routes| ::
                   && Serves(routes[i], path) && outcome.format == routes[i].format
                   && forall j | 0 <= j < i :: !Serves(routes[j], path)
  {
    var allowed: seq<string> := [];
    var format := Negotiated;
    for i := 0 to |routes|
      invariant forall j | 0 <= j < i :: !(Serves(routes[j], path) && MatchesMethod(routes[j], m))
      invariant allowed == Allowed(routes[..i], path)
      invariant allowed == [] ==> forall j | 0 <= j < i :: !Serves(routes[j], path)
      invariant allowed != [] ==> exists k | 0 <= k < i ::
                                    && Serves(routes[k], path) && format == routes[k].format
                                    && forall j | 0 <= j < k :: !Serves(routes[j], path)
    {
      assert routes[..i + 1][..i] == routes[..i];
      var r := routes[i];
      if !Serves(r, path) {
        continue;
      }
      if MatchesMethod(r, m) {
        var failure := handlers(i);
        return Handled(i, if failure == Some(Negotiated) then Some(r.format) else failure);
      }
      if allowed == [] {
        format := r.format;
      }
      allowed := AppendMethods(allowed, r.method_);
    }
    assert routes[..|routes|] == routes;
    if |allowed| == 0 {
      return NotFound;
    }
    var allow := allowed + [OPTIONS];
    if m == OPTIONS {
      return NoContent(allow);
    }
    outcome := MethodNotAllowed(allow, format);
  }

  lemma AppendMethodsAdds(list: seq<string>, r: Route)
    requires NoDuplicates(list)
    ensures NoDuplicates(AppendMethods(list, r.method_))
    ensures forall m :: m in AppendMethods(list, r.method_) <==> m in list || MatchesMethod(r, m)
  {
  }

  /** The methods collected are exactly those dispatch would hand to some route on the path, each
      once. */
  lemma {:induction false} AllowedIsAnswered(routes: seq<Route>, path: string)
    ensures NoDuplicates(Allowed(routes, path))
    ensures forall m :: m in Allowed(routes, path) <==> Answered(routes, path, m)
  {
    if routes == [] {
    } else {
      var front, r := routes[..|routes| - 1], routes[|routes| - 1];
      AllowedIsAnswered(front, path);
      AppendMethodsAdds(Allowed(front, path), r);
      forall m
        ensures Answered(routes, path, m) <==> Answered(front, path, m) || (Serves(r, path) && MatchesMethod(r, m))
      {
        AnsweredByOneMore(front, r, path, m);
        assert routes == front + [r];
      }
    }
  }

  lemma AnsweredByOneMore(front: seq<Route>, r: Route, path: string, m: string)
    ensures Answered(front + [r], path, m) <==> Answered(front, path, m) || (Serves(r, path) && MatchesMethod(r, m))
  {
    var routes := front + [r];
    if i :| 0 <= i < |front| && Serves(front[i], path) && MatchesMethod(front[i], m) {
      assert routes[i] == front[i];
    }
    assert routes[|front|] == r;
  }

  /** The Allow list names what dispatch answers on the path, plus OPTIONS. It names each method
      once if and only if no route on the path is registered for OPTIONS. */
  lemma AllowList(routes: seq<Route>, path: string)
    ensures var allow := Allowed(routes, path) + ["OPTIONS"];
            && (forall m :: m in allow <==> m == "OPTIONS" || Answered(routes, path, m))
            && (NoDuplicates(allow) <==>
                forall i | 0 <= i < |routes| :: Serves(routes[i], path) ==> routes[i].method_ != "OPTIONS")
  {
    AllowedIsAnswered(routes, path);
    var list := Allowed(routes, path);
    var allow := list + [OPTIONS];
    assert OPTIONS != HEAD && OPTIONS != GET;
    if OPTIONS in list {
      var i :| 0 <= i < |list| && list[i] == OPTIONS;
      assert allow[i] == allow[|list|];
    }
    assert Answered(routes, path, OPTIONS) <==>
           exists i | 0 <= i < |routes| :: Serves(routes[i], path) && routes[i].method_ == OPTIONS;
  }
}
