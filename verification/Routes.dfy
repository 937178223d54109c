/**
 Route selection within a site (router.go, `buildRouteIndex`, `selectRoute`, `betterRoute`, `pathPattern.match`
 and the lazily evaluated `routeMatchState`).

 The winner is defined once, by the priority order over all matching routes.  The linear scan and the indexed
 lookup are both proved to find it.
 */
module Routes {
  import opened Prelude
  import opened ClientAddress
  import opened HeaderNames

  datatype PathPattern = PathPattern(path: string, wildcard: bool, depth: nat)

  datatype Condition = Condition(name: string, alternatives: seq<string>)

  datatype Route = Route(
    pattern: PathPattern, methods: seq<string>, header: seq<Condition>, query: seq<Condition>, ip: seq<Prefix>,
    alternatives: nat)
  {
    function ConditionCount(): nat {
      |header| + |query| + (if |ip| > 0 then 1 else 0) + if |methods| > 0 then 1 else 0
    }

    function AlternativeCount(): nat { |methods| + alternatives }
  }

  type Values = map<string, seq<string>>

  /** A request; `query` is what the query parser makes of the raw query. */
  datatype Request = Request(
    method_: string, path: string, host: string, header: Values, query: Option<Values>,
    peer: Option<Address>, forwarded: seq<seq<Entry>>)

  predicate PatternMatches(p: PathPattern, path: string) {
    if p.wildcard then p.path == "" || path == p.path || p.path + "/" <= path else path == p.path
  }

  // ----- Eligibility, without laziness

  predicate MatchesAny(values: seq<string>, alternatives: seq<string>) {
    exists v | v in values :: v in alternatives
  }

  function Lookup<T>(m: map<string, seq<T>>, key: string): seq<T> {
    if key in m then m[key] else []
  }

  predicate HeaderMatches(r: Request, c: Condition) {
    if c.name == "Host" then r.host != "" && r.host in c.alternatives
    else exists name | name in r.header :: EqualFold(name, c.name) && MatchesAny(r.header[name], c.alternatives)
  }

  ghost predicate ClientIn(r: Request, trust: seq<Prefix>, prefixes: seq<Prefix>) {
    exists a: Address ::
      IsClient(r.peer, r.forwarded, trust, Some(a)) && exists k | 0 <= k < |prefixes| :: Contains(prefixes[k], a)
  }

  /** Every configured kind of condition holds; those left out do not constrain. */
  ghost predicate Eligible(route: Route, r: Request, trust: seq<Prefix>) {
    && (|route.methods| == 0 || r.method_ in route.methods)
    && (forall c | c in route.header :: HeaderMatches(r, c))
    && (|route.query| > 0 ==>
          r.query.Some? && forall c | c in route.query :: MatchesAny(Lookup(r.query.value, c.name), c.alternatives))
    && (|route.ip| > 0 ==> ClientIn(r, trust, route.ip))
  }

  // ----- What the patterns and the conditions mean

  /** An exact pattern serves its own path; a wildcard one also everything below it, but nothing that only starts like it. */
  lemma PatternMeans(p: PathPattern, path: string)
    ensures !p.wildcard ==> (PatternMatches(p, path) <==> path == p.path)
    ensures p.wildcard && p.path == "" ==> PatternMatches(p, path)
    ensures p.wildcard && p.path != "" ==>
              (PatternMatches(p, path) <==>
                && |p.path| <= |path| && path[..|p.path|] == p.path
                && (|path| == |p.path| || path[|p.path|] == '/'))
  {
    if p.path + "/" <= path {
      assert path[|p.path|] == (p.path + "/")[|p.path|];
      assert path[..|p.path|] == p.path;
    }
    if |p.path| < |path| && path[|p.path|] == '/' && path[..|p.path|] == p.path {
      assert path[..|p.path| + 1] == p.path + "/";
    }
  }

  /** Some value is one of the alternatives. */
  ghost predicate Hits(values: seq<string>, alternatives: seq<string>) {
    exists i, k | 0 <= i < |values| && 0 <= k < |alternatives| :: values[i] == alternatives[k]
  }

  lemma HitsMeans(values: seq<string>, alternatives: seq<string>)
    ensures MatchesAny(values, alternatives) <==> Hits(values, alternatives)
  {
    if MatchesAny(values, alternatives) {
      var v :| v in values && v in alternatives;
      var i :| 0 <= i < |values| && values[i] == v;
      var k :| 0 <= k < |alternatives| && alternatives[k] == v;
      assert values[i] == alternatives[k];
    }
    if Hits(values, alternatives) {
      var i, k :| 0 <= i < |values| && 0 <= k < |alternatives| && values[i] == alternatives[k];
      assert values[i] in values && values[i] in alternatives;
    }
  }

  /** A route without conditions serves every request. */
  lemma UnconditionalRoute(route: Route, r: Request, trust: seq<Prefix>)
    requires route.methods == [] && route.header == [] && route.query == [] && route.ip == []
    ensures Eligible(route, r, trust)
  {
  }

  /** A method list narrows a route to exactly the requests with one of its methods. */
  lemma MethodsNarrow(route: Route, r: Request, trust: seq<Prefix>, methods: seq<string>)
    requires methods != []
    ensures Eligible(route.(methods := methods), r, trust) <==>
            Eligible(route.(methods := []), r, trust) && exists k | 0 <= k < |methods| :: r.method_ == methods[k]
  {
  }

  /** One more header condition: some header of that name, in any case, has one of the values; `Host` is the request's host. */
  lemma HeaderNarrows(route: Route, r: Request, trust: seq<Prefix>, c: Condition)
    ensures Eligible(route.(header := route.header + [c]), r, trust) <==>
            && Eligible(route, r, trust)
            && if c.name == "Host" then r.host != "" && Hits([r.host], c.alternatives)
               else exists name | name in r.header :: EqualFold(name, c.name) && Hits(r.header[name], c.alternatives)
  {
    HitsMeans([r.host], c.alternatives);
    if c.name != "Host" {
      forall name | name in r.header
        ensures MatchesAny(r.header[name], c.alternatives) <==> Hits(r.header[name], c.alternatives)
      {
        HitsMeans(r.header[name], c.alternatives);
      }
    }
    assert HeaderMatches(r, c) <==>
           if c.name == "Host" then r.host != "" && Hits([r.host], c.alternatives)
           else exists name | name in r.header :: EqualFold(name, c.name) && Hits(r.header[name], c.alternatives);
    assert forall d | d in route.header + [c] :: d in route.header || d == c;
    assert c in route.header + [c] && forall d | d in route.header :: d in route.header + [c];
  }

  /** One more query condition: the query can be parsed, and the parameter has one of the values. */
  lemma QueryNarrows(route: Route, r: Request, trust: seq<Prefix>, c: Condition)
    ensures Eligible(route.(query := route.query + [c]), r, trust) <==>
            && Eligible(route, r, trust)
            && r.query.Some? && c.name in r.query.value && Hits(r.query.value[c.name], c.alternatives)
  {
    if r.query.Some? {
      HitsMeans(Lookup(r.query.value, c.name), c.alternatives);
    }
    assert forall d | d in route.query + [c] :: d in route.query || d == c;
    assert c in route.query + [c] && forall d | d in route.query :: d in route.query + [c];
  }

  /** A list of networks narrows a route to the requests whose effective client is in one of them. */
  lemma NetworksNarrow(route: Route, r: Request, trust: seq<Prefix>, networks: seq<Prefix>, client: Option<Address>)
    requires networks != [] && IsClient(r.peer, r.forwarded, trust, client)
    ensures Eligible(route.(ip := networks), r, trust) <==>
            && Eligible(route.(ip := []), r, trust)
            && client.Some? && exists k | 0 <= k < |networks| :: Contains(networks[k], client.value)
  {
    OnlyClient(r, trust, client);
  }

  // ----- Eligibility, evaluated lazily once per request

  class RouteMatchState {
    const request: Request
    const trust: seq<Prefix>
    var queryParsed: bool
    var queryValid: bool
    var query: Values
    var clientParsed: bool
    var client: Option<Address>

    ghost predicate Valid()
      reads this
    {
      && (queryParsed ==> queryValid == request.query.Some? && (queryValid ==> query == request.query.value))
      && (clientParsed ==> IsClient(request.peer, request.forwarded, trust, client))
    }

    constructor (request: Request, trust: seq<Prefix>)
      ensures Valid() && this.request == request && this.trust == trust
    {
      this.request, this.trust := request, trust;
      queryParsed, queryValid, query := false, false, map[];
      clientParsed, client := false, None;
    }

    method Matches(route: Route) returns (ok: bool)
      requires Valid()
      modifies this
      ensures Valid() && ok == Eligible(route, request, trust)
    {
      if |route.methods| > 0 && request.method_ !in route.methods { return false; }
      for k := 0 to |route.header|
        invariant Valid() && forall j | 0 <= j < k :: HeaderMatches(request, route.header[j])
      {
        if !HeaderMatches(request, route.header[k]) { return false; }
      }
      if |route.query| > 0 {
        if !queryParsed {
          queryValid := request.query.Some?;
          if queryValid { query := request.query.value; }
          queryParsed := true;
        }
        if !queryValid { return false; }
        for k := 0 to |route.query|
          invariant Valid() && queryParsed && queryValid
          invariant forall j | 0 <= j < k :: MatchesAny(Lookup(query, route.query[j].name), route.query[j].alternatives)
        {
          if !MatchesAny(Lookup(query, route.query[k].name), route.query[k].alternatives) { return false; }
        }
      }
      if |route.ip| == 0 { return true; }
      ok := MatchesClientIP(route);
    }

    method MatchesClientIP(route: Route) returns (ok: bool)
      requires Valid()
      modifies this`clientParsed, this`client
      ensures Valid() && ok == ClientIn(request, trust, route.ip)
    {
      if !clientParsed {
        client := EffectiveClientIP(request.peer, request.forwarded, trust);
        clientParsed := true;
      }
      if client.None? {
        OnlyClient(request, trust, client);
        return false;
      }
      for k := 0 to |route.ip|
        invariant forall j | 0 <= j < k :: !Contains(route.ip[j], client.value)
      {
        if Contains(route.ip[k], client.value) { return true; }
      }
      OnlyClient(request, trust, client);
      return false;
    }
  }

  lemma OnlyClient(r: Request, trust: seq<Prefix>, client: Option<Address>)
    requires IsClient(r.peer, r.forwarded, trust, client)
    ensures forall a: Address :: IsClient(r.peer, r.forwarded, trust, Some(a)) ==> client == Some(a)
  {
    forall a: Address | IsClient(r.peer, r.forwarded, trust, Some(a))
      ensures client == Some(a)
    {
      ClientUnique(r.peer, r.forwarded, trust, client, Some(a));
    }
  }

  // ----- The priority order and the winner

  /** Exact before wildcard, then greater depth, more conditions, fewer alternatives, later declaration. */
  predicate BetterRoute(routes: seq<Route>, a: nat, b: nat)
    requires a < |routes| && b < |routes|
  {
    var (x, y) := (routes[a], routes[b]);
    if x.pattern.wildcard != y.pattern.wildcard then !x.pattern.wildcard
    else if x.pattern.depth != y.pattern.depth then x.pattern.depth > y.pattern.depth
    else if x.ConditionCount() != y.ConditionCount() then x.ConditionCount() > y.ConditionCount()
    else if x.AlternativeCount() != y.AlternativeCount() then x.AlternativeCount() < y.AlternativeCount()
    else a > b
  }

  lemma BetterRouteIsAStrictTotalOrder(routes: seq<Route>, a: nat, b: nat, c: nat)
    requires a < |routes| && b < |routes| && c < |routes|
    ensures !BetterRoute(routes, a, a)
    ensures a != b ==> BetterRoute(routes, a, b) != BetterRoute(routes, b, a)
    ensures BetterRoute(routes, a, b) && BetterRoute(routes, b, c) ==> BetterRoute(routes, a, c)
  {
  }

  ghost predicate Candidate(routes: seq<Route>, r: Request, trust: seq<Prefix>, k: nat) {
    k < |routes| && PatternMatches(routes[k].pattern, r.path) && Eligible(routes[k], r, trust)
  }

  ghost predicate BestOf(routes: seq<Route>, candidates: set<nat>, selected: Option<nat>) {
    && (forall k | k in candidates :: k < |routes|)
    && match selected
       case None => candidates == {}
       case Some(best) => best in candidates && forall k | k in candidates && k != best :: BetterRoute(routes, best, k)
  }

  /** The route that serves the request: the best of all routes that match its path and are eligible. */
  ghost predicate Winner(routes: seq<Route>, r: Request, trust: seq<Prefix>, selected: Option<nat>) {
    BestOf(routes, Candidates(routes, r, trust, |routes|), selected)
  }

  /** The candidates among the first `n` routes. */
  ghost function Candidates(routes: seq<Route>, r: Request, trust: seq<Prefix>, n: nat): set<nat> {
    set k: nat | k < n && Candidate(routes, r, trust, k)
  }

  ghost function EligibleAmong(routes: seq<Route>, indexes: seq<nat>, r: Request, trust: seq<Prefix>): set<nat> {
    set k: nat | k in indexes && k < |routes| && Eligible(routes[k], r, trust)
  }

  lemma WinnerUnique(routes: seq<Route>, r: Request, trust: seq<Prefix>, a: Option<nat>, b: Option<nat>)
    requires Winner(routes, r, trust, a) && Winner(routes, r, trust, b)
    ensures a == b
  {
    if a.Some? && b.Some? && a != b {
      BetterRouteIsAStrictTotalOrder(routes, a.value, b.value, a.value);
    }
  }

  /**
   What the winner is better in, field by field, against every other eligible route: an exact path before a wildcard
   one, then the deeper path, then more conditions, then fewer alternatives, and then the later declaration.
   */
  lemma WinnerPriority(routes: seq<Route>, r: Request, trust: seq<Prefix>, best: nat, k: nat)
    requires Winner(routes, r, trust, Some(best)) && Candidate(routes, r, trust, k) && k != best
    ensures best < |routes|
    ensures var (x, y) := (routes[best], routes[k]);
            var xs := |x.header| + |x.query| + (if |x.ip| > 0 then 1 else 0) + (if |x.methods| > 0 then 1 else 0);
            var ys := |y.header| + |y.query| + (if |y.ip| > 0 then 1 else 0) + (if |y.methods| > 0 then 1 else 0);
            var (xa, ya) := (|x.methods| + x.alternatives, |y.methods| + y.alternatives);
            && (!y.pattern.wildcard ==> !x.pattern.wildcard)
            && (x.pattern.wildcard == y.pattern.wildcard ==>
                  && x.pattern.depth >= y.pattern.depth
                  && (x.pattern.depth == y.pattern.depth ==>
                        && xs >= ys
                        && (xs == ys ==> xa <= ya && (xa == ya ==> best > k))))
  {
    assert k in Candidates(routes, r, trust, |routes|);
    assert BetterRoute(routes, best, k);
  }

  lemma BestOfGrows(routes: seq<Route>, candidates: set<nat>, selected: Option<nat>, k: nat, better: Option<nat>)
    requires BestOf(routes, candidates, selected) && k < |routes|
    requires better == if selected.None? || BetterRoute(routes, k, selected.value) then Some(k) else selected
    ensures BestOf(routes, candidates + {k}, better)
  {
  }

  // ----- The index

  /** The declared positions of the patterns with the given path, in order. */
  function Positions(routes: seq<Route>, wildcard: bool, path: string): seq<nat> {
    if |routes| == 0 then []
    else
      var k := |routes| - 1;
      var front := Positions(routes[..k], wildcard, path);
      if routes[k].pattern.wildcard == wildcard && routes[k].pattern.path == path then front + [k] else front
  }

  lemma {:induction false} PositionsHold(routes: seq<Route>, wildcard: bool, path: string, k: nat)
    ensures k in Positions(routes, wildcard, path) <==>
            k < |routes| && routes[k].pattern.wildcard == wildcard && routes[k].pattern.path == path
  {
    if |routes| > 0 {
      PositionsHold(routes[..|routes| - 1], wildcard, path, k);
    }
  }

  ghost predicate Indexes(routes: seq<Route>, wildcard: bool, index: map<string, seq<nat>>) {
    forall path: string :: Lookup(index, path) == Positions(routes, wildcard, path)
  }

  /** What a lookup lists. */
  lemma Listed(routes: seq<Route>, wildcard: bool, index: map<string, seq<nat>>, path: string)
    requires Indexes(routes, wildcard, index)
    ensures Lists(routes, wildcard, Lookup(index, path), path)
  {
    forall k: nat
      ensures k in Lookup(index, path) <==>
              k < |routes| && routes[k].pattern.wildcard == wildcard && routes[k].pattern.path == path
    {
      PositionsHold(routes, wildcard, path, k);
    }
  }

  ghost predicate Lists(routes: seq<Route>, wildcard: bool, indexes: seq<nat>, path: string) {
    forall k: nat :: k in indexes <==>
      k < |routes| && routes[k].pattern.wildcard == wildcard && routes[k].pattern.path == path
  }

  /** The wildcard patterns that the lookups up to position `n` of the path have met: the root and the prefixes before a slash. */
  ghost predicate Met(p: PathPattern, path: string, n: nat) {
    p.wildcard && (p.path == "" || (1 <= |p.path| < n && |p.path| < |path| && path[|p.path|] == '/' && path[..|p.path|] == p.path))
  }

  ghost function Reached(routes: seq<Route>, r: Request, trust: seq<Prefix>, n: nat): set<nat> {
    set k: nat | k < |routes| && Met(routes[k].pattern, r.path, n) && Eligible(routes[k], r, trust)
  }

  lemma RootReached(routes: seq<Route>, r: Request, trust: seq<Prefix>, listed: seq<nat>)
    requires Lists(routes, true, listed, "")
    ensures {} + EligibleAmong(routes, listed, r, trust) == Reached(routes, r, trust, 1)
  {
  }

  lemma ReachedStep(routes: seq<Route>, r: Request, trust: seq<Prefix>, n: nat, listed: seq<nat>)
    requires 1 <= n < |r.path|
    requires if r.path[n] == '/' then Lists(routes, true, listed, r.path[..n]) else listed == []
    ensures Reached(routes, r, trust, n) + EligibleAmong(routes, listed, r, trust) == Reached(routes, r, trust, n + 1)
  {
    forall p: PathPattern
      ensures Met(p, r.path, n + 1) <==>
              Met(p, r.path, n) || (p.wildcard && r.path[n] == '/' && p.path == r.path[..n])
    {
    }
  }

  /** The prefixes before a slash, the root and the path itself are all the wildcard patterns that match. */
  lemma WildcardMatches(p: PathPattern, path: string, n: nat)
    requires p.wildcard && n >= |path|
    ensures PatternMatches(p, path) <==> Met(p, path, n) || p.path == path
  {
    if p.path + "/" <= path {
      assert path[|p.path|] == (p.path + "/")[|p.path|];
      assert path[..|p.path|] == p.path;
    }
    if |p.path| < |path| && path[|p.path|] == '/' && path[..|p.path|] == p.path {
      assert path[..|p.path| + 1] == p.path + "/";
    }
  }

  lemma ExactCandidates(routes: seq<Route>, r: Request, trust: seq<Prefix>, listed: seq<nat>)
    requires Lists(routes, false, listed, r.path)
    ensures forall k | k in {} + EligibleAmong(routes, listed, r, trust) ::
              Candidate(routes, r, trust, k) && !routes[k].pattern.wildcard
    ensures forall k: nat | Candidate(routes, r, trust, k) && !routes[k].pattern.wildcard ::
              k in {} + EligibleAmong(routes, listed, r, trust)
  {
  }

  lemma ExactWins(routes: seq<Route>, r: Request, trust: seq<Prefix>, exact: set<nat>, selected: Option<nat>)
    requires selected.Some? && BestOf(routes, {} + exact, selected)
    requires forall k | k in exact :: Candidate(routes, r, trust, k) && !routes[k].pattern.wildcard
    requires forall k: nat | Candidate(routes, r, trust, k) && !routes[k].pattern.wildcard :: k in exact
    ensures Winner(routes, r, trust, selected)
  {
  }

  lemma WildcardCandidates(routes: seq<Route>, r: Request, trust: seq<Prefix>, n: nat, listed: seq<nat>)
    requires Lists(routes, true, listed, r.path) && n >= |r.path|
    requires forall k: nat | Candidate(routes, r, trust, k) :: routes[k].pattern.wildcard
    ensures Reached(routes, r, trust, n) + EligibleAmong(routes, listed, r, trust) == Candidates(routes, r, trust, |routes|)
  {
    forall k: nat | k < |routes| && routes[k].pattern.wildcard
      ensures PatternMatches(routes[k].pattern, r.path) <==> Met(routes[k].pattern, r.path, n) || routes[k].pattern.path == r.path
    {
      WildcardMatches(routes[k].pattern, r.path, n);
    }
  }

  class Site {
    const routes: seq<Route>
    const trust: seq<Prefix>
    var exactRoutes: Option<map<string, seq<nat>>>
    var wildcardRoutes: map<string, seq<nat>>

    ghost predicate Valid()
      reads this
    {
      exactRoutes.Some? ==> Indexes(routes, false, exactRoutes.value) && Indexes(routes, true, wildcardRoutes)
    }

    constructor (routes: seq<Route>, trust: seq<Prefix>)
      ensures Valid() && this.routes == routes && this.trust == trust && exactRoutes.None?
    {
      this.routes, this.trust := routes, trust;
      exactRoutes, wildcardRoutes := None, map[];
    }

    method BuildRouteIndex()
      modifies this
      ensures Valid() && exactRoutes.Some?
    {
      var exact: map<string, seq<nat>> := map[];
      var wild: map<string, seq<nat>> := map[];
      for index := 0 to |routes|
        invariant Indexes(routes[..index], false, exact) && Indexes(routes[..index], true, wild)
      {
        assert routes[..index + 1][..index] == routes[..index];
        var pattern := routes[index].pattern;
        if pattern.wildcard {
          wild := wild[pattern.path := Lookup(wild, pattern.path) + [index]];
        } else {
          exact := exact[pattern.path := Lookup(exact, pattern.path) + [index]];
        }
      }
      assert routes[..|routes|] == routes;
      exactRoutes, wildcardRoutes := Some(exact), wild;
    }

    /** One inner loop of the selection: the eligible ones among the listed routes compete with the current best. */
    method Consider(indexes: seq<nat>, state: RouteMatchState, current: Option<nat>, ghost candidates: set<nat>)
      returns (selected: Option<nat>)
      requires state.Valid() && state.trust == trust
      requires forall k | k in indexes :: k < |routes|
      requires BestOf(routes, candidates, current)
      modifies state
      ensures state.Valid()
      ensures BestOf(routes, candidates + EligibleAmong(routes, indexes, state.request, trust), selected)
    {
      selected := current;
      ghost var seen := candidates;
      for n := 0 to |indexes|
        invariant state.Valid() && BestOf(routes, seen, selected)
        invariant seen == candidates + EligibleAmong(routes, indexes[..n], state.request, trust)
      {
        var k := indexes[n];
        assert k in indexes && indexes[..n + 1] == indexes[..n] + [k];
        var ok := state.Matches(routes[k]);
        if ok {
          BestOfGrows(routes, seen, selected, k, if selected.None? || BetterRoute(routes, k, selected.value) then Some(k) else selected);
          if selected.None? || BetterRoute(routes, k, selected.value) {
            selected := Some(k);
          }
          seen := seen + {k};
        }
      }
      assert indexes[..|indexes|] == indexes;
    }

    /** The scan over all routes, for a site without an index. */
    method ScanRoutes(r: Request, state: RouteMatchState) returns (selected: Option<nat>)
      requires state.Valid() && state.request == r && state.trust == trust
      modifies state
      ensures Winner(routes, r, trust, selected)
    {
      selected := None;
      ghost var seen: set<nat> := {};
      for index := 0 to |routes|
        invariant state.Valid() && BestOf(routes, seen, selected)
        invariant seen == Candidates(routes, r, trust, index)
      {
        if PatternMatches(routes[index].pattern, r.path) {
          var ok := state.Matches(routes[index]);
          if ok {
            BestOfGrows(routes, seen, selected, index,
                        if selected.None? || BetterRoute(routes, index, selected.value) then Some(index) else selected);
            if selected.None? || BetterRoute(routes, index, selected.value) {
              selected := Some(index);
            }
            seen := seen + {index};
          }
        }
      }
    }

    /** The wildcard lookups: the root, every prefix before a slash, and the path itself. */
    method SelectWildcard(r: Request, state: RouteMatchState) returns (selected: Option<nat>)
      requires Valid() && exactRoutes.Some?
      requires state.Valid() && state.request == r && state.trust == trust
      requires forall k: nat | Candidate(routes, r, trust, k) :: routes[k].pattern.wildcard
      modifies state
      ensures Winner(routes, r, trust, selected)
    {
      var listed := Lookup(wildcardRoutes, "");
      Listed(routes, true, wildcardRoutes, "");
      selected := Consider(listed, state, None, {});
      RootReached(routes, r, trust, listed);
      var index := 1;
      while index < |r.path|
        invariant 1 <= index && (index <= |r.path| || index == 1)
        invariant state.Valid() && BestOf(routes, Reached(routes, r, trust, index), selected)
      {
        if r.path[index] == '/' {
          listed := Lookup(wildcardRoutes, r.path[..index]);
          Listed(routes, true, wildcardRoutes, r.path[..index]);
          selected := Consider(listed, state, selected, Reached(routes, r, trust, index));
        } else {
          listed := [];
        }
        ReachedStep(routes, r, trust, index, listed);
        index := index + 1;
      }
      listed := Lookup(wildcardRoutes, r.path);
      Listed(routes, true, wildcardRoutes, r.path);
      selected := Consider(listed, state, selected, Reached(routes, r, trust, index));
      WildcardCandidates(routes, r, trust, index, listed);
    }

    /** The winner, by the linear scan without an index and by the lookups with one. */
    method SelectRoute(r: Request) returns (selected: Option<nat>)
      requires Valid()
      ensures Winner(routes, r, trust, selected)
    {
      var state := new RouteMatchState(r, trust);
      if exactRoutes.None? {
        selected := ScanRoutes(r, state);
        return;
      }
      var listed := Lookup(exactRoutes.value, r.path);
      Listed(routes, false, exactRoutes.value, r.path);
      selected := Consider(listed, state, None, {});
      ExactCandidates(routes, r, trust, listed);
      if selected.Some? {
        ExactWins(routes, r, trust, EligibleAmong(routes, listed, r, trust), selected);
        return;
      }
      selected := SelectWildcard(r, state);
    }
  }
}
