/**
 Site selection by host (router.go, the host maps of `newRouter`, `selectSite`, `bestHostMatch` and
 `hostPattern.match`).

 The selected site is defined over the declarations: the earliest site whose best pattern is the best of all.
 Both the single-site scan and the map lookups are proved to find it.
 */
module Hosts {
  import opened Prelude

  datatype HostPattern = HostPattern(value: string, wildcard: bool, suffix: string) {
    /** What the pattern compiler guarantees. */
    predicate Valid() {
      && value != ""
      && (wildcard ==> suffix != "" && value == "*." + suffix)
      && (!wildcard && value != "*" ==> '*' !in value)
    }
  }

  /** Exact is 2, a one-label wildcard 1, the star 0; longer suffixes first. */
  datatype HostScore = HostScore(kind: nat, suffixLength: nat)

  predicate BetterHostScore(a: HostScore, b: HostScore) {
    if a.kind != b.kind then a.kind > b.kind else a.suffixLength > b.suffixLength
  }

  predicate HasSuffix(s: string, suffix: string) {
    |suffix| <= |s| && s[|s| - |suffix|..] == suffix
  }

  function Match(p: HostPattern, host: string): Option<HostScore> {
    if p.value == "*" then Some(HostScore(0, 0))
    else if !p.wildcard then if p.value == host then Some(HostScore(2, 0)) else None
    else if !HasSuffix(host, "." + p.suffix) then None
    else
      var prefix := host[..|host| - |p.suffix| - 1];
      if prefix == "" || '.' in prefix then None else Some(HostScore(1, |p.suffix|))
  }

  /** The best score of a site, if any of its patterns matches. */
  ghost predicate BestScore(host: string, patterns: seq<HostPattern>, best: Option<HostScore>) {
    && (best.None? ==> forall k | 0 <= k < |patterns| :: Match(patterns[k], host).None?)
    && (best.Some? ==>
          && (exists k | 0 <= k < |patterns| :: Match(patterns[k], host) == best)
          && forall k | 0 <= k < |patterns| && Match(patterns[k], host).Some? ::
               !BetterHostScore(Match(patterns[k], host).value, best.value))
  }

  method BestHostMatch(host: string, patterns: seq<HostPattern>) returns (best: Option<HostScore>)
    ensures BestScore(host, patterns, best)
  {
    best := None;
    for k := 0 to |patterns|
      invariant BestScore(host, patterns[..k], best)
    {
      var score := Match(patterns[k], host);
      assert patterns[..k + 1] == patterns[..k] + [patterns[k]];
      if score.Some? && (best.None? || BetterHostScore(score.value, best.value)) {
        assert Match(patterns[..k + 1][k], host) == score;
        best := score;
      } else if best.Some? {
        var j :| 0 <= j < k && Match(patterns[..k][j], host) == best;
        assert Match(patterns[..k + 1][j], host) == best;
      }
    }
    assert patterns[..|patterns|] == patterns;
  }

  /** Pattern `p` of site `i` matches with the score, no pattern of any site beats it, and no earlier site reaches it. */
  ghost predicate SelectedBy(host: string, sites: seq<seq<HostPattern>>, i: nat, p: nat, score: HostScore) {
    && i < |sites| && p < |sites[i]| && Match(sites[i][p], host) == Some(score)
    && (forall j, q | 0 <= j < |sites| && 0 <= q < |sites[j]| && Match(sites[j][q], host).Some? ::
          var other := Match(sites[j][q], host).value;
          !BetterHostScore(other, score) && (j < i ==> other != score))
  }

  ghost predicate Selected(host: string, sites: seq<seq<HostPattern>>, site: Option<nat>) {
    match site
    case None => forall j, q | 0 <= j < |sites| && 0 <= q < |sites[j]| :: Match(sites[j][q], host).None?
    case Some(i) => exists p, score :: SelectedBy(host, sites, i, p, score)
  }

  lemma SelectedUnique(host: string, sites: seq<seq<HostPattern>>, a: Option<nat>, b: Option<nat>)
    requires Selected(host, sites, a) && Selected(host, sites, b)
    ensures a == b
  {
    if a.Some? && b.Some? {
      var p, score :| SelectedBy(host, sites, a.value, p, score);
      var q, other :| SelectedBy(host, sites, b.value, q, other);
    }
  }

  // ----- A host has at most one suffix that a wildcard can match

  predicate FirstDot(host: string, dot: nat) {
    dot < |host| && host[dot] == '.' && forall j | 0 <= j < dot :: host[j] != '.'
  }

  lemma WildcardSuffix(p: HostPattern, host: string, dot: nat)
    requires p.Valid() && p.wildcard && FirstDot(host, dot)
    ensures Match(p, host).Some? <==> dot > 0 && p.suffix == host[dot + 1..]
  {
    SuffixDot(host, p.suffix);
    if Match(p, host).Some? {
      var prefix := host[..|host| - |p.suffix| - 1];
      assert forall j | 0 <= j < |prefix| :: prefix[j] in prefix && prefix[j] == host[j];
      assert host[dot..][1..] == host[dot + 1..];
      assert ("." + p.suffix)[1..] == p.suffix;
    }
    if dot > 0 && p.suffix == host[dot + 1..] {
      assert host[dot..] == "." + p.suffix;
    }
  }

  lemma SuffixDot(host: string, suffix: string)
    ensures HasSuffix(host, "." + suffix) ==> host[|host| - |suffix| - 1] == '.'
  {
    if HasSuffix(host, "." + suffix) {
      assert host[|host| - |suffix| - 1..][0] == '.';
    }
  }

  lemma NoDotNoWildcard(p: HostPattern, host: string)
    requires p.wildcard && '.' !in host
    ensures Match(p, host).None? || p.value == "*"
  {
    SuffixDot(host, p.suffix);
  }

  method IndexByte(host: string) returns (dot: Option<nat>)
    ensures DotOf(host, dot)
  {
    for k := 0 to |host|
      invariant forall j | 0 <= j < k :: host[j] != '.'
    {
      if host[k] == '.' { return Some(k); }
    }
    return None;
  }

  predicate DotOf(host: string, dot: Option<nat>) {
    if dot.Some? then FirstDot(host, dot.value) else '.' !in host
  }

  lemma SomeDotOf(host: string) returns (dot: Option<nat>)
    ensures DotOf(host, dot)
  {
    dot := None;
    var k := 0;
    while k < |host|
      invariant k <= |host| && forall j | 0 <= j < k :: host[j] != '.'
    {
      if host[k] == '.' { return Some(k); }
      k := k + 1;
    }
  }

  // ----- The host maps

  /** The ways in which a declared pattern can serve a host. */
  datatype Kind = Exact(host: string) | Wildcard(suffix: string) | Star

  predicate Is(p: HostPattern, kind: Kind) {
    match kind
    case Star => p.value == "*"
    case Wildcard(suffix) => p.value != "*" && p.wildcard && p.suffix == suffix
    case Exact(host) => p.value != "*" && !p.wildcard && p.value == host
  }

  predicate Declares(patterns: seq<HostPattern>, kind: Kind) {
    exists p | p in patterns :: Is(p, kind)
  }

  /** The first site that declares a pattern of the kind. */
  function FirstDeclared(sites: seq<seq<HostPattern>>, kind: Kind): Option<nat> {
    if |sites| == 0 then None
    else
      var front := FirstDeclared(sites[..|sites| - 1], kind);
      if front.Some? then front
      else if Declares(sites[|sites| - 1], kind) then Some(|sites| - 1) else None
  }

  lemma {:induction false} FirstDeclaredIs(sites: seq<seq<HostPattern>>, kind: Kind)
    ensures var first := FirstDeclared(sites, kind);
            && (first.Some? ==> first.value < |sites| && Declares(sites[first.value], kind))
            && forall j | 0 <= j < |sites| && (first.Some? ==> j < first.value) :: !Declares(sites[j], kind)
  {
    if |sites| > 0 {
      FirstDeclaredIs(sites[..|sites| - 1], kind);
    }
  }

  /** One more pattern at the end of the last site is a first declaration only where there was none. */
  lemma FirstDeclaredGrows(front: seq<seq<HostPattern>>, patterns: seq<HostPattern>, p: HostPattern, kind: Kind)
    ensures FirstDeclared(front + [patterns + [p]], kind)
            == var before := FirstDeclared(front + [patterns], kind);
               if before.None? && Is(p, kind) then Some(|front|) else before
  {
    assert (front + [patterns + [p]])[..|front|] == front == (front + [patterns])[..|front|];
    assert p in patterns + [p];
    assert forall q | q in patterns :: q in patterns + [p];
  }

  lemma FirstDeclaredEmpty(front: seq<seq<HostPattern>>, kind: Kind)
    ensures FirstDeclared(front + [[]], kind) == FirstDeclared(front, kind)
  {
    assert (front + [[]])[..|front|] == front;
  }

  function Lookup(m: map<string, nat>, key: string): Option<nat> {
    if key in m then Some(m[key]) else None
  }

  ghost predicate Maps(
    sites: seq<seq<HostPattern>>, exact: map<string, nat>, wildcard: map<string, nat>, star: Option<nat>)
  {
    && (forall host: string :: Lookup(exact, host) == FirstDeclared(sites, Exact(host)))
    && (forall suffix: string :: Lookup(wildcard, suffix) == FirstDeclared(sites, Wildcard(suffix)))
    && star == FirstDeclared(sites, Star)
  }

  lemma MapsGrow(
    front: seq<seq<HostPattern>>, patterns: seq<HostPattern>, p: HostPattern,
    exact: map<string, nat>, wildcard: map<string, nat>, star: Option<nat>,
    exact': map<string, nat>, wildcard': map<string, nat>, star': Option<nat>)
    requires Maps(front + [patterns], exact, wildcard, star)
    requires exact' == if p.value != "*" && !p.wildcard && p.value !in exact then exact[p.value := |front|] else exact
    requires wildcard' == if p.value != "*" && p.wildcard && p.suffix !in wildcard then wildcard[p.suffix := |front|] else wildcard
    requires star' == if p.value == "*" && star.None? then Some(|front|) else star
    ensures Maps(front + [patterns + [p]], exact', wildcard', star')
  {
    var sites := front + [patterns + [p]];
    forall host: string ensures Lookup(exact', host) == FirstDeclared(sites, Exact(host)) {
      FirstDeclaredGrows(front, patterns, p, Exact(host));
      assert Lookup(exact, host) == FirstDeclared(front + [patterns], Exact(host));
    }
    forall suffix: string ensures Lookup(wildcard', suffix) == FirstDeclared(sites, Wildcard(suffix)) {
      FirstDeclaredGrows(front, patterns, p, Wildcard(suffix));
      assert Lookup(wildcard, suffix) == FirstDeclared(front + [patterns], Wildcard(suffix));
    }
    FirstDeclaredGrows(front, patterns, p, Star);
  }

  lemma MapsExtend(
    front: seq<seq<HostPattern>>, exact: map<string, nat>, wildcard: map<string, nat>, star: Option<nat>)
    requires Maps(front, exact, wildcard, star)
    ensures Maps(front + [[]], exact, wildcard, star)
  {
    forall host: string ensures Lookup(exact, host) == FirstDeclared(front + [[]], Exact(host)) {
      FirstDeclaredEmpty(front, Exact(host));
    }
    forall suffix: string ensures Lookup(wildcard, suffix) == FirstDeclared(front + [[]], Wildcard(suffix)) {
      FirstDeclaredEmpty(front, Wildcard(suffix));
    }
    FirstDeclaredEmpty(front, Star);
  }

  ghost predicate ValidSites(sites: seq<seq<HostPattern>>) {
    forall j, q | 0 <= j < |sites| && 0 <= q < |sites[j]| :: sites[j][q].Valid()
  }

  class Router {
    const sites: seq<seq<HostPattern>>
    var exactHosts: map<string, nat>
    var wildcardHosts: map<string, nat>
    var starSite: Option<nat>

    ghost predicate Valid()
      reads this
    {
      ValidSites(sites) && Maps(sites, exactHosts, wildcardHosts, starSite)
    }

    constructor (sites: seq<seq<HostPattern>>)
      requires ValidSites(sites)
      ensures Valid() && this.sites == sites
    {
      this.sites := sites;
      exactHosts, wildcardHosts, starSite := map[], map[], None;
      new;
      for i := 0 to |sites|
        invariant this.sites == sites && Maps(sites[..i], exactHosts, wildcardHosts, starSite)
      {
        MapsExtend(sites[..i], exactHosts, wildcardHosts, starSite);
        assert sites[i][..0] == [];
        for q := 0 to |sites[i]|
          invariant this.sites == sites && Maps(sites[..i] + [sites[i][..q]], exactHosts, wildcardHosts, starSite)
        {
          ghost var exact, wildcard, star := exactHosts, wildcardHosts, starSite;
          var host := sites[i][q];
          if host.value == "*" {
            if starSite.None? { starSite := Some(i); }
          } else if host.wildcard {
            if host.suffix !in wildcardHosts { wildcardHosts := wildcardHosts[host.suffix := i]; }
          } else {
            if host.value !in exactHosts { exactHosts := exactHosts[host.value := i]; }
          }
          MapsGrow(sites[..i], sites[i][..q], host, exact, wildcard, star, exactHosts, wildcardHosts, starSite);
          assert sites[i][..q + 1] == sites[i][..q] + [host];
        }
        assert sites[i][..|sites[i]|] == sites[i];
        assert sites[..i + 1] == sites[..i] + [sites[i]];
      }
      assert sites[..|sites|] == sites;
    }

    method SelectSite(host: string) returns (site: Option<nat>)
      requires Valid()
      ensures Selected(host, sites, site)
    {
      if |sites| == 1 {
        var best := BestHostMatch(host, sites[0]);
        SingleSite(host, sites, best);
        return if best.Some? then Some(0) else None;
      }
      site := Lookup(exactHosts, host);
      if site.Some? {
        ExactSelected(host, sites, site.value);
        return;
      }
      FirstDeclaredIs(sites, Exact(host));
      var dot := IndexByte(host);
      if dot.Some? && dot.value > 0 && dot.value + 1 < |host| {
        site := Lookup(wildcardHosts, host[dot.value + 1..]);
        FirstDeclaredIs(sites, Wildcard(host[dot.value + 1..]));
        if site.Some? {
          WildcardSelected(host, sites, dot.value, site.value);
          return;
        }
      }
      StarSelected(host, sites, dot, starSite);
      return starSite;
    }
  }

  lemma SingleSite(host: string, sites: seq<seq<HostPattern>>, best: Option<HostScore>)
    requires |sites| == 1 && BestScore(host, sites[0], best)
    ensures Selected(host, sites, if best.Some? then Some(0) else None)
  {
    if best.Some? {
      var p: nat :| p < |sites[0]| && Match(sites[0][p], host) == best;
      assert SelectedBy(host, sites, 0, p, best.value);
    }
  }

  /** The kinds of a matching pattern. */
  lemma MatchKinds(p: HostPattern, host: string, dot: Option<nat>)
    requires p.Valid()
    requires DotOf(host, dot)
    ensures Match(p, host) == Some(HostScore(2, 0)) <==> Is(p, Exact(host))
    ensures Match(p, host) == Some(HostScore(0, 0)) <==> Is(p, Star)
    ensures Match(p, host).Some? && !Is(p, Exact(host)) && !Is(p, Star) <==>
            dot.Some? && 0 < dot.value && dot.value + 1 < |host| && Is(p, Wildcard(host[dot.value + 1..]))
    ensures Match(p, host).Some? && !Is(p, Exact(host)) && !Is(p, Star) ==>
            dot.Some? && Match(p, host) == Some(HostScore(1, |host| - dot.value - 1))
  {
    if p.wildcard {
      if dot.Some? {
        WildcardSuffix(p, host, dot.value);
      } else {
        NoDotNoWildcard(p, host);
      }
    }
  }

  lemma ExactSelected(host: string, sites: seq<seq<HostPattern>>, i: nat)
    requires ValidSites(sites) && FirstDeclared(sites, Exact(host)) == Some(i)
    ensures Selected(host, sites, Some(i))
  {
    FirstDeclaredIs(sites, Exact(host));
    var p: nat :| p < |sites[i]| && Is(sites[i][p], Exact(host));
    var dot := SomeDotOf(host);
    forall j, q | 0 <= j < |sites| && 0 <= q < |sites[j]| && Match(sites[j][q], host).Some?
      ensures var other := Match(sites[j][q], host).value;
              !BetterHostScore(other, HostScore(2, 0)) && (j < i ==> other != HostScore(2, 0))
    {
      MatchKinds(sites[j][q], host, dot);
    }
    assert SelectedBy(host, sites, i, p, HostScore(2, 0));
  }

  /** Where no pattern is exact, none beats a wildcard match, and all wildcard matches score alike. */
  lemma WildcardRival(host: string, patterns: seq<HostPattern>, q: nat, dot: nat)
    requires q < |patterns| && patterns[q].Valid() && Match(patterns[q], host).Some?
    requires FirstDot(host, dot) && 0 < dot && dot + 1 < |host| && !Declares(patterns, Exact(host))
    ensures !BetterHostScore(Match(patterns[q], host).value, HostScore(1, |host| - dot - 1))
    ensures Match(patterns[q], host).value == HostScore(1, |host| - dot - 1) ==> Declares(patterns, Wildcard(host[dot + 1..]))
  {
    assert patterns[q] in patterns;
    MatchKinds(patterns[q], host, Some(dot));
  }

  lemma WildcardSelected(host: string, sites: seq<seq<HostPattern>>, dot: nat, i: nat)
    requires ValidSites(sites) && FirstDot(host, dot) && 0 < dot && dot + 1 < |host|
    requires forall j | 0 <= j < |sites| :: !Declares(sites[j], Exact(host))
    requires FirstDeclared(sites, Wildcard(host[dot + 1..])) == Some(i)
    ensures Selected(host, sites, Some(i))
  {
    var kind, score := Wildcard(host[dot + 1..]), HostScore(1, |host| - dot - 1);
    FirstDeclaredIs(sites, kind);
    var p: nat :| p < |sites[i]| && Is(sites[i][p], kind);
    WildcardScores(host, sites[i], p, dot);
    forall j, q | 0 <= j < |sites| && 0 <= q < |sites[j]| && Match(sites[j][q], host).Some?
      ensures Rival(host, sites[j], q, score, kind)
    {
      WildcardRival(host, sites[j], q, dot);
    }
    SelectedByScore(host, sites, i, p, score, kind);
  }

  lemma WildcardScores(host: string, patterns: seq<HostPattern>, p: nat, dot: nat)
    requires p < |patterns| && patterns[p].Valid() && !Declares(patterns, Exact(host))
    requires FirstDot(host, dot) && 0 < dot && dot + 1 < |host| && Is(patterns[p], Wildcard(host[dot + 1..]))
    ensures Match(patterns[p], host) == Some(HostScore(1, |host| - dot - 1))
  {
    assert patterns[p] in patterns;
    MatchKinds(patterns[p], host, Some(dot));
  }

  /** A matching pattern that does not beat the score, and reaches it only as the given kind. */
  ghost predicate Rival(host: string, patterns: seq<HostPattern>, q: nat, score: HostScore, kind: Kind) {
    && q < |patterns| && Match(patterns[q], host).Some?
    && !BetterHostScore(Match(patterns[q], host).value, score)
    && (Match(patterns[q], host).value == score ==> Declares(patterns, kind))
  }

  lemma SelectedByScore(host: string, sites: seq<seq<HostPattern>>, i: nat, p: nat, score: HostScore, kind: Kind)
    requires i < |sites| && p < |sites[i]| && Match(sites[i][p], host) == Some(score)
    requires forall j | 0 <= j < i :: !Declares(sites[j], kind)
    requires forall j, q | 0 <= j < |sites| && 0 <= q < |sites[j]| && Match(sites[j][q], host).Some? ::
               Rival(host, sites[j], q, score, kind)
    ensures Selected(host, sites, Some(i))
  {
    assert SelectedBy(host, sites, i, p, score);
  }

  lemma StarSelected(host: string, sites: seq<seq<HostPattern>>, dot: Option<nat>, star: Option<nat>)
    requires ValidSites(sites) && star == FirstDeclared(sites, Star)
    requires DotOf(host, dot)
    requires forall j | 0 <= j < |sites| :: !Declares(sites[j], Exact(host))
    requires dot.Some? && 0 < dot.value && dot.value + 1 < |host| ==>
               forall j | 0 <= j < |sites| :: !Declares(sites[j], Wildcard(host[dot.value + 1..]))
    ensures Selected(host, sites, star)
  {
    FirstDeclaredIs(sites, Star);
    forall j, q | 0 <= j < |sites| && 0 <= q < |sites[j]|
      ensures Match(sites[j][q], host).Some? <==> Is(sites[j][q], Star)
      ensures Match(sites[j][q], host).Some? ==> Match(sites[j][q], host) == Some(HostScore(0, 0))
    {
      MatchKinds(sites[j][q], host, dot);
    }
    if star.Some? {
      var p: nat :| p < |sites[star.value]| && Is(sites[star.value][p], Star);
      assert SelectedBy(host, sites, star.value, p, HostScore(0, 0));
    }
  }

  /** For every host: the first site that declares it, else the first with its wildcard, else the first with the star. */
  lemma HostPriority(host: string, sites: seq<seq<HostPattern>>, dot: Option<nat>, site: Option<nat>)
    requires ValidSites(sites) && DotOf(host, dot) && Selected(host, sites, site)
    ensures var exact := FirstDeclared(sites, Exact(host));
            var wildcard := if dot.Some? && 0 < dot.value && dot.value + 1 < |host|
                            then FirstDeclared(sites, Wildcard(host[dot.value + 1..])) else None;
            site == if exact.Some? then exact else if wildcard.Some? then wildcard else FirstDeclared(sites, Star)
  {
    FirstDeclaredIs(sites, Exact(host));
    var exact := FirstDeclared(sites, Exact(host));
    if exact.Some? {
      ExactSelected(host, sites, exact.value);
      SelectedUnique(host, sites, site, exact);
      return;
    }
    if dot.Some? && 0 < dot.value && dot.value + 1 < |host| {
      var wildcard := FirstDeclared(sites, Wildcard(host[dot.value + 1..]));
      FirstDeclaredIs(sites, Wildcard(host[dot.value + 1..]));
      if wildcard.Some? {
        WildcardSelected(host, sites, dot.value, wildcard.value);
        SelectedUnique(host, sites, site, wildcard);
        return;
      }
    }
    StarSelected(host, sites, dot, FirstDeclared(sites, Star));
    SelectedUnique(host, sites, site, FirstDeclared(sites, Star));
  }
}
