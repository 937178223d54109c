/**
 The response header policies of a site and of a route (proxy.go, `applyResponseHeaders` and
 `applyResponseHeaderPolicies`).

 Value lists are arrays, shared by reference as in the source, so that what a response holds can be told apart
 from what a policy owns.  Maps are walked in an arbitrary order.
 */
module ResponseHeaders {
  import opened Prelude
  import opened HeaderNames

  type Table = map<string, array<string>>

  /** What a table says, name by name. */
  type Values = map<string, seq<string>>

  datatype Policy = Policy(remove: seq<string>, set_: Table, add: Table)

  /** The same policy with its value lists read out. */
  datatype Rules = Rules(remove: seq<string>, set_: Values, add: Values)

  /** The values are what the table's lists hold. */
  ghost predicate Holds(table: Table, values: Values)
    reads set n | n in table :: table[n]
  {
    table.Keys == values.Keys && forall n | n in table :: table[n][..] == values[n]
  }

  ghost predicate Reads(policy: Policy, rules: Rules)
    reads set n | n in policy.set_ :: policy.set_[n]
    reads set n | n in policy.add :: policy.add[n]
  {
    rules.remove == policy.remove && Holds(policy.set_, rules.set_) && Holds(policy.add, rules.add)
  }

  function Written(policy: Policy): set<string> {
    policy.set_.Keys + policy.add.Keys
  }

  predicate Announced(trailer: set<string>, name: string) {
    exists existing | existing in trailer :: EqualFold(existing, name)
  }

  // ----- The closed form

  function Lookup(values: Values, name: string): Option<seq<string>> {
    if name in values then Some(values[name]) else None
  }

  /** What rules make of one name: removed, then set, then appended to; a name announced as a trailer is left alone. */
  function Applied(current: Option<seq<string>>, rules: Rules, announced: bool, name: string): Option<seq<string>> {
    if announced then current
    else
      var kept := if name in rules.remove then None else current;
      var replaced := if name in rules.set_ then Some(rules.set_[name]) else kept;
      if name !in rules.add then replaced
      else Some((if replaced.Some? then replaced.value else []) + rules.add[name])
  }

  /** The three passes, each over all names. */
  function Removed(values: Values, names: seq<string>, trailer: set<string>): Values {
    map n | n in values && (n !in names || Announced(trailer, n)) :: values[n]
  }

  function Replaced(values: Values, by_: Values, trailer: set<string>): Values {
    values + map n | n in by_ && !Announced(trailer, n) :: by_[n]
  }

  function Appended(values: Values, more: Values, trailer: set<string>): Values {
    values + map n | n in more && !Announced(trailer, n) :: (if n in values then values[n] else []) + more[n]
  }

  function Extended(values: Values, name: string, more: seq<string>): Values {
    values[name := (if name in values then values[name] else []) + more]
  }

  function AfterRules(values: Values, rules: Rules, trailer: set<string>): Values {
    Appended(Replaced(Removed(values, rules.remove, trailer), rules.set_, trailer), rules.add, trailer)
  }

  /** Whatever the order in which the maps are walked, each name ends up with its closed form. */
  lemma ClosedForm(values: Values, rules: Rules, trailer: set<string>, name: string)
    ensures Lookup(AfterRules(values, rules, trailer), name)
            == Applied(Lookup(values, name), rules, Announced(trailer, name), name)
  {
  }

  /**
   What becomes of one name, said without the passes: nothing if it is announced as a trailer; otherwise what is
   set replaces it, what is removed and not set is gone, and what is added comes after what is left.
   */
  lemma PolicyLaws(values: Values, rules: Rules, trailer: set<string>, n: string)
    ensures var after := AfterRules(values, rules, trailer);
            var announced := exists existing | existing in trailer :: EqualFold(existing, n);
            var left := if n in rules.set_ then rules.set_[n] else if n in values && n !in rules.remove then values[n] else [];
            && (announced ==> (n in after <==> n in values) && (n in values ==> after[n] == values[n]))
            && (!announced && n in rules.add ==> n in after && after[n] == left + rules.add[n])
            && (!announced && n !in rules.add ==>
                  && (n in after <==> n in rules.set_ || (n in values && n !in rules.remove))
                  && (n in after ==> after[n] == left))
  {
  }

  /** The site's rules first, then the route's on what they left. */
  lemma SiteThenRoute(values: Values, site: Rules, route: Rules, trailer: set<string>, name: string)
    ensures Lookup(AfterRules(AfterRules(values, site, trailer), route, trailer), name)
            == Applied(Applied(Lookup(values, name), site, Announced(trailer, name), name), route, Announced(trailer, name), name)
  {
    ClosedForm(values, site, trailer, name);
    ClosedForm(AfterRules(values, site, trailer), route, trailer, name);
  }

  // ----- The response

  method NewList(values: seq<string>) returns (list: array<string>)
    ensures fresh(list) && list[..] == values
  {
    list := new string[|values|](i requires 0 <= i < |values| => values[i]);
    assert list[..] == values;
  }

  /** Written names hold lists that are none of the `existing` ones; every other name keeps the list that it had. */
  ghost predicate OnlyNew(now: Table, was: Table, written: set<string>, trailer: set<string>, existing: set<array<string>>) {
    forall n | n in now ::
      if n in written && !Announced(trailer, n) then now[n] !in existing else n in was && now[n] == was[n]
  }

  lemma OneMoreNew(now: Table, was: Table, written: set<string>, trailer: set<string>, existing: set<array<string>>,
                   name: string, list: array<string>)
    requires OnlyNew(now, was, written, trailer, existing) && list !in existing && !Announced(trailer, name)
    ensures OnlyNew(now[name := list], was, written + {name}, trailer, existing)
  {
  }

  lemma NewThenNew(now: Table, then_: Table, was: Table, first: set<string>, second: set<string>,
                   trailer: set<string>, existing: set<array<string>>)
    requires OnlyNew(then_, was, first, trailer, existing) && OnlyNew(now, then_, second, trailer, existing)
    ensures OnlyNew(now, was, first + second, trailer, existing)
  {
  }

  class HttpResponse {
    var header: Option<Table>
    const trailer: set<string>
    ghost var values: Values

    /** A missing header table holds no names. */
    function Names(): Table
      reads this
    {
      if header.Some? then header.value else map[]
    }

    ghost predicate Valid()
      reads this, set n | n in Names() :: Names()[n]
    {
      Holds(Names(), values)
    }

    constructor (header: Option<Table>, trailer: set<string>, ghost values: Values)
      requires Holds(if header.Some? then header.value else map[], values)
      ensures Valid() && this.header == header && this.trailer == trailer && this.values == values
    {
      this.header, this.trailer, this.values := header, trailer, values;
    }

    /** One policy.  What it writes is never one of its own lists, and its own lists stay as they are. */
    method ApplyResponseHeaders(policy: Policy, ghost rules: Rules, ghost existing: set<array<string>>)
      requires Valid() && Reads(policy, rules)
      modifies this
      ensures Valid() && values == AfterRules(old(values), rules, trailer)
      ensures OnlyNew(Names(), old(Names()), Written(policy), trailer, existing)
      ensures Reads(policy, rules)
    {
      ghost var start := Names();
      Remove(policy.remove, existing);
      ghost var kept := Names();
      if header.None? && (policy.set_ != map[] || policy.add != map[]) {
        header := Some(map[]);
      }
      Set(policy.set_, rules.set_, existing);
      ghost var replaced := Names();
      Add(policy.add, rules.add, existing);
      NewThenNew(replaced, kept, start, {}, policy.set_.Keys, trailer, existing);
      NewThenNew(Names(), replaced, start, policy.set_.Keys, policy.add.Keys, trailer, existing);
    }

    method ApplyResponseHeaderPolicies(site: Policy, route: Policy, ghost siteRules: Rules, ghost routeRules: Rules,
                                       ghost existing: set<array<string>>)
      requires Valid() && Reads(site, siteRules) && Reads(route, routeRules)
      modifies this
      ensures Valid() && values == AfterRules(AfterRules(old(values), siteRules, trailer), routeRules, trailer)
      ensures OnlyNew(Names(), old(Names()), Written(site) + Written(route), trailer, existing)
      ensures Reads(site, siteRules) && Reads(route, routeRules)
    {
      ghost var start := Names();
      ApplyResponseHeaders(site, siteRules, existing);
      ghost var between := Names();
      ApplyResponseHeaders(route, routeRules, existing);
      NewThenNew(Names(), between, start, Written(site), Written(route), trailer, existing);
    }

    method Remove(names: seq<string>, ghost existing: set<array<string>>)
      requires Valid()
      modifies this
      ensures Valid() && header.Some? == old(header.Some?)
      ensures values == Removed(old(values), names, trailer)
      ensures OnlyNew(Names(), old(Names()), {}, trailer, existing)
    {
      for k := 0 to |names|
        invariant Valid() && header.Some? == old(header.Some?)
        invariant values == Removed(old(values), names[..k], trailer)
        invariant OnlyNew(Names(), old(Names()), {}, trailer, existing)
      {
        RemovedStep(old(values), names, k, trailer);
        if !Announced(trailer, names[k]) && header.Some? {
          header := Some(header.value - {names[k]});
          values := values - {names[k]};
        }
      }
      assert names[..|names|] == names;
    }

    /** One name gets a new list of its own. */
    method Put(name: string, contents: seq<string>)
      requires Valid() && header.Some?
      modifies this
      ensures Valid() && header.Some? && values == old(values)[name := contents]
      ensures name in Names() && fresh(Names()[name]) && Names() == old(Names())[name := Names()[name]]
    {
      var list := NewList(contents);
      header := Some(header.value[name := list]);
      values := values[name := contents];
    }

    method Extend(name: string, more: seq<string>)
      requires Valid() && header.Some?
      modifies this
      ensures Valid() && header.Some?
      ensures values == Extended(old(values), name, more)
      ensures name in Names() && fresh(Names()[name]) && Names() == old(Names())[name := Names()[name]]
    {
      var current := if name in header.value then header.value[name][..] else [];
      Put(name, current + more);
    }

    method Set(table: Table, ghost wanted: Values, ghost existing: set<array<string>>)
      requires Valid() && Holds(table, wanted) && (table != map[] ==> header.Some?)
      modifies this
      ensures Valid() && header.Some? == old(header.Some?)
      ensures values == Replaced(old(values), wanted, trailer)
      ensures OnlyNew(Names(), old(Names()), table.Keys, trailer, existing)
    {
      ghost var before := Names();
      var left := table.Keys;
      while left != {}
        invariant left <= table.Keys
        invariant Valid() && header.Some? == old(header.Some?)
        invariant values == Replaced(old(values), wanted - left, trailer)
        invariant OnlyNew(Names(), before, table.Keys - left, trailer, existing)
        decreases left
      {
        var name :| name in left;
        assert table[name][..] == wanted[name];
        ghost var replaced := Replaced(old(values), wanted - (left - {name}), trailer);
        assert replaced == if Announced(trailer, name) then values else values[name := wanted[name]] by {
          ReplacedStep(old(values), wanted, left, name, trailer);
        }
        ghost var written := table.Keys - left;
        left := left - {name};
        assert table.Keys - left == written + {name};
        if !Announced(trailer, name) {
          ghost var now := Names();
          Put(name, table[name][..]);
          OneMoreNew(now, before, written, trailer, existing, name, Names()[name]);
        }
      }
      assert wanted - {} == wanted;
    }

    method Add(table: Table, ghost wanted: Values, ghost existing: set<array<string>>)
      requires Valid() && Holds(table, wanted) && (table != map[] ==> header.Some?)
      modifies this
      ensures Valid() && header.Some? == old(header.Some?)
      ensures values == Appended(old(values), wanted, trailer)
      ensures OnlyNew(Names(), old(Names()), table.Keys, trailer, existing)
    {
      ghost var before := Names();
      var left := table.Keys;
      while left != {}
        invariant left <= table.Keys
        invariant Valid() && header.Some? == old(header.Some?)
        invariant values == Appended(old(values), wanted - left, trailer)
        invariant OnlyNew(Names(), before, table.Keys - left, trailer, existing)
        decreases left
      {
        var name :| name in left;
        assert table[name][..] == wanted[name];
        ghost var extended := Appended(old(values), wanted - (left - {name}), trailer);
        assert extended == if Announced(trailer, name) then values else Extended(values, name, wanted[name]) by {
          AppendedStep(old(values), wanted, left, name, trailer);
        }
        ghost var written := table.Keys - left;
        left := left - {name};
        assert table.Keys - left == written + {name};
        if !Announced(trailer, name) {
          ghost var now := Names();
          Extend(name, table[name][..]);
          OneMoreNew(now, before, written, trailer, existing, name, Names()[name]);
        }
      }
      assert wanted - {} == wanted;
    }
  }

  lemma RemovedStep(values: Values, names: seq<string>, k: nat, trailer: set<string>)
    requires k < |names|
    ensures Removed(values, names[..k + 1], trailer)
            == Removed(values, names[..k], trailer) - if Announced(trailer, names[k]) then {} else {names[k]}
    ensures values - {} == values
  {
    assert names[..k + 1] == names[..k] + [names[k]];
  }

  lemma ReplacedStep(values: Values, wanted: Values, left: set<string>, name: string, trailer: set<string>)
    requires name in left && left <= wanted.Keys
    ensures var before := Replaced(values, wanted - left, trailer);
            Replaced(values, wanted - (left - {name}), trailer)
            == if Announced(trailer, name) then before else before[name := wanted[name]]
  {
  }

  lemma AppendedStep(values: Values, wanted: Values, left: set<string>, name: string, trailer: set<string>)
    requires name in left && left <= wanted.Keys
    ensures var before := Appended(values, wanted - left, trailer);
            Appended(values, wanted - (left - {name}), trailer)
            == if Announced(trailer, name) then before
               else Extended(before, name, wanted[name])
  {
  }
}
