/** CloudFront alias bookkeeping (`add_domain` and its caller's loop): a
    flagged domain is added as an alias (CNAME) of a distribution the user
    owns, opening a new distribution when none is given or the current one
    is full. */
module Distributions {
  import opened Common

  /** Distribution ids are opaque strings handed out by the service; here
      they are numbered in creation order. */
  type DistId = nat

  /** The `Aliases` part of a distribution configuration: `Quantity` and,
      when present, `Items`. */
  datatype Aliases = Aliases(quantity: int, items: Option<seq<string>>)

  /** The default limit on CNAMEs of one distribution. */
  const MaxAliases: int := 100

  /** A freshly created distribution: no aliases. */
  const NoAliases: Aliases := Aliases(0, Some([]))

  /** The domain appended as the last item (an absent `Items` list starts
      empty) and the quantity raised by one. */
  function WithAlias(a: Aliases, domain: string): (r: Aliases)
    ensures r.quantity == a.quantity + 1
    ensures r.items.Some? && |r.items.value| > 0
    ensures r.items.value[|r.items.value| - 1] == domain
    ensures r.items.value[..|r.items.value| - 1] == a.items.GetOr([])
  {
    var items := a.items.GetOr([]) + [domain];
    assert items[..|items| - 1] == a.items.GetOr([]);
    Aliases(a.quantity + 1, Some(items))
  }

  /** `Quantity` agrees with `Items`. */
  predicate Consistent(a: Aliases) {
    match a.items
    case None => a.quantity == 0
    case Some(items) => a.quantity == |items|
  }

  lemma WithAliasConsistent(a: Aliases, domain: string)
    requires Consistent(a)
    ensures Consistent(WithAlias(a, domain))
    ensures a.quantity < MaxAliases ==> WithAlias(a, domain).quantity <= MaxAliases
  {
  }

  /** The configurations of every distribution, the next id to hand out,
      and the distribution an operation ended on. */
  datatype Placement = Placement(configs: map<DistId, Aliases>, nextId: DistId, id: DistId)

  /** Every id in use was handed out before `nextId`. */
  predicate IdsBelow(configs: map<DistId, Aliases>, nextId: DistId) {
    forall id :: id in configs ==> id < nextId
  }

  /** Every distribution is within the alias limit. */
  predicate WithinLimit(configs: map<DistId, Aliases>) {
    forall id :: id in configs ==> 0 <= configs[id].quantity <= MaxAliases
  }

  /** `create_distribution`: a new distribution with no aliases. */
  function Create(configs: map<DistId, Aliases>, nextId: DistId): Placement {
    Placement(configs[nextId := NoAliases], nextId + 1, nextId)
  }

  /** Which distribution receives the alias: the given one, or a new one
      when none is given; either way a new one when it already holds 100
      aliases. */
  function Choose(configs: map<DistId, Aliases>, nextId: DistId, given: Option<DistId>): Placement
    requires given.Some? ==> given.value in configs
  {
    var first := match given
      case None => Create(configs, nextId)
      case Some(d) => Placement(configs, nextId, d);
    if first.configs[first.id].quantity == MaxAliases then Create(first.configs, first.nextId) else first
  }

  /** The whole of `add_domain`: choose the distribution, append the
      domain, and apply the update unless the service rejects it because
      the CNAME already belongs to another distribution. */
  function AddPlan(configs: map<DistId, Aliases>, nextId: DistId, domain: string,
                   given: Option<DistId>, rejected: bool): Placement
    requires given.Some? ==> given.value in configs
  {
    var c := Choose(configs, nextId, given);
    Placement(if rejected then c.configs else c.configs[c.id := WithAlias(c.configs[c.id], domain)], c.nextId, c.id)
  }

  /** What `add_domain` does to the account. A missing id opens a new
      distribution; a full one is never appended to and a new one is used;
      the used distribution gets the domain as its last alias and one more
      in its quantity unless the update was rejected; every other
      distribution keeps its configuration; the returned id is the used
      one. */
  lemma AddPlanEffect(configs: map<DistId, Aliases>, nextId: DistId, domain: string,
                      given: Option<DistId>, rejected: bool)
    requires IdsBelow(configs, nextId)
    requires given.Some? ==> given.value in configs
    ensures var r := AddPlan(configs, nextId, domain, given, rejected);
      && r.id in r.configs
      && IdsBelow(r.configs, r.nextId)
      && r.configs.Keys == configs.Keys + {r.id}
      && (given.None? ==> r.id == nextId && r.nextId == nextId + 1)
      && (given.Some? && configs[given.value].quantity != MaxAliases ==> r.id == given.value && r.nextId == nextId)
      && (given.Some? && configs[given.value].quantity == MaxAliases ==> r.id == nextId && r.nextId == nextId + 1)
      && (forall id :: id in configs && id != r.id ==> r.configs[id] == configs[id])
      && var before := if r.id in configs then configs[r.id] else NoAliases;
         r.configs[r.id] == if rejected then before else WithAlias(before, domain)
  {
  }

  /** The part of `AddPlanEffect` the loop needs: the used distribution
      exists, ids stay below the counter, and an accepted update leaves the
      domain as the last alias. */
  lemma AddPlanStep(configs: map<DistId, Aliases>, nextId: DistId, domain: string,
                    given: Option<DistId>, rejected: bool)
    requires IdsBelow(configs, nextId)
    requires given.Some? ==> given.value in configs
    ensures var r := AddPlan(configs, nextId, domain, given, rejected);
      && r.id in r.configs && IdsBelow(r.configs, r.nextId)
      && (!rejected ==> r.configs[r.id].items.Some? && r.configs[r.id].items.value != []
                        && r.configs[r.id].items.value[|r.configs[r.id].items.value| - 1] == domain)
  {
    AddPlanEffect(configs, nextId, domain, given, rejected);
  }

  /** The alias limit is never exceeded, and quantities keep agreeing with
      the item lists. */
  lemma AddPlanKeepsLimit(configs: map<DistId, Aliases>, nextId: DistId, domain: string,
                          given: Option<DistId>, rejected: bool)
    requires IdsBelow(configs, nextId) && WithinLimit(configs)
    requires forall id :: id in configs ==> Consistent(configs[id])
    requires given.Some? ==> given.value in configs
    ensures WithinLimit(AddPlan(configs, nextId, domain, given, rejected).configs)
    ensures forall id :: id in AddPlan(configs, nextId, domain, given, rejected).configs ==>
      Consistent(AddPlan(configs, nextId, domain, given, rejected).configs[id])
  {
    var c := Choose(configs, nextId, given);
    assert c.configs[c.id].quantity < MaxAliases;
    WithAliasConsistent(c.configs[c.id], domain);
  }

  /** The loop of the caller: every flagged domain is added in turn, the
      returned id carried on to the next call. `rejected[k]` is the
      service's answer to the `k`-th update: whether it refused it as
      `CNAMEAlreadyExists` (the answer may differ between two updates for
      the same domain). */
  function AddAllPlan(configs: map<DistId, Aliases>, nextId: DistId, domains: seq<string>,
                      given: Option<DistId>, rejected: seq<bool>): (Placement, Option<DistId>)
    requires given.Some? ==> given.value in configs
    requires IdsBelow(configs, nextId)
    requires |rejected| == |domains|
    decreases |domains|
  {
    if domains == [] then (Placement(configs, nextId, 0), given)
    else
      var r := AddPlan(configs, nextId, domains[0], given, rejected[0]);
      AddPlanStep(configs, nextId, domains[0], given, rejected[0]);
      AddAllPlan(r.configs, r.nextId, domains[1..], Some(r.id), rejected[1..])
  }

  /** However many domains are added, no distribution exceeds the limit
      and quantities keep agreeing with the item lists. */
  lemma {:induction false} AddAllKeepsLimit(configs: map<DistId, Aliases>, nextId: DistId, domains: seq<string>,
                                            given: Option<DistId>, rejected: seq<bool>)
    requires IdsBelow(configs, nextId) && WithinLimit(configs)
    requires forall id :: id in configs ==> Consistent(configs[id])
    requires given.Some? ==> given.value in configs
    requires |rejected| == |domains|
    ensures WithinLimit(AddAllPlan(configs, nextId, domains, given, rejected).0.configs)
    ensures forall id :: id in AddAllPlan(configs, nextId, domains, given, rejected).0.configs ==>
      Consistent(AddAllPlan(configs, nextId, domains, given, rejected).0.configs[id])
    decreases |domains|
  {
    if domains != [] {
      var r := AddPlan(configs, nextId, domains[0], given, rejected[0]);
      AddPlanStep(configs, nextId, domains[0], given, rejected[0]);
      AddPlanKeepsLimit(configs, nextId, domains[0], given, rejected[0]);
      AddAllKeepsLimit(r.configs, r.nextId, domains[1..], Some(r.id), rejected[1..]);
    }
  }

  /** The aliases a distribution has before one call, it still has after,
      in the same order. */
  lemma AddPlanKeepsAliases(configs: map<DistId, Aliases>, nextId: DistId, domain: string,
                            given: Option<DistId>, rejected: bool)
    requires IdsBelow(configs, nextId)
    requires given.Some? ==> given.value in configs
    ensures forall id :: id in configs ==>
      id in AddPlan(configs, nextId, domain, given, rejected).configs
      && configs[id].items.GetOr([]) <= AddPlan(configs, nextId, domain, given, rejected).configs[id].items.GetOr([])
  {
    AddPlanEffect(configs, nextId, domain, given, rejected);
  }

  /** Aliases are never lost over the whole loop. */
  lemma {:induction false} AddAllKeepsAliases(configs: map<DistId, Aliases>, nextId: DistId, domains: seq<string>,
                                              given: Option<DistId>, rejected: seq<bool>)
    requires IdsBelow(configs, nextId)
    requires given.Some? ==> given.value in configs
    requires |rejected| == |domains|
    ensures forall id :: id in configs ==>
      id in AddAllPlan(configs, nextId, domains, given, rejected).0.configs
      && configs[id].items.GetOr([]) <= AddAllPlan(configs, nextId, domains, given, rejected).0.configs[id].items.GetOr([])
    decreases |domains|
  {
    if domains != [] {
      var r := AddPlan(configs, nextId, domains[0], given, rejected[0]);
      AddPlanStep(configs, nextId, domains[0], given, rejected[0]);
      AddPlanKeepsAliases(configs, nextId, domains[0], given, rejected[0]);
      AddAllKeepsAliases(r.configs, r.nextId, domains[1..], Some(r.id), rejected[1..]);
    }
  }

  /** Some distribution has the domain among its aliases. */
  predicate Aliased(configs: map<DistId, Aliases>, domain: string) {
    exists id :: id in configs && domain in configs[id].items.GetOr([])
  }

  /** Every domain whose update the service accepted is an alias of some
      distribution at the end. */
  lemma {:induction false} AddAllAccepted(configs: map<DistId, Aliases>, nextId: DistId, domains: seq<string>,
                                          given: Option<DistId>, rejected: seq<bool>)
    requires IdsBelow(configs, nextId)
    requires given.Some? ==> given.value in configs
    requires |rejected| == |domains|
    ensures forall k :: 0 <= k < |domains| && !rejected[k] ==>
      Aliased(AddAllPlan(configs, nextId, domains, given, rejected).0.configs, domains[k])
    decreases |domains|
  {
    if domains != [] {
      var r := AddPlan(configs, nextId, domains[0], given, rejected[0]);
      AddPlanStep(configs, nextId, domains[0], given, rejected[0]);
      var final := AddAllPlan(configs, nextId, domains, given, rejected).0.configs;
      assert final == AddAllPlan(r.configs, r.nextId, domains[1..], Some(r.id), rejected[1..]).0.configs;
      AddAllAccepted(r.configs, r.nextId, domains[1..], Some(r.id), rejected[1..]);
      if !rejected[0] {
        HeadAccepted(configs, nextId, domains, given, rejected);
      }
      forall k | 0 < k < |domains| && !rejected[k]
        ensures Aliased(final, domains[k])
      {
        assert domains[k] == domains[1..][k - 1] && rejected[k] == rejected[1..][k - 1];
      }
    }
  }

  /** The first domain, when its update is accepted, is an alias at the
      end of the loop. */
  lemma HeadAccepted(configs: map<DistId, Aliases>, nextId: DistId, domains: seq<string>,
                     given: Option<DistId>, rejected: seq<bool>)
    requires IdsBelow(configs, nextId)
    requires given.Some? ==> given.value in configs
    requires |rejected| == |domains| && domains != [] && !rejected[0]
    ensures Aliased(AddAllPlan(configs, nextId, domains, given, rejected).0.configs, domains[0])
  {
    var r := AddPlan(configs, nextId, domains[0], given, rejected[0]);
    AddPlanStep(configs, nextId, domains[0], given, rejected[0]);
    var final := AddAllPlan(configs, nextId, domains, given, rejected).0.configs;
    assert final == AddAllPlan(r.configs, r.nextId, domains[1..], Some(r.id), rejected[1..]).0.configs;
    AddAllKeepsAliases(r.configs, r.nextId, domains[1..], Some(r.id), rejected[1..]);
    AliasSurvives(r.configs, final, r.id, domains[0]);
  }

  /** An alias just appended survives into any later state that keeps
      every distribution's aliases. */
  lemma AliasSurvives(configs: map<DistId, Aliases>, final: map<DistId, Aliases>, id: DistId, d: string)
    requires id in configs && configs[id].items.Some? && configs[id].items.value != []
    requires configs[id].items.value[|configs[id].items.value| - 1] == d
    requires forall i :: i in configs ==> i in final && configs[i].items.GetOr([]) <= final[i].items.GetOr([])
    ensures Aliased(final, d)
  {
    var items := configs[id].items.value;
    assert final[id].items.GetOr([])[|items| - 1] == d;
  }

  /** The CloudFront account as the boto3 client sees it. */
  class Account {
    var configs: map<DistId, Aliases>
    var nextId: DistId

    ghost predicate Valid()
      reads this
    {
      IdsBelow(configs, nextId)
    }

    constructor()
      ensures Valid() && configs == map[] && nextId == 0
    {
      configs := map[];
      nextId := 0;
    }

    /** `client.create_distribution`: a new distribution, no aliases. */
    method CreateDistribution() returns (id: DistId)
      requires Valid()
      modifies this
      ensures Valid()
      ensures Create(old(configs), old(nextId)) == Placement(configs, nextId, id)
    {
      id := nextId;
      configs := configs[id := NoAliases];
      nextId := nextId + 1;
    }

    /** `client.update_distribution`; `rejected` is `CNAMEAlreadyExists`,
        which leaves the distribution as it was. */
    method UpdateDistribution(id: DistId, aliases: Aliases, rejected: bool)
      requires Valid() && id in configs
      modifies this
      ensures Valid() && nextId == old(nextId)
      ensures configs == if rejected then old(configs) else old(configs)[id := aliases]
    {
      if !rejected {
        configs := configs[id := aliases];
      }
    }
  }

  /** `add_domain`. The id must name an existing distribution: for any
      other id the configuration fetch fails forever and the call does not
      return. */
  method AddDomain(account: Account, domain: string, given: Option<DistId>, rejected: bool)
    returns (id: DistId)
    requires account.Valid()
    requires given.Some? ==> given.value in account.configs
    modifies account
    ensures account.Valid()
    ensures Placement(account.configs, account.nextId, id)
         == AddPlan(old(account.configs), old(account.nextId), domain, given, rejected)
  {
    if given.None? {
      id := account.CreateDistribution();
    } else {
      id := given.value;
    }
    var aliases := account.configs[id];
    if aliases.quantity == MaxAliases {
      id := account.CreateDistribution();
      aliases := account.configs[id];
    }
    var items := if aliases.items.Some? then aliases.items.value + [domain] else [domain];
    aliases := Aliases(aliases.quantity + 1, Some(items));
    account.UpdateDistribution(id, aliases, rejected);
  }

  /** The caller's loop over the flagged domains. */
  method AddDomains(account: Account, domains: seq<string>, given: Option<DistId>, rejected: seq<bool>)
    returns (last: Option<DistId>)
    requires account.Valid()
    requires given.Some? ==> given.value in account.configs
    requires |rejected| == |domains|
    modifies account
    ensures account.Valid()
    ensures var r := AddAllPlan(old(account.configs), old(account.nextId), domains, given, rejected);
      account.configs == r.0.configs && account.nextId == r.0.nextId && last == r.1
  {
    last := given;
    var i := 0;
    while i < |domains|
      invariant 0 <= i <= |domains| && account.Valid()
      invariant last.Some? ==> last.value in account.configs
      invariant AddAllPlan(old(account.configs), old(account.nextId), domains, given, rejected)
             == AddAllPlan(account.configs, account.nextId, domains[i..], last, rejected[i..])
    {
      assert domains[i..][1..] == domains[i + 1..] && rejected[i..][1..] == rejected[i + 1..];
      AddPlanEffect(account.configs, account.nextId, domains[i], last, rejected[i]);
      var id := AddDomain(account, domains[i], last, rejected[i]);
      last := Some(id);
      i := i + 1;
    }
  }
}
