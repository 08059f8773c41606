/**
 * One reconciliation pass of the agent, and the daemon loop that repeats it:
 * compute the candidate addresses from the cluster, make sure every candidate is
 * assigned, then remove every assigned in-prefix address that is not a candidate.
 * The pass keeps no state of its own; everything is read afresh each time.
 */
module Reconcile {
  import opened Wrappers
  import opened Ipv4
  import opened Cluster
  import opened Iface

  /** Every command the pass issues carries a host netmask. */
  const HOST_NETMASK: string := "/32"

  function Elements(s: seq<string>): set<string>
  {
    set x | x in s
  }

  lemma ElementsSnoc(s: seq<string>)
    requires s != []
    ensures Elements(s) == Elements(s[..|s| - 1]) + {s[|s| - 1]}
  {
    assert s == s[..|s| - 1] + [s[|s| - 1]];
  }

  /** Assigned addresses inside the prefix that no selected service asks for. */
  function Stale(held: set<string>, candidates: set<string>, prefix: string): set<string>
  {
    set x | x in held && InPrefix(x, prefix) && x !in candidates
  }

  /** The in-prefix scan minus the candidates is the stale set. */
  lemma InvalidAreStale(inRange: seq<string>, held: set<string>, candidates: seq<string>, prefix: string)
    requires forall x :: x in inRange <==> x in held && InPrefix(x, prefix)
    ensures Elements(inRange) - Elements(candidates) == Stale(held, Elements(candidates), prefix)
  {
  }

  /** The addresses assigned at the end of a pass that began with `held`. */
  function AfterPass(held: set<string>, candidates: set<string>, prefix: string): (r: set<string>)
    ensures candidates <= r
    ensures forall x | x in r && InPrefix(x, prefix) :: x in candidates
    ensures forall x | !InPrefix(x, prefix) :: x in r <==> x in held || x in candidates
  {
    (held + candidates) - Stale(held + candidates, candidates, prefix)
  }

  /** The add commands of the provisioning loop: one for each candidate not yet assigned when reached. */
  function ProvisionLog(held: set<string>, candidates: seq<string>): seq<Command>
  {
    if candidates == [] then []
    else
      var init, ip := candidates[..|candidates| - 1], candidates[|candidates| - 1];
      ProvisionLog(held, init) + (if ip in held + Elements(init) then [] else [Add(ip, HOST_NETMASK)])
  }

  /** The addresses the commands of `log` name. */
  function Named(log: seq<Command>): set<string>
  {
    set c | c in log :: c.address
  }

  /** `log` holds exactly one command per address of `targets`: adds when `add`, deletes otherwise. */
  predicate OnePerAddress(log: seq<Command>, targets: set<string>, add: bool)
  {
    && |log| == |targets|
    && Named(log) == targets
    && (forall c | c in log :: c.Add? == add && c.netmask == HOST_NETMASK)
  }

  /** Issuing one more command for a new address keeps one command per address. */
  lemma OnePerAddressExtend(log: seq<Command>, targets: set<string>, add: bool, x: string)
    requires OnePerAddress(log, targets, add) && x !in targets
    ensures OnePerAddress(log + [if add then Add(x, HOST_NETMASK) else Del(x, HOST_NETMASK)], targets + {x}, add)
  {
    var c := if add then Add(x, HOST_NETMASK) else Del(x, HOST_NETMASK);
    assert Named(log + [c]) == Named(log) + {x} by {
      forall y ensures y in Named(log + [c]) <==> y in Named(log) || y == x {
        if y == x {
          assert c in log + [c];
        }
        if y in Named(log) {
          var d :| d in log && d.address == y;
          assert d in log + [c];
        }
      }
    }
  }

  /** Provisioning adds each candidate that was not assigned, once, and nothing else. */
  lemma {:induction false} ProvisionLogAddsMissing(held: set<string>, candidates: seq<string>)
    ensures OnePerAddress(ProvisionLog(held, candidates), Elements(candidates) - held, true)
  {
    if candidates != [] {
      var init, ip := candidates[..|candidates| - 1], candidates[|candidates| - 1];
      ProvisionLogAddsMissing(held, init);
      ElementsSnoc(candidates);
      var before := ProvisionLog(held, init);
      if ip !in held + Elements(init) {
        OnePerAddressExtend(before, Elements(init) - held, true, ip);
        assert Elements(candidates) - held == (Elements(init) - held) + {ip};
        assert ProvisionLog(held, candidates) == before + [Add(ip, HOST_NETMASK)];
      } else {
        assert Elements(candidates) - held == Elements(init) - held;
        assert ProvisionLog(held, candidates) == before;
      }
    }
  }

  /** No address occurs twice in `s`. */
  predicate NoRepeats(s: seq<string>)
  {
    s == [] || (NoRepeats(s[..|s| - 1]) && s[|s| - 1] !in s[..|s| - 1])
  }

  /** The delete commands for `order`, in that order. */
  function Deletes(order: seq<string>): seq<Command>
  {
    if order == [] then [] else Deletes(order[..|order| - 1]) + [Del(order[|order| - 1], HOST_NETMASK)]
  }

  /** Appending an address not yet listed keeps the list free of repeats and deletes it last. */
  lemma OrderStep(order: seq<string>, ip: string)
    requires NoRepeats(order) && ip !in Elements(order)
    ensures NoRepeats(order + [ip]) && Elements(order + [ip]) == Elements(order) + {ip}
    ensures Deletes(order + [ip]) == Deletes(order) + [Del(ip, HOST_NETMASK)]
  {
    ElementsSnoc(order + [ip]);
    assert (order + [ip])[..|order|] == order;
  }

  /** Deleting the distinct addresses of `order` issues one delete per address. */
  lemma {:induction false} DeletesOnePerAddress(order: seq<string>)
    requires NoRepeats(order)
    ensures OnePerAddress(Deletes(order), Elements(order), false)
  {
    if order != [] {
      var init, ip := order[..|order| - 1], order[|order| - 1];
      DeletesOnePerAddress(init);
      ElementsSnoc(order);
      OnePerAddressExtend(Deletes(init), Elements(init), false, ip);
    }
  }

  /** Nothing needs doing: every candidate is assigned, and no stale address is. */
  predicate Converged(held: set<string>, candidates: set<string>, prefix: string)
  {
    candidates <= held && Stale(held, candidates, prefix) == {}
  }

  /** One pass always reaches a state in which nothing needs doing. */
  lemma PassConverges(held: set<string>, candidates: set<string>, prefix: string)
    ensures Converged(AfterPass(held, candidates, prefix), candidates, prefix)
  {
  }

  /** From a converged state the pass issues no command and changes no assignment. */
  lemma {:induction false} ConvergedPassIsQuiet(held: set<string>, candidates: seq<string>, prefix: string)
    requires Converged(held, Elements(candidates), prefix)
    ensures ProvisionLog(held, candidates) == []
    ensures Stale(held + Elements(candidates), Elements(candidates), prefix) == {}
    ensures AfterPass(held, Elements(candidates), prefix) == held
  {
    ProvisionLogAddsMissing(held, candidates);
    assert held + Elements(candidates) == held;
  }

  /**
   * `main.py` lines 180 to 201: one reconciliation pass on the listed pods and services.
   * `deletes` names the delete commands of the garbage collection, whose order follows
   * the iteration order of an unordered set.
   */
  method ReconcilePass(iface: Interface, localPods: seq<Pod>, services: seq<Service>, prefix: string)
    returns (outcome: Result<seq<string>, Fault>, ghost deletes: seq<Command>)
    modifies iface
    ensures outcome == DesiredState(localPods, services)
    ensures outcome.Err? ==> iface.table == old(iface.table) && iface.log == old(iface.log)
    ensures outcome.Ok? ==>
      iface.Addresses() == AfterPass(old(iface.Addresses()), Elements(outcome.value), prefix)
    ensures outcome.Ok? ==>
      var held, wanted := old(iface.Addresses()), Elements(outcome.value);
      && iface.log == old(iface.log) + ProvisionLog(held, outcome.value) + deletes
      && OnePerAddress(deletes, Stale(held + wanted, wanted, prefix), false)
    ensures outcome.Ok? && Converged(old(iface.Addresses()), Elements(outcome.value), prefix) ==>
      iface.table == old(iface.table) && iface.log == old(iface.log)
  {
    deletes := [];
    var pods := GetPods(localPods);
    if pods.Err? {
      return Err(pods.fault), deletes;
    }
    var lbs := GetLoadBalancers(services);
    outcome := CandidateIps(pods.value, lbs);
    if outcome.Err? {
      return;
    }
    var candidateIps := outcome.value;
    ghost var held := iface.Addresses();
    ProvisionCandidates(iface, candidateIps);
    deletes := CollectGarbage(iface, candidateIps, prefix);
    if Converged(held, Elements(candidateIps), prefix) {
      ConvergedPassIsQuiet(held, candidateIps, prefix);
    }
  }

  /** `main.py` lines 193 and 194: provision every candidate; `provision_address` is idempotent. */
  method ProvisionCandidates(iface: Interface, candidateIps: seq<string>)
    modifies iface
    ensures iface.Addresses() == old(iface.Addresses()) + Elements(candidateIps)
    ensures iface.log == old(iface.log) + ProvisionLog(old(iface.Addresses()), candidateIps)
    ensures Elements(candidateIps) <= old(iface.Addresses()) ==> iface.table == old(iface.table)
  {
    ghost var held := iface.Addresses();
    var i := 0;
    while i < |candidateIps|
      invariant 0 <= i <= |candidateIps|
      invariant iface.Addresses() == held + Elements(candidateIps[..i])
      invariant iface.log == old(iface.log) + ProvisionLog(held, candidateIps[..i])
      invariant Elements(candidateIps) <= held ==> iface.table == old(iface.table)
    {
      assert candidateIps[..i + 1][..i] == candidateIps[..i];
      ElementsSnoc(candidateIps[..i + 1]);
      iface.ProvisionAddress(candidateIps[i], HOST_NETMASK);
      i := i + 1;
    }
    assert candidateIps[..i] == candidateIps;
  }

  /**
   * `main.py` lines 196 to 201: remove every assigned in-prefix address that is not a
   * candidate; `deletes` are the commands issued.
   */
  method CollectGarbage(iface: Interface, candidateIps: seq<string>, prefix: string)
    returns (ghost deletes: seq<Command>)
    modifies iface
    ensures var stale := Stale(old(iface.Addresses()), Elements(candidateIps), prefix);
      && iface.Addresses() == old(iface.Addresses()) - stale
      && iface.log == old(iface.log) + deletes
      && OnePerAddress(deletes, stale, false)
      && (stale == {} ==> iface.table == old(iface.table))
  {
    var inRange := iface.ExistingIpsInRange(prefix);
    var invalidIps := Elements(inRange) - Elements(candidateIps);
    InvalidAreStale(inRange, iface.Addresses(), candidateIps, prefix);
    ghost var order := EnforceNoAddresses(iface, invalidIps);
    deletes := Deletes(order);
    DeletesOnePerAddress(order);
  }

  /**
   * `main.py` lines 200 and 201: `enforce_no_address` for each address of `invalidIps`,
   * all of which are assigned (the pass only collects assigned addresses), in the
   * order `order`, which lists each of them once.
   */
  method EnforceNoAddresses(iface: Interface, invalidIps: set<string>) returns (ghost order: seq<string>)
    requires invalidIps <= iface.Addresses()
    modifies iface
    ensures Elements(order) == invalidIps && NoRepeats(order)
    ensures iface.Addresses() == old(iface.Addresses()) - invalidIps
    ensures iface.log == old(iface.log) + Deletes(order)
    ensures invalidIps == {} ==> iface.table == old(iface.table)
  {
    order := [];
    if invalidIps == {} {
      return;
    }
    ghost var log0, held := iface.log, iface.Addresses();
    var todo := invalidIps;
    while todo != {}
      invariant todo <= invalidIps && Elements(order) == invalidIps - todo
      invariant NoRepeats(order)
      invariant iface.Addresses() == held - Elements(order)
      invariant iface.log == log0 + Deletes(order)
      decreases todo
    {
      var ip :| ip in todo;
      iface.EnforceNoAddress(ip, HOST_NETMASK);
      assert iface.Addresses() == held - (Elements(order) + {ip});
      assert Elements(order) + {ip} == invalidIps - (todo - {ip});
      OrderStep(order, ip);
      order := order + [ip];
      todo := todo - {ip};
    }
  }

  /**
   * `main.py` lines 175 to 201: the daemon loop, here a first pass followed by
   * `extraPasses` more on the same pods and services (the random sleep between
   * passes is left out). Only the first pass changes anything.
   */
  method ReconcileRepeatedly(iface: Interface, localPods: seq<Pod>, services: seq<Service>,
                             prefix: string, extraPasses: nat)
    returns (outcome: Result<seq<string>, Fault>)
    modifies iface
    ensures outcome == DesiredState(localPods, services)
    ensures outcome.Err? ==> iface.table == old(iface.table) && iface.log == old(iface.log)
    ensures outcome.Ok? ==>
      iface.Addresses() == AfterPass(old(iface.Addresses()), Elements(outcome.value), prefix)
    ensures outcome.Ok? ==>
      var held, wanted := old(iface.Addresses()), Elements(outcome.value);
      |iface.log| == |old(iface.log)| + |wanted - held| + |Stale(held + wanted, wanted, prefix)|
  {
    ghost var held := iface.Addresses();
    ghost var deletes;
    outcome, deletes := ReconcilePass(iface, localPods, services, prefix);
    if outcome.Err? {
      return;
    }
    ghost var wanted := Elements(outcome.value);
    ProvisionLogAddsMissing(held, outcome.value);
    PassConverges(held, wanted, prefix);
    ghost var table1, log1 := iface.table, iface.log;
    var k := 0;
    while k < extraPasses
      invariant 0 <= k <= extraPasses
      invariant iface.table == table1 && iface.log == log1
    {
      var again, _ := ReconcilePass(iface, localPods, services, prefix);
      k := k + 1;
    }
  }
}
