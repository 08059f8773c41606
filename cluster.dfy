/**
 * The desired-state half of a reconciliation pass: which local pods are eligible
 * (`get_pods`), which services are load balancers (`get_loadbalancers`), whether a
 * service selects one of the eligible pods (`local_pod_match`), and the candidate
 * addresses gathered from the selected services.
 *
 * The records are what the Kubernetes client returns. A field the client may leave
 * `None` is an `Option`; where the source iterates over or calls a method on such a
 * field it raises, and that is a `Fault`. Every fault is raised before the pass
 * touches the interface.
 */
module Cluster {
  import opened Wrappers

  datatype Pod = Pod(
    name: string,
    labels: Option<map<string, string>>,        // metadata.labels
    phase: string,                              // status.phase
    containerReady: Option<seq<bool>>,          // status.container_statuses[*].ready
    deletionTimestamp: Option<string>)          // metadata.deletion_timestamp

  datatype Service = Service(
    name: string,
    serviceType: string,                        // spec.type
    selector: Option<map<string, string>>,      // spec.selector
    externalIps: Option<seq<string>>)           // spec.external_i_ps

  /** The exceptions the source raises on a missing field. */
  datatype Fault =
    | ContainerStatusesMissing(pod: string)     // TypeError: iterating None in all(...)
    | LabelsMissing(pod: string)                // AttributeError: None has no get
    | SelectorMissing(service: string)          // TypeError: iterating None selector
    | ExternalIpsMissing(service: string)       // TypeError: iterating None external_i_ps

  // ---------------------------------------------------------------------------
  // get_pods

  predicate AllReady(ready: seq<bool>)
  {
    forall i | 0 <= i < |ready| :: ready[i]
  }

  /** Running, every container ready (vacuously so when there are none), not being deleted. */
  predicate Eligible(p: Pod)
  {
    p.phase == "Running" && p.containerReady.Some? && AllReady(p.containerReady.value)
    && p.deletionTimestamp.None?
  }

  /** The source reads the container statuses of every Running pod, and of no other. */
  predicate Raises(p: Pod)
  {
    p.phase == "Running" && p.containerReady.None?
  }

  /** The eligible pods in input order, or the fault of the first pod that raises. */
  function EligiblePods(pods: seq<Pod>): Result<seq<Pod>, Fault>
  {
    if pods == [] then Ok([])
    else
      match EligiblePods(pods[..|pods| - 1])
      case Err(f) => Err(f)
      case Ok(kept) =>
        var p := pods[|pods| - 1];
        if Raises(p) then Err(ContainerStatusesMissing(p.name))
        else if Eligible(p) then Ok(kept + [p])
        else Ok(kept)
  }

  /** `get_pods` on the pods already listed for this node. */
  method GetPods(localPods: seq<Pod>) returns (r: Result<seq<Pod>, Fault>)
    ensures r == EligiblePods(localPods)
  {
    var validPods: seq<Pod> := [];
    var i := 0;
    while i < |localPods|
      invariant 0 <= i <= |localPods|
      invariant EligiblePods(localPods[..i]) == Ok(validPods)
    {
      var pod := localPods[i];
      assert localPods[..i + 1][..i] == localPods[..i];
      if pod.phase == "Running" {
        if pod.containerReady.None? {
          r := Err(ContainerStatusesMissing(pod.name));
          EligiblePodsStopsAtFault(localPods, i + 1);
          return;
        }
        var ready := pod.containerReady.value;
        var allReady := true;
        var j := 0;
        while j < |ready|
          invariant 0 <= j <= |ready|
          invariant allReady <==> AllReady(ready[..j])
        {
          assert ready[..j + 1] == ready[..j] + [ready[j]];
          allReady := allReady && ready[j];
          j := j + 1;
        }
        assert ready[..j] == ready;
        if allReady {
          if pod.deletionTimestamp.None? {
            validPods := validPods + [pod];
          }
        }
      }
      i := i + 1;
    }
    assert localPods[..i] == localPods;
    r := Ok(validPods);
  }

  lemma {:induction false} EligiblePodsStopsAtFault(pods: seq<Pod>, n: nat)
    requires 0 < n <= |pods| && EligiblePods(pods[..n]).Err?
    ensures EligiblePods(pods) == EligiblePods(pods[..n])
    decreases |pods| - n
  {
    if n < |pods| {
      assert pods[..n + 1][..n] == pods[..n];
      EligiblePodsStopsAtFault(pods, n + 1);
    } else {
      assert pods[..n] == pods;
    }
  }

  /** Filtering distributes over concatenation: the input order is kept, and a fault in the earlier part wins. */
  lemma {:induction false} EligiblePodsAppend(a: seq<Pod>, b: seq<Pod>)
    ensures EligiblePods(a + b) ==
      match (EligiblePods(a), EligiblePods(b))
      case (Err(f), _) => Err(f)
      case (Ok(_), Err(g)) => Err(g)
      case (Ok(x), Ok(y)) => Ok(x + y)
  {
    if b == [] {
      assert a + b == a;
      if EligiblePods(a).Ok? {
        assert EligiblePods(a).value + [] == EligiblePods(a).value;
      }
    } else {
      var init := b[..|b| - 1];
      assert (a + b)[..|a + b| - 1] == a + init;
      assert (a + b)[|a + b| - 1] == b[|b| - 1];
      EligiblePodsAppend(a, init);
      if EligiblePods(a).Ok? && EligiblePods(init).Ok? {
        var x, y, q := EligiblePods(a).value, EligiblePods(init).value, b[|b| - 1];
        assert EligiblePods(a + init) == Ok(x + y);
        assert (x + y) + [q] == x + (y + [q]);
      }
    }
  }

  /** The filter keeps exactly the eligible pods, and raises exactly when some Running pod lacks statuses. */
  lemma {:induction false} EligiblePodsMembers(pods: seq<Pod>)
    ensures EligiblePods(pods).Err? <==> exists i | 0 <= i < |pods| :: Raises(pods[i])
    ensures EligiblePods(pods).Ok? ==>
      forall p :: p in EligiblePods(pods).value <==> p in pods && Eligible(p)
  {
    if pods != [] {
      var init := pods[..|pods| - 1];
      EligiblePodsMembers(init);
      assert pods == init + [pods[|pods| - 1]];
      if EligiblePods(init).Err? {
        var i :| 0 <= i < |init| && Raises(init[i]);
        assert Raises(pods[i]);
      }
    }
  }

  // ---------------------------------------------------------------------------
  // get_loadbalancers

  predicate IsLoadBalancer(s: Service)
  {
    s.serviceType == "LoadBalancer"
  }

  function LoadBalancers(services: seq<Service>): seq<Service>
  {
    if services == [] then []
    else
      var s := services[|services| - 1];
      LoadBalancers(services[..|services| - 1]) + (if IsLoadBalancer(s) then [s] else [])
  }

  /** `get_loadbalancers` on the listed services. */
  method GetLoadBalancers(services: seq<Service>) returns (lbs: seq<Service>)
    ensures lbs == LoadBalancers(services)
    ensures forall s :: s in lbs <==> s in services && IsLoadBalancer(s)
  {
    lbs := [];
    var i := 0;
    while i < |services|
      invariant 0 <= i <= |services|
      invariant lbs == LoadBalancers(services[..i])
    {
      assert services[..i + 1][..i] == services[..i];
      if services[i].serviceType == "LoadBalancer" {
        lbs := lbs + [services[i]];
      }
      i := i + 1;
    }
    assert services[..i] == services;
    LoadBalancersMembers(services);
  }

  lemma {:induction false} LoadBalancersMembers(services: seq<Service>)
    ensures forall s :: s in LoadBalancers(services) <==> s in services && IsLoadBalancer(s)
  {
    if services != [] {
      LoadBalancersMembers(services[..|services| - 1]);
      assert services == services[..|services| - 1] + [services[|services| - 1]];
    }
  }

  /** The type filter keeps the input order: it distributes over concatenation. */
  lemma {:induction false} LoadBalancersAppend(a: seq<Service>, b: seq<Service>)
    ensures LoadBalancers(a + b) == LoadBalancers(a) + LoadBalancers(b)
  {
    if b == [] {
      assert a + b == a;
    } else {
      assert (a + b)[..|a + b| - 1] == a + b[..|b| - 1];
      LoadBalancersAppend(a, b[..|b| - 1]);
    }
  }

  // ---------------------------------------------------------------------------
  // local_pod_match

  /** One selector key on which the pod's label is non-empty and equal to the selector's value. */
  predicate KeyMatches(labels: map<string, string>, selector: map<string, string>, k: string)
  {
    k in selector && k in labels && labels[k] != "" && labels[k] == selector[k]
  }

  predicate PodMatches(labels: map<string, string>, selector: map<string, string>)
  {
    exists k | k in selector :: KeyMatches(labels, selector, k)
  }

  /** What the inner loop over the selector keys does for one pod. */
  function PodOutcome(p: Pod, selector: map<string, string>): Result<bool, Fault>
  {
    if selector == map[] then Ok(false)
    else
      match p.labels
      case None => Err(LabelsMissing(p.name))
      case Some(labels) => Ok(PodMatches(labels, selector))
  }

  /** The pods are scanned in order; the first that matches or raises decides. */
  function MatchOutcome(pods: seq<Pod>, lb: Service): Result<bool, Fault>
  {
    if pods == [] then Ok(false)
    else
      match lb.selector
      case None => Err(SelectorMissing(lb.name))
      case Some(selector) =>
        match PodOutcome(pods[0], selector)
        case Err(f) => Err(f)
        case Ok(true) => Ok(true)
        case Ok(false) => MatchOutcome(pods[1..], lb)
  }

  /** `local_pod_match`: a nested loop over pods and selector keys that returns at the first match. */
  method LocalPodMatch(pods: seq<Pod>, lb: Service) returns (r: Result<bool, Fault>)
    ensures r == MatchOutcome(pods, lb)
  {
    var i := 0;
    while i < |pods|
      invariant 0 <= i <= |pods|
      invariant MatchOutcome(pods[i..], lb) == MatchOutcome(pods, lb)
    {
      if lb.selector.None? {
        return Err(SelectorMissing(lb.name));
      }
      var selector := lb.selector.value;
      var keys := selector.Keys;
      while keys != {}
        invariant keys <= selector.Keys
        invariant keys != selector.Keys ==> pods[i].labels.Some?
        invariant pods[i].labels.Some? ==>
          forall k | k in selector.Keys - keys :: !KeyMatches(pods[i].labels.value, selector, k)
        decreases keys
      {
        var k :| k in keys;
        if pods[i].labels.None? {
          return Err(LabelsMissing(pods[i].name));
        }
        var labels := pods[i].labels.value;
        if k in labels && labels[k] != "" {
          if labels[k] == selector[k] {
            assert KeyMatches(labels, selector, k);
            return Ok(true);
          }
        }
        keys := keys - {k};
      }
      assert pods[i..][1..] == pods[i + 1..];
      i := i + 1;
    }
    return Ok(false);
  }

  /** No pods, or an empty selector, never match. */
  lemma EmptyNeverMatches(pods: seq<Pod>, lb: Service)
    requires pods == [] || lb.selector == Some(map[])
    ensures MatchOutcome(pods, lb) == Ok(false)
  {
    if pods != [] {
      EmptySelectorNeverMatches(pods, lb);
    }
  }

  lemma {:induction false} EmptySelectorNeverMatches(pods: seq<Pod>, lb: Service)
    requires lb.selector == Some(map[])
    ensures MatchOutcome(pods, lb) == Ok(false)
  {
    if pods != [] {
      EmptySelectorNeverMatches(pods[1..], lb);
    }
  }

  /** Pods and a selector without missing fields. */
  predicate WellFormed(pods: seq<Pod>, lb: Service)
  {
    lb.selector.Some? && forall i | 0 <= i < |pods| :: pods[i].labels.Some?
  }

  /**
   * With no missing fields, a service is matched exactly when some pod and some
   * selector key agree on a non-empty label value.
   */
  lemma {:induction false} MatchIffSomeKeyAgrees(pods: seq<Pod>, lb: Service)
    requires WellFormed(pods, lb)
    ensures MatchOutcome(pods, lb) ==
      Ok(exists i, k | 0 <= i < |pods| && k in lb.selector.value ::
           KeyMatches(pods[i].labels.value, lb.selector.value, k))
  {
    if pods != [] {
      assert WellFormed(pods[1..], lb) by {
        forall i | 0 <= i < |pods[1..]| ensures pods[1..][i].labels.Some? {
          assert pods[1..][i] == pods[i + 1];
        }
      }
      MatchIffSomeKeyAgrees(pods[1..], lb);
      var sel := lb.selector.value;
      if exists i, k | 0 <= i < |pods| && k in sel :: KeyMatches(pods[i].labels.value, sel, k) {
        var i, k :| 0 <= i < |pods| && k in sel && KeyMatches(pods[i].labels.value, sel, k);
        if i > 0 {
          assert pods[1..][i - 1] == pods[i];
        }
      } else {
        forall i, k | 0 <= i < |pods[1..]| && k in sel
          ensures !KeyMatches(pods[1..][i].labels.value, sel, k)
        {
          assert pods[1..][i] == pods[i + 1];
        }
      }
    }
  }

  /** A match is always witnessed by a pod and a key, whatever fields are missing. */
  lemma {:induction false} MatchIsWitnessed(pods: seq<Pod>, lb: Service)
    requires MatchOutcome(pods, lb) == Ok(true)
    ensures lb.selector.Some?
    ensures exists i, k | 0 <= i < |pods| && k in lb.selector.value ::
      pods[i].labels.Some? && KeyMatches(pods[i].labels.value, lb.selector.value, k)
  {
    var sel := lb.selector.value;
    if PodOutcome(pods[0], sel) == Ok(true) {
      var k :| k in sel && KeyMatches(pods[0].labels.value, sel, k);
    } else {
      MatchIsWitnessed(pods[1..], lb);
      var i, k :| 0 <= i < |pods[1..]| && k in sel
        && pods[1..][i].labels.Some? && KeyMatches(pods[1..][i].labels.value, sel, k);
      assert pods[1..][i] == pods[i + 1];
    }
  }

  /** One agreeing key suffices: `{app: x}` is selected by `{app: x, tier: y}`. */
  lemma AnyKeySuffices(pod: Pod, lb: Service)
    requires pod.labels == Some(map["app" := "x"])
    requires lb.selector == Some(map["app" := "x", "tier" := "y"])
    ensures MatchOutcome([pod], lb) == Ok(true)
  {
    assert KeyMatches(pod.labels.value, lb.selector.value, "app");
  }

  // ---------------------------------------------------------------------------
  // Candidate addresses (the loop over load balancers in the pass)

  /** The external IPs of the selected services in order, or the first fault. */
  function Candidates(pods: seq<Pod>, lbs: seq<Service>): Result<seq<string>, Fault>
  {
    if lbs == [] then Ok([])
    else
      match Candidates(pods, lbs[..|lbs| - 1])
      case Err(f) => Err(f)
      case Ok(ips) =>
        var lb := lbs[|lbs| - 1];
        match MatchOutcome(pods, lb)
        case Err(f) => Err(f)
        case Ok(false) => Ok(ips)
        case Ok(true) =>
          match lb.externalIps
          case None => Err(ExternalIpsMissing(lb.name))
          case Some(more) => Ok(ips + more)
  }

  /** Selected by this node: the service matches one of the eligible pods. */
  predicate Selected(pods: seq<Pod>, lb: Service)
  {
    MatchOutcome(pods, lb) == Ok(true)
  }

  /** The candidate-gathering loop of the pass. */
  method CandidateIps(pods: seq<Pod>, lbs: seq<Service>) returns (r: Result<seq<string>, Fault>)
    ensures r == Candidates(pods, lbs)
  {
    var candidateIps: seq<string> := [];
    var i := 0;
    while i < |lbs|
      invariant 0 <= i <= |lbs|
      invariant Candidates(pods, lbs[..i]) == Ok(candidateIps)
    {
      var lb := lbs[i];
      assert lbs[..i + 1][..i] == lbs[..i];
      var matched := LocalPodMatch(pods, lb);
      if matched.Err? {
        r := Err(matched.fault);
        CandidatesStopAtFault(pods, lbs, i + 1);
        return;
      }
      if matched.value {
        if lb.externalIps.None? {
          r := Err(ExternalIpsMissing(lb.name));
          CandidatesStopAtFault(pods, lbs, i + 1);
          return;
        }
        var ips := lb.externalIps.value;
        ghost var before := candidateIps;
        var j := 0;
        while j < |ips|
          invariant 0 <= j <= |ips|
          invariant candidateIps == before + ips[..j]
        {
          assert ips[..j + 1] == ips[..j] + [ips[j]];
          candidateIps := candidateIps + [ips[j]];
          j := j + 1;
        }
        assert ips[..j] == ips;
      }
      i := i + 1;
    }
    assert lbs[..i] == lbs;
    r := Ok(candidateIps);
  }

  lemma {:induction false} CandidatesStopAtFault(pods: seq<Pod>, lbs: seq<Service>, n: nat)
    requires 0 < n <= |lbs| && Candidates(pods, lbs[..n]).Err?
    ensures Candidates(pods, lbs) == Candidates(pods, lbs[..n])
    decreases |lbs| - n
  {
    if n < |lbs| {
      assert lbs[..n + 1][..n] == lbs[..n];
      CandidatesStopAtFault(pods, lbs, n + 1);
    } else {
      assert lbs[..n] == lbs;
    }
  }

  /** A candidate is exactly an external IP of a service selected by this node. */
  lemma {:induction false} CandidateMembers(pods: seq<Pod>, lbs: seq<Service>)
    requires Candidates(pods, lbs).Ok?
    ensures forall ip :: ip in Candidates(pods, lbs).value <==>
      exists j | 0 <= j < |lbs| :: Selected(pods, lbs[j]) && lbs[j].externalIps.Some?
        && ip in lbs[j].externalIps.value
  {
    if lbs != [] {
      var init := lbs[..|lbs| - 1];
      CandidateMembers(pods, init);
      forall ip ensures ip in Candidates(pods, lbs).value <==>
        exists j | 0 <= j < |lbs| :: Selected(pods, lbs[j]) && lbs[j].externalIps.Some?
          && ip in lbs[j].externalIps.value
      {
        if exists j | 0 <= j < |init| :: (Selected(pods, init[j]) && init[j].externalIps.Some?
          && ip in init[j].externalIps.value)
        {
          var j :| 0 <= j < |init| && Selected(pods, init[j]) && init[j].externalIps.Some?
            && ip in init[j].externalIps.value;
          assert lbs[j] == init[j];
        }
        if exists j | 0 <= j < |lbs| :: (Selected(pods, lbs[j]) && lbs[j].externalIps.Some?
          && ip in lbs[j].externalIps.value)
        {
          var j :| 0 <= j < |lbs| && Selected(pods, lbs[j]) && lbs[j].externalIps.Some?
            && ip in lbs[j].externalIps.value;
          if j < |init| { assert init[j] == lbs[j]; }
        }
      }
    }
  }

  /**
   * The desired state of the pass: the eligible pods, the load balancers, and the
   * candidate addresses of those that select one of the pods.
   */
  function DesiredState(localPods: seq<Pod>, services: seq<Service>): Result<seq<string>, Fault>
  {
    match EligiblePods(localPods)
    case Err(f) => Err(f)
    case Ok(pods) => Candidates(pods, LoadBalancers(services))
  }
}
