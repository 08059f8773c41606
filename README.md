# k8s-l3-lb reconciliation, modelled in Dafny

`main.py` is a node-local agent. It keeps the addresses on one network interface in
step with the `LoadBalancer` services of a Kubernetes cluster that select a pod running
on this node. Each pass does four things:

- It lists this node's pods and keeps those that are `Running`, fully ready and not being
  deleted (`get_pods`).
- It lists the `LoadBalancer` services (`get_loadbalancers`).
- It collects the external IPs of every service whose selector agrees with some eligible
  pod on at least one key (`local_pod_match`).
- It then changes the interface. First it binds every candidate as a `/32`
  (`provision_address`). Then it removes every assigned address inside the configured
  prefix that is not a candidate (`existing_ips_in_range`, `enforce_no_address`).

The pass keeps no state of its own. Garbage collection works only because the prefix
marks which addresses the agent owns.

The project has six modules:

- `Wrappers` (`wrappers.dfy`): `Option` and `Result`.
- `Text` (`text.dfy`): `str.split` / `str.join`, and decimal digits.
- `Ipv4` (`ipv4.dfy`): the parts of Python's `ipaddress` the agent uses.
  - `ip_address` / `IPv4Address` read a dotted quad. Each octet has at most three digits
    and no leading zero, as in Python 3.9.5 and later.
  - `IPv4Network` reads a prefix in the notation of section 3.1 of RFC 4632. After the
    slash it also accepts a dotted netmask or hostmask. With the default `strict=True` it
    refuses host bits.
  - Network membership is the `address & netmask` test.
- `Cluster` (`cluster.dfy`): pod and service records, and the three functions that compute
  the desired state. A field the client may leave `None` is an `Option`. Where the source
  iterates over such a field, or calls a method on it, the Python exception becomes a
  `Fault` result.
- `Iface` (`iface.dfy`): the class `Interface`.
  - Its `table` is what `netifaces.ifaddresses(dev)` reports: address families, each a
    list of entry dictionaries.
  - Its `log` records the `ip address add/del` commands handed to `os.system`.
  - Each command takes effect on the table at once.
- `Reconcile` (`reconcile.dfy`): one pass (`main.py` lines 180 to 201), and the daemon
  loop as a bounded number of passes.

Each imperative function of `main.py` is a method with the source's own loops, including
the loop over each dictionary's items. Each method is proved against a specification
function. Lemmas prove what the source's docstrings and comments promise about those
functions (main.py:44-45, 63-64, 74-75, 83-85, 89-90, 108-109, 141-142, 188-191):

- exact membership;
- the order of the filters is kept;
- the any-key match, in both directions;
- idempotence;
- after a pass:
  - every candidate is bound;
  - no stale in-prefix address is left;
  - out-of-prefix addresses are untouched;
  - the next pass is quiet.

Some behaviour of `main.py` is easy to mistake for something simpler:

- The desired addresses come only from `spec.external_i_ps`. A single `loadBalancerIP` is
  not read.
- A key matches only when the pod's label is non-empty as well as equal to the selector's
  value (`if pod.metadata.labels.get(selector)`, main.py:91).
- A failure is not isolated to one item. A missing field raises, and no `try` surrounds
  the `while True` loop (main.py:175), so the exception ends the agent process and no
  later pass runs. Every such fault is raised while the candidates are computed. That is
  before the interface is touched, so a failed pass changes nothing
  (`Reconcile.ReconcilePass`), and `Reconcile.ReconcileRepeatedly` stops at it.
- Addresses are compared as strings (main.py:56, 197), not as parsed IPv4 values.
- Nothing watches the cluster, queues events or patches service status. The loop sleeps a
  random 1 to 9 seconds between passes.

## Model

| member | source | states |
|---|---|---|
| Cluster.GetPods | main.py:117-125 | The result is the eligible pods, in input order. If some `Running` pod has no container statuses, it is instead the fault of the first such pod. |
| Cluster.EligiblePodsMembers | main.py:117-125 | The filter fails exactly when some pod is `Running` without container statuses. Otherwise a pod is kept exactly when it is in the input, `Running`, all its containers are ready (vacuously so with none), and it has no deletion timestamp. |
| Cluster.EligiblePodsAppend | main.py:117-125 | The filter distributes over concatenation, so the input order is kept; a fault in an earlier part wins over a later one. |
| Cluster.EligiblePodsStopsAtFault | main.py:118-121 | Once a prefix of the pods raises, the whole list raises the same fault. |
| Cluster.GetLoadBalancers | main.py:133-137 | The result is the services of type `LoadBalancer` in input order. A service is in it exactly when it is listed and has that type. |
| Cluster.LoadBalancersMembers | main.py:134-136 | A service is kept exactly when it is listed and of type `LoadBalancer`. |
| Cluster.LoadBalancersAppend | main.py:133-137 | The type filter distributes over concatenation, so the order is kept. |
| Cluster.LocalPodMatch | main.py:87-104 | The nested scan returns the outcome of the first pod decided in list order. That is a match on some key, or the error of a missing selector or missing labels; with none of these the result is "no match". |
| Cluster.MatchIffSomeKeyAgrees | main.py:87-104 | With no missing fields, a service matches exactly when some pod and some selector key have a non-empty label equal to the selector's value (both directions). |
| Cluster.MatchIsWitnessed | main.py:87-102 | Whatever fields are missing, a match always has a pod with labels and a selector key that agree. |
| Cluster.EmptyNeverMatches | main.py:87-104 | No pods, or an empty selector, never match. |
| Cluster.EmptySelectorNeverMatches | main.py:88-104 | An empty selector matches no pod list, even one whose pods have no labels. |
| Cluster.AnyKeySuffices | main.py:89-92 | One agreeing key is enough: labels `{app: x}` are selected by `{app: x, tier: y}`. |
| Cluster.CandidateIps | main.py:181-186 | The candidates are the external IPs of the selected services, in service order. If matching raises, or a selected service has no external IP list, the result is instead the first fault. |
| Cluster.CandidateMembers | main.py:183-186 | An address is a candidate exactly when it is an external IP of some listed service that this node selects. |
| Cluster.CandidatesStopAtFault | main.py:183-186 | Once the loop over a prefix of the services faults, the whole list yields that fault. |
| Iface.Interface.GetAddressState | main.py:47-59 | The result is true exactly when some entry of some family has an "addr" equal to the address. Equivalently, the address is among the assigned addresses. |
| Iface.AddrValuesMembers | main.py:50-54 | A string is among the collected "addr" values exactly when some entry of some family carries it. |
| Iface.EntryAddrsMembers | main.py:51-54 | A string is among one family's "addr" values exactly when one of its entries carries it. |
| Iface.Interface.ProvisionAddress | main.py:62-70 | Afterwards the address is assigned, and no other assignment has changed. If it was assigned already, the table and log are unchanged (idempotence). Otherwise exactly one `add` with the given netmask is issued, and the address is appended to the IPv4 family. |
| Iface.WithAddressBinds | main.py:70 | `ip address add x` binds exactly `x` in addition to what was bound. |
| Iface.WithAddressValues | main.py:70 | After an add, the "addr" values are the old ones plus `x`. |
| Iface.Interface.EnforceNoAddress | main.py:73-79 | Afterwards the address is not assigned, and no other assignment has changed. If it was not assigned, the table and log are unchanged (idempotence). Otherwise exactly one `del` with the given netmask is issued, and every entry carrying the address goes. |
| Iface.WithoutAddressUnbinds | main.py:79 | `ip address del x` unbinds exactly `x`. |
| Iface.WithoutAddressValues | main.py:79 | After a delete, the "addr" values are the old ones minus `x`. |
| Iface.DropAddrUnbinds | main.py:79 | Within one family, exactly the entries carrying `x` lose their address. |
| Iface.Interface.ExistingIpsInRange | main.py:140-160 | The result is the assigned "addr" values that are IPv4 addresses inside the range, in table order. A value is in it exactly when it is assigned and in the prefix. |
| Iface.ScanFamily | main.py:148-158 | One family's in-range "addr" values, in entry order. |
| Iface.ScanEntry | main.py:149-158 | One entry contributes its "addr" value exactly when that value is an IPv4 address inside the range. A `ValueError` from either parse skips it. |
| Iface.InRangeMembers | main.py:149-158 | A value is kept exactly when it is listed and is an IPv4 address inside the range. |
| Iface.InRangeAppend | main.py:147-156 | The in-range scan distributes over concatenation, so the table order is kept. |
| Iface.InRangeOfInvalidRange | main.py:151-158 | A prefix that does not parse as a strict `IPv4Network` makes every entry raise and be skipped, so the result is empty. |
| Ipv4.InvalidRangeContainsNothing | main.py:151-158 | Under a prefix that does not parse, no entry is in range. |
| Ipv4.InPrefix | main.py:151-158 | An entry is in range only when it parses as an IPv4 address and the range parses as a network. |
| Ipv4.ParseFormat | main.py:152-153 | Formatting an address and parsing the text gives the same address back. |
| Ipv4.FormatParse | main.py:152-153 | Every text `IPv4Address` accepts is the canonical spelling of its address: parsing refuses leading zeros and extra parts. |
| Ipv4.ParseAddress | main.py:152-153 | An accepted text is made of digits and dots only, so IPv6 text, or text carrying a netmask, is never an IPv4 address. With `ParseFormat` and `FormatParse`, it accepts exactly the canonical dotted quads. |
| Text.Split | main.py:152-155 | `str.split` with a one-character separator gives at least one piece, and no piece holds the separator. |
| Text.JoinSplit | main.py:152-155 | Joining the pieces of a split gives the original text back. |
| Text.SplitJoin | main.py:152-155 | Splitting a join of separator-free pieces gives the pieces back. |
| Ipv4.ParseNetwork | main.py:153-155 | A parsed network has a prefix length of at most 32. Its address is exactly the address written before the slash, and that address has no host bits set, so a text with host bits is refused and never masked (strict parsing). |
| Ipv4.HostBitsRefused | main.py:153-155 | The text `a/p` of an address with host bits set does not parse as a network. An in-prefix scan under such a prefix therefore finds nothing to remove. |
| Ipv4.ParsePrefixLength | main.py:153-155 | The text after the slash yields a prefix length of at most 32, or nothing. |
| Ipv4.MaskPrefixLength | main.py:153-155 | A dotted mask after the slash yields a length whose netmask is the mask, or whose netmask is the mask's complement (a hostmask). It yields nothing exactly when no length has either. |
| Ipv4.PrefixOfNetmask | main.py:153-155 | The search finds a prefix length whose netmask is the mask, or shows that no length in the range has it. |
| Ipv4.ParseNetworkText | main.py:153-155 | The text `a/p` of a network with no host bits parses back to that network. |
| Ipv4.NetmaskForm | main.py:153-155 | A dotted netmask after the slash stands for its prefix length. |
| Ipv4.HostmaskForm | main.py:153-155 | A dotted hostmask after the slash stands for its prefix length too. The all-zeros and all-ones masks are read as netmasks. |
| Ipv4.Contains | main.py:153-155 | `IPv4Address(b) in IPv4Network(...)`. For a network without host bits, an address is in it exactly when its first `prefixLen` bits equal the network's. |
| Ipv4.ContainsItsAddress | main.py:153-155 | A network contains its own network address. |
| Ipv4.HostAndDefaultRoutes | main.py:153-155 | A `/32` contains its address and nothing else; `0.0.0.0/0` contains every address. |
| Reconcile.ReconcilePass | main.py:180-201 | The outcome is the desired state of the pods and services. A fault changes neither table nor log. After a successful pass the assigned set is exactly `AfterPass` of the old one. The log gains the provisioning adds, then one `/32` delete per stale address. From a converged state the pass changes nothing. |
| Reconcile.ProvisionCandidates | main.py:193-194 | Afterwards every candidate is assigned, and nothing else has changed. The log gains one add for each candidate that was not yet assigned when reached. If all were assigned, the table is unchanged. |
| Reconcile.ProvisionLogAddsMissing | main.py:193-194 | Provisioning adds each candidate that was missing exactly once, with a `/32` netmask, and nothing else. |
| Reconcile.InvalidAreStale | main.py:196-198 | The in-prefix scan minus the candidates is exactly the set of assigned in-prefix non-candidates. |
| Reconcile.CollectGarbage | main.py:196-201 | Afterwards exactly the stale addresses are gone, and no other assignment has changed. The log gains exactly one `/32` delete per stale address. With nothing stale, the table is unchanged. |
| Reconcile.EnforceNoAddresses | main.py:200-201 | Each address of the set is deleted once, in some order listing each once. The assigned set loses exactly those addresses, and the log gains their deletes in that order. |
| Reconcile.DeletesOnePerAddress | main.py:200-201 | Deleting a list of distinct addresses issues one delete per address. |
| Reconcile.AfterPass | main.py:193-201 | After a pass every candidate is assigned and no in-prefix non-candidate remains. Outside the prefix an address is assigned exactly when it was assigned before or is a candidate, so no out-of-prefix address is ever removed. |
| Reconcile.PassConverges | main.py:188-201 | The state after one pass is converged: all candidates are bound and nothing in the prefix is stale. |
| Reconcile.ConvergedPassIsQuiet | main.py:188-201 | From a converged state a pass issues no add and finds nothing stale, and the assignment stays the same. |
| Reconcile.ReconcileRepeatedly | main.py:175-201 | The same cluster state gives the same outcome. After any number of passes the assignment is that of a single pass. The log grows by exactly one command per missing candidate and one per stale address, so the later passes issue none. |

## Left out

- A prefix with host bits set, such as `10.0.0.1/24`, is refused by `IPv4Network`. Each entry's `ValueError` is caught, so such a prefix silently turns garbage collection off. The model keeps that behaviour.
- The Kubernetes client calls (main.py:111-115, 134) and config loading (main.py:164-167) are foreign network calls. The listed pods and services are inputs to the model.
- `socket.gethostname()` and the `spec.nodeName` field selector (main.py:112-115) filter on the server. The model takes the pods already listed for this node.
- `netifaces.ifaddresses` and `os.system` are OS I/O. The interface is the `Interface` object, and the model treats every command as succeeding, since the source never checks its exit status. The kernel's own reading of the command text is not modelled:
  - an add creates one `{"addr": address}` entry in the IPv4 family (`AF_INET`, 2), with the address text as given;
  - a delete removes every entry carrying that text;
  - any other keys of an entry, such as the netmask, are not modelled.
- The `while True` loop sleeps for `random.randrange(1, 10)` seconds (main.py:175-176). The sleep and the randomness are left out; `Reconcile.ReconcileRepeatedly` runs a fixed number of passes over an unchanged cluster and interface instead.
- The environment variables (main.py:37-40, 169-170) are configuration. The prefix and the interface name are parameters.
- Debug output and timing (main.py:66-67, 69, 78, 93-101, 172-173, 177-178, 203-205) are logging only.
- The module doctest (main.py:1-26) is left out. Its pylxd container session is external I/O, and its `get_address_state` calls pass a third argument that the function no longer takes (main.py:5, 9).
- `Reconcile.EnforceNoAddresses`: it requires every address it is given to be assigned. The garbage collector only passes it addresses it has just read off the interface (main.py:196-198). `Reconcile.CollectGarbage`, which has no precondition, states the step's full behaviour.
- `Reconcile.ReconcilePass`: the order of the delete commands follows Python's iteration order over a set (main.py:196-201), which the source does not define. The model picks any order and states the deletes up to order: exactly one per stale address.
- Other IP address families are left out. An IPv6 "addr" value fails the `IPv4Address` type test (main.py:152) and is skipped. The model represents that by the value not parsing as an IPv4 address.
