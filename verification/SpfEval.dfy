/** SPF evaluation over domains whose records are already read: recursion through includes and redirects,
    what terminates, and what the result means. */
module SpfEval {
  import opened Text

  /** One live mechanism: hosts to add, or a domain to include; `cidr` is appended to every host when not empty. */
  datatype Action = Give(hosts: seq<string>, cidr: string) | Follow(target: string, cidr: string)

  /** What evaluating one domain does: the mechanisms before the first live redirect, and that redirect. */
  datatype Plan = Plan(actions: seq<Action>, redirect: Option<string>)

  /** Every domain's plan; only the domains in `known` have records. `spell` spells a host at the end. */
  datatype Net = Net(plan: string -> Plan, known: set<string>, spell: (string, bool) -> string) {
    ghost predicate Bounded() {
      forall d :: d !in known ==> plan(d) == Plan([], None)
    }
  }

  function Suffixed(host: string, cidr: string): string {
    if cidr == "" then host else host + "/" + cidr
  }

  function SuffixAll(hosts: seq<string>, cidr: string): seq<string> {
    seq(|hosts|, i requires 0 <= i < |hosts| => Suffixed(hosts[i], cidr))
  }

  lemma SuffixedFrom(hosts: seq<string>, cidr: string, h: string)
    ensures h in SuffixAll(hosts, cidr) <==> exists x :: x in hosts && h == Suffixed(x, cidr)
  {
    assert forall i :: 0 <= i < |hosts| ==> SuffixAll(hosts, cidr)[i] == Suffixed(hosts[i], cidr);
    if x :| x in hosts && h == Suffixed(x, cidr) {
      var i :| 0 <= i < |hosts| && hosts[i] == x;
      assert SuffixAll(hosts, cidr)[i] == h;
    }
  }

  /** First occurrences, in order. */
  function Distinct(hosts: seq<string>): seq<string> {
    if hosts == [] then []
    else
      var front, last := hosts[..|hosts| - 1], hosts[|hosts| - 1];
      if last in front then Distinct(front) else Distinct(front) + [last]
  }

  /** Deduplication keeps every host and repeats none. */
  lemma {:induction false} DistinctKeepsOne(hosts: seq<string>)
    ensures forall h :: h in Distinct(hosts) <==> h in hosts
    ensures forall i, j :: 0 <= i < j < |Distinct(hosts)| ==> Distinct(hosts)[i] != Distinct(hosts)[j]
  {
    if hosts != [] {
      var front, last := hosts[..|hosts| - 1], hosts[|hosts| - 1];
      assert hosts == front + [last];
      DistinctKeepsOne(front);
    }
  }

  function SpellAll(net: Net, hosts: seq<string>, expandIpv6: bool): seq<string> {
    seq(|hosts|, i requires 0 <= i < |hosts| => net.spell(hosts[i], expandIpv6))
  }

  /** Position of the first occurrence. */
  function FirstAt(hosts: seq<string>, h: string): (i: nat)
    requires h in hosts
    ensures i < |hosts| && hosts[i] == h && h !in hosts[..i]
  {
    if hosts[0] == h then 0
    else
      var i := 1 + FirstAt(hosts[1..], h);
      assert hosts[..i] == [hosts[0]] + hosts[1..][..i - 1];
      i
  }

  lemma FirstIsFirst(hosts: seq<string>, h: string, i: nat)
    requires i < |hosts| && hosts[i] == h && h !in hosts[..i]
    ensures FirstAt(hosts, h) == i
  {
    var k := FirstAt(hosts, h);
    assert forall m :: 0 <= m < i ==> hosts[..i][m] == hosts[m];
    assert forall m :: 0 <= m < k ==> hosts[..k][m] == hosts[m];
  }

  lemma FirstInFront(front: seq<string>, last: string, h: string)
    requires h in front + [last]
    ensures FirstAt(front + [last], h) == if h in front then FirstAt(front, h) else |front|
  {
    var i := if h in front then FirstAt(front, h) else |front|;
    assert (front + [last])[..i] == front[..i];
    FirstIsFirst(front + [last], h, i);
  }

  /** What is kept stands in the order of first occurrences. */
  lemma {:induction false} DistinctKeepsOrder(hosts: seq<string>, i: nat, j: nat)
    requires i < j < |Distinct(hosts)|
    ensures Distinct(hosts)[i] in hosts && Distinct(hosts)[j] in hosts
    ensures FirstAt(hosts, Distinct(hosts)[i]) < FirstAt(hosts, Distinct(hosts)[j])
  {
    var front, last := hosts[..|hosts| - 1], hosts[|hosts| - 1];
    assert hosts == front + [last];
    DistinctKeepsOne(hosts);
    DistinctKeepsOne(front);
    assert Distinct(hosts)[i] in Distinct(hosts) && Distinct(hosts)[j] in Distinct(hosts);
    FirstInFront(front, last, Distinct(hosts)[i]);
    FirstInFront(front, last, Distinct(hosts)[j]);
    if j < |Distinct(front)| {
      DistinctKeepsOrder(front, i, j);
      assert Distinct(front)[i] in Distinct(front) && Distinct(front)[j] in Distinct(front);
    } else {
      assert Distinct(front)[i] in Distinct(front) && last !in front;
    }
  }

  lemma DistinctOneMore(hosts: seq<string>, host: string)
    ensures Distinct(hosts + [host]) == if host in hosts then Distinct(hosts) else Distinct(hosts) + [host]
  {
    assert (hosts + [host])[..|hosts|] == hosts && (hosts + [host])[|hosts|] == host;
  }

  lemma SpellOneMore(net: Net, hosts: seq<string>, host: string, expandIpv6: bool)
    ensures SpellAll(net, hosts + [host], expandIpv6) ==
            SpellAll(net, hosts, expandIpv6) + [net.spell(host, expandIpv6)]
  {
  }

  // ---- evaluation under a recursion limit; None is running out of it ----

  function ActionHosts(net: Net, action: Action, depth: nat): Option<seq<string>>
    decreases depth, 1
  {
    match action
    case Give(hosts, cidr) => Some(SuffixAll(hosts, cidr))
    case Follow(target, cidr) =>
      match Allowed(net, target, false, depth)
      case None => None
      case Some(hosts) => Some(SuffixAll(hosts, cidr))
  }

  function Collect(net: Net, actions: seq<Action>, depth: nat): Option<seq<string>>
    decreases depth, 2 + |actions|
  {
    if actions == [] then Some([])
    else
      match ActionHosts(net, actions[0], depth)
      case None => None
      case Some(hosts) =>
        match Collect(net, actions[1..], depth)
        case None => None
        case Some(more) => Some(hosts + more)
  }

  /** A redirect discards what the domain itself collected. */
  function Allowed(net: Net, domain: string, expandIpv6: bool, depth: nat): Option<seq<string>>
    decreases depth, 0
  {
    if depth == 0 then None
    else
      var plan := net.plan(domain);
      match Collect(net, plan.actions, depth - 1)
      case None => None
      case Some(hosts) =>
        if plan.redirect.Some? then Allowed(net, plan.redirect.value, true, depth - 1)
        else Some(SpellAll(net, Distinct(hosts), expandIpv6))
  }

  /** Hosts are collected in the order of the actions. */
  lemma {:induction false} CollectInOrder(net: Net, xs: seq<Action>, ys: seq<Action>, depth: nat)
    requires Collect(net, xs, depth).Some? && Collect(net, ys, depth).Some?
    ensures Collect(net, xs + ys, depth) == Some(Collect(net, xs, depth).value + Collect(net, ys, depth).value)
  {
    if xs == [] {
      assert xs + ys == ys && [] + Collect(net, ys, depth).value == Collect(net, ys, depth).value;
    } else {
      assert (xs + ys)[0] == xs[0] && (xs + ys)[1..] == xs[1..] + ys;
      CollectInOrder(net, xs[1..], ys, depth);
      var a, b, c := ActionHosts(net, xs[0], depth).value, Collect(net, xs[1..], depth).value,
        Collect(net, ys, depth).value;
      assert a + (b + c) == a + b + c;
    }
  }

  /** One action running out of depth makes the whole collection run out. */
  lemma {:induction false} CollectFails(net: Net, actions: seq<Action>, action: Action, depth: nat)
    requires action in actions && ActionHosts(net, action, depth).None?
    ensures Collect(net, actions, depth).None?
  {
    if action != actions[0] {
      CollectFails(net, actions[1..], action, depth);
    }
  }

  /** The recursion limit decides only whether there is an answer, never which. */
  lemma {:induction false} LimitIsIrrelevant(net: Net, domain: string, expandIpv6: bool, depth: nat, more: nat)
    requires depth <= more && Allowed(net, domain, expandIpv6, depth).Some?
    ensures Allowed(net, domain, expandIpv6, more) == Allowed(net, domain, expandIpv6, depth)
    decreases depth, 0
  {
    var plan := net.plan(domain);
    CollectedAlike(net, plan.actions, depth - 1, more - 1);
    if plan.redirect.Some? {
      LimitIsIrrelevant(net, plan.redirect.value, true, depth - 1, more - 1);
    }
  }

  lemma {:induction false} CollectedAlike(net: Net, actions: seq<Action>, depth: nat, more: nat)
    requires depth <= more && Collect(net, actions, depth).Some?
    ensures Collect(net, actions, more) == Collect(net, actions, depth)
    decreases depth, 2 + |actions|
  {
    if actions != [] {
      if actions[0].Follow? {
        LimitIsIrrelevant(net, actions[0].target, false, depth, more);
      }
      CollectedAlike(net, actions[1..], depth, more);
    }
  }

  // ---- derivations: what the answer means ----

  /** A finite chain of live terms. */
  datatype Chain =
    | Direct(action: Action, host: string)
    | Include(action: Action, host: string, sub: Chain)
    | Redirect(sub: Chain)

  /** The chain shows that `domain` allows `host`: through the first live redirect when there is one, otherwise
      through a live mechanism, directly or by including another domain. */
  ghost predicate Derives(net: Net, domain: string, expandIpv6: bool, chain: Chain, host: string)
    decreases chain
  {
    var plan := net.plan(domain);
    match chain
    case Redirect(sub) => plan.redirect.Some? && Derives(net, plan.redirect.value, true, sub, host)
    case Direct(action, x) =>
      && plan.redirect.None? && action in plan.actions
      && action.Give? && x in action.hosts && host == net.spell(Suffixed(x, action.cidr), expandIpv6)
    case Include(action, x, sub) =>
      && plan.redirect.None? && action in plan.actions
      && action.Follow? && Derives(net, action.target, false, sub, x)
      && host == net.spell(Suffixed(x, action.cidr), expandIpv6)
  }

  ghost predicate Derivable(net: Net, domain: string, expandIpv6: bool, host: string) {
    exists chain :: Derives(net, domain, expandIpv6, chain, host)
  }

  ghost predicate Yields(net: Net, action: Action, depth: nat, raw: string) {
    var hosts := ActionHosts(net, action, depth);
    hosts.Some? && raw in hosts.value
  }

  ghost predicate YieldedByOne(net: Net, actions: seq<Action>, depth: nat, raw: string) {
    exists action :: action in actions && Yields(net, action, depth, raw)
  }

  lemma {:induction false} CollectedFrom(net: Net, actions: seq<Action>, depth: nat, raw: string)
    requires Collect(net, actions, depth).Some?
    ensures raw in Collect(net, actions, depth).value <==> YieldedByOne(net, actions, depth, raw)
  {
    if actions != [] {
      var first, rest := actions[0], actions[1..];
      assert actions == [first] + rest;
      CollectedFrom(net, rest, depth, raw);
      assert raw in Collect(net, actions, depth).value <==>
             Yields(net, first, depth, raw) || YieldedByOne(net, rest, depth, raw);
      if YieldedByOne(net, rest, depth, raw) {
        var action :| action in rest && Yields(net, action, depth, raw);
        assert action in actions;
      }
      assert first in actions;
    }
  }

  lemma SpelledFrom(net: Net, hosts: seq<string>, expandIpv6: bool, host: string)
    ensures host in SpellAll(net, Distinct(hosts), expandIpv6) <==>
            exists raw :: raw in hosts && host == net.spell(raw, expandIpv6)
  {
    var once := Distinct(hosts);
    DistinctKeepsOne(hosts);
    var spelled := SpellAll(net, once, expandIpv6);
    assert forall i :: 0 <= i < |once| ==> spelled[i] == net.spell(once[i], expandIpv6) && once[i] in hosts;
    if raw :| raw in hosts && host == net.spell(raw, expandIpv6) {
      var i :| 0 <= i < |once| && once[i] == raw;
      assert spelled[i] == host;
    }
  }

  lemma ReturnedHasYield(net: Net, domain: string, expandIpv6: bool, depth: nat, host: string)
    returns (action: Action, raw: string)
    requires Allowed(net, domain, expandIpv6, depth).Some? && net.plan(domain).redirect.None?
    requires host in Allowed(net, domain, expandIpv6, depth).value
    ensures action in net.plan(domain).actions && Yields(net, action, depth - 1, raw)
    ensures host == net.spell(raw, expandIpv6)
  {
    var actions := net.plan(domain).actions;
    var hosts := Collect(net, actions, depth - 1).value;
    SpelledFrom(net, hosts, expandIpv6, host);
    raw :| raw in hosts && host == net.spell(raw, expandIpv6);
    CollectedFrom(net, actions, depth - 1, raw);
    action :| action in actions && Yields(net, action, depth - 1, raw);
  }

  /** Soundness: every returned host has a chain. */
  lemma {:induction false} ReturnedIsDerivable(net: Net, domain: string, expandIpv6: bool, depth: nat, host: string)
    requires Allowed(net, domain, expandIpv6, depth).Some?
    requires host in Allowed(net, domain, expandIpv6, depth).value
    ensures Derivable(net, domain, expandIpv6, host)
    decreases depth
  {
    var plan := net.plan(domain);
    if plan.redirect.Some? {
      ReturnedIsDerivable(net, plan.redirect.value, true, depth - 1, host);
      var sub :| Derives(net, plan.redirect.value, true, sub, host);
      assert Derives(net, domain, expandIpv6, Redirect(sub), host);
    } else {
      var action, raw := ReturnedHasYield(net, domain, expandIpv6, depth, host);
      YieldHasHost(net, action, depth - 1, raw);
      if action.Follow? {
        var x :| x in Allowed(net, action.target, false, depth - 1).value && raw == Suffixed(x, action.cidr);
        ReturnedIsDerivable(net, action.target, false, depth - 1, x);
        var sub :| Derives(net, action.target, false, sub, x);
        assert Derives(net, domain, expandIpv6, Include(action, x, sub), host);
      } else {
        var x :| x in action.hosts && raw == Suffixed(x, action.cidr);
        assert Derives(net, domain, expandIpv6, Direct(action, x), host);
      }
    }
  }

  lemma YieldHasHost(net: Net, action: Action, depth: nat, raw: string)
    requires Yields(net, action, depth, raw)
    ensures action.Give? ==> exists x :: x in action.hosts && raw == Suffixed(x, action.cidr)
    ensures action.Follow? ==> Allowed(net, action.target, false, depth).Some?
    ensures action.Follow? ==>
              exists x :: x in Allowed(net, action.target, false, depth).value && raw == Suffixed(x, action.cidr)
  {
    var hosts := if action.Give? then action.hosts else Allowed(net, action.target, false, depth).value;
    SuffixedFrom(hosts, action.cidr, raw);
  }

  /** Completeness: every chain's host is returned, if evaluation terminates. */
  lemma {:induction false} DerivedIsReturned(net: Net, domain: string, expandIpv6: bool, depth: nat, chain: Chain,
        host: string)
    requires Allowed(net, domain, expandIpv6, depth).Some?
    requires Derives(net, domain, expandIpv6, chain, host)
    ensures host in Allowed(net, domain, expandIpv6, depth).value
    decreases depth
  {
    var plan := net.plan(domain);
    if chain.Redirect? {
      DerivedIsReturned(net, plan.redirect.value, true, depth - 1, chain.sub, host);
    } else {
      var action := chain.action;
      var raw := Suffixed(chain.host, action.cidr);
      if ActionHosts(net, action, depth - 1).None? {
        CollectFails(net, plan.actions, action, depth - 1);
      }
      if chain.Include? {
        DerivedIsReturned(net, action.target, false, depth - 1, chain.sub, chain.host);
      }
      var hosts := if chain.Include? then Allowed(net, action.target, false, depth - 1).value else action.hosts;
      SuffixedFrom(hosts, action.cidr, raw);
      YieldIsReturned(net, domain, expandIpv6, depth, action, raw);
    }
  }

  lemma YieldIsReturned(net: Net, domain: string, expandIpv6: bool, depth: nat, action: Action, raw: string)
    requires Allowed(net, domain, expandIpv6, depth).Some? && net.plan(domain).redirect.None?
    requires action in net.plan(domain).actions && Yields(net, action, depth - 1, raw)
    ensures net.spell(raw, expandIpv6) in Allowed(net, domain, expandIpv6, depth).value
  {
    var plan := net.plan(domain);
    CollectedFrom(net, plan.actions, depth - 1, raw);
    SpelledFrom(net, Collect(net, plan.actions, depth - 1).value, expandIpv6, net.spell(raw, expandIpv6));
  }

  /** Whenever evaluation terminates it returns exactly the derivable hosts. */
  lemma ReturnsExactlyDerivable(net: Net, domain: string, expandIpv6: bool, depth: nat, host: string)
    requires Allowed(net, domain, expandIpv6, depth).Some?
    ensures host in Allowed(net, domain, expandIpv6, depth).value <==> Derivable(net, domain, expandIpv6, host)
  {
    if host in Allowed(net, domain, expandIpv6, depth).value {
      ReturnedIsDerivable(net, domain, expandIpv6, depth, host);
    }
    if chain :| Derives(net, domain, expandIpv6, chain, host) {
      DerivedIsReturned(net, domain, expandIpv6, depth, chain, host);
    }
  }

  // ---- the include/redirect graph and termination ----

  /** Evaluating `domain` evaluates `target`: an include before the first live redirect, or that redirect. */
  ghost predicate Edge(net: Net, domain: string, target: string) {
    || (exists action :: action in net.plan(domain).actions && action.Follow? && action.target == target)
    || net.plan(domain).redirect == Some(target)
  }

  ghost predicate IsPath(net: Net, path: seq<string>) {
    path != [] && forall i, j :: 0 <= i < |path| - 1 && j == i + 1 ==> Edge(net, path[i], path[j])
  }

  ghost predicate NoRepeats(path: seq<string>) {
    forall i, j :: 0 <= i < j < |path| ==> path[i] != path[j]
  }

  /** No path from `domain` visits a domain twice. */
  ghost predicate AcyclicFrom(net: Net, domain: string) {
    forall path :: IsPath(net, path) && path[0] == domain ==> NoRepeats(path)
  }

  ghost predicate Reaches(net: Net, domain: string, x: string) {
    exists path :: IsPath(net, path) && path[0] == domain && path[|path| - 1] == x
  }

  /** The domains with records that evaluating `domain` can reach. */
  ghost function ReachSet(net: Net, domain: string): set<string> {
    set x | x in net.known && Reaches(net, domain, x)
  }

  lemma PathCons(net: Net, domain: string, path: seq<string>)
    requires IsPath(net, path) && Edge(net, domain, path[0])
    ensures IsPath(net, [domain] + path)
  {
    var longer := [domain] + path;
    forall i, j | 0 <= i < |longer| - 1 && j == i + 1 ensures Edge(net, longer[i], longer[j]) {
      if i > 0 {
        assert longer[i] == path[i - 1] && longer[j] == path[j - 1];
      }
    }
  }

  lemma PathJoin(net: Net, p: seq<string>, q: seq<string>)
    requires IsPath(net, p) && IsPath(net, q) && Edge(net, p[|p| - 1], q[0])
    ensures IsPath(net, p + q)
  {
    var path := p + q;
    forall i, j | 0 <= i < |path| - 1 && j == i + 1 ensures Edge(net, path[i], path[j]) {
      if i < |p| - 1 {
        assert path[i] == p[i] && path[j] == p[j];
      } else if i >= |p| {
        assert path[i] == q[i - |p|] && path[j] == q[j - |p|];
      }
    }
  }

  lemma SubPath(net: Net, path: seq<string>, i: nat, j: nat)
    requires IsPath(net, path) && i < j <= |path|
    ensures IsPath(net, path[i..j])
  {
    var sub := path[i..j];
    forall x, y | 0 <= x < |sub| - 1 && y == x + 1 ensures Edge(net, sub[x], sub[y]) {
      assert sub[x] == path[i + x] && sub[y] == path[i + y];
    }
  }

  lemma AcyclicStep(net: Net, domain: string, target: string)
    requires AcyclicFrom(net, domain) && Edge(net, domain, target)
    ensures AcyclicFrom(net, target)
    ensures !Reaches(net, target, domain)
  {
    forall path | IsPath(net, path) && path[0] == target
      ensures NoRepeats(path) && path[|path| - 1] != domain
    {
      PathCons(net, domain, path);
      var longer := [domain] + path;
      assert NoRepeats(longer);
      assert longer[0] != longer[|path|];
      forall i, j | 0 <= i < j < |path| ensures path[i] != path[j] {
        assert longer[i + 1] != longer[j + 1];
      }
    }
  }

  lemma StepShrinks(net: Net, domain: string, target: string)
    requires net.Bounded() && AcyclicFrom(net, domain) && Edge(net, domain, target)
    ensures AcyclicFrom(net, target)
    ensures |ReachSet(net, target)| < |ReachSet(net, domain)|
  {
    AcyclicStep(net, domain, target);
    forall x | Reaches(net, target, x) ensures Reaches(net, domain, x) {
      var path :| IsPath(net, path) && path[0] == target && path[|path| - 1] == x;
      PathCons(net, domain, path);
      var longer := [domain] + path;
      assert longer[0] == domain && longer[|longer| - 1] == x;
    }
    assert IsPath(net, [domain]) && Reaches(net, domain, domain);
    assert domain in net.known;
    assert ReachSet(net, target) <= ReachSet(net, domain) - {domain};
    SubsetSize(ReachSet(net, target), ReachSet(net, domain) - {domain});
  }

  lemma {:induction false} SubsetSize(s: set<string>, t: set<string>)
    requires s <= t
    ensures |s| <= |t|
  {
    if s != {} {
      var x :| x in s;
      SubsetSize(s - {x}, t - {x});
    }
  }

  /** On an acyclic net a recursion limit above the number of reachable domains is never hit. */
  lemma {:induction false} AcyclicTerminates(net: Net, domain: string, expandIpv6: bool, depth: nat)
    requires net.Bounded() && AcyclicFrom(net, domain) && |ReachSet(net, domain)| < depth
    ensures Allowed(net, domain, expandIpv6, depth).Some?
    decreases depth, 1, 0
  {
    var plan := net.plan(domain);
    CollectTerminates(net, domain, plan.actions, depth - 1);
    if plan.redirect.Some? {
      StepShrinks(net, domain, plan.redirect.value);
      AcyclicTerminates(net, plan.redirect.value, true, depth - 1);
    }
  }

  lemma {:induction false} CollectTerminates(net: Net, domain: string, actions: seq<Action>, depth: nat)
    requires net.Bounded() && AcyclicFrom(net, domain) && |ReachSet(net, domain)| <= depth
    requires forall action :: action in actions ==> action in net.plan(domain).actions
    ensures Collect(net, actions, depth).Some?
    decreases depth, 2, |actions|
  {
    if actions != [] {
      CollectTerminates(net, domain, actions[1..], depth);
      var action := actions[0];
      if action.Follow? {
        assert Edge(net, domain, action.target);
        StepShrinks(net, domain, action.target);
        AcyclicTerminates(net, action.target, false, depth);
      }
    }
  }

  /** A path as long as the recursion limit exhausts it. */
  lemma {:induction false} LongPathFails(net: Net, path: seq<string>, expandIpv6: bool, depth: nat)
    requires IsPath(net, path) && depth < |path|
    ensures Allowed(net, path[0], expandIpv6, depth).None?
    decreases depth
  {
    if depth > 0 {
      var domain, target := path[0], path[1];
      SubPath(net, path, 1, |path|);
      LongPathFails(net, path[1..], true, depth - 1);
      LongPathFails(net, path[1..], false, depth - 1);
      assert Edge(net, domain, target);
      if action :| action in net.plan(domain).actions && action.Follow? && action.target == target {
        CollectFails(net, net.plan(domain).actions, action, depth - 1);
      }
    }
  }

  /** From a path that repeats a domain, paths of any length can be made. */
  lemma {:induction false} Pump(net: Net, path: seq<string>, i: nat, j: nat, n: nat) returns (long: seq<string>)
    requires IsPath(net, path) && i < j < |path| && path[i] == path[j]
    ensures IsPath(net, long) && long[0] == path[0] && long[|long| - 1] == path[j] && |long| > n
    decreases n
  {
    if n == 0 {
      SubPath(net, path, 0, j + 1);
      long := path[0..j + 1];
    } else {
      var shorter := Pump(net, path, i, j, n - 1);
      SubPath(net, path, i + 1, j + 1);
      var cycle := path[i + 1..j + 1];
      assert Edge(net, path[i], path[i + 1]);
      PathJoin(net, shorter, cycle);
      long := shorter + cycle;
    }
  }

  /** Evaluation terminates, under some recursion limit, exactly when no path of includes and redirects from the
      domain visits a domain twice. */
  lemma TerminatesIffAcyclic(net: Net, domain: string, expandIpv6: bool)
    requires net.Bounded()
    ensures (exists depth :: Allowed(net, domain, expandIpv6, depth).Some?) <==> AcyclicFrom(net, domain)
  {
    if AcyclicFrom(net, domain) {
      AcyclicTerminates(net, domain, expandIpv6, |ReachSet(net, domain)| + 1);
    } else {
      var path :| IsPath(net, path) && path[0] == domain && !NoRepeats(path);
      var i, j :| 0 <= i < j < |path| && path[i] == path[j];
      forall depth: nat ensures Allowed(net, domain, expandIpv6, depth).None? {
        var long := Pump(net, path, i, j, depth);
        LongPathFails(net, long, expandIpv6, depth);
      }
    }
  }
}
