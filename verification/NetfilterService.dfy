/** The service's tasks as requests handled one at a time in any order, and its whole life from start-up to shutdown. */
module NetfilterService {
  import opened Text
  import opened Nftables
  import opened NetfilterTables
  import opened Fail2ban
  import opened Fail2banSafety
  import opened Fail2banCounts
  import opened N = Netfilter

  datatype Request =
    | FailedLogin(address: string, now: real, now2: real)
    | Purge(clock: string -> real)
    | NewBlacklist(entries: set<string>)
    | NewWhitelist(entries: set<string>)
    | QueueUnban(key: string)
    | CheckOrder

  lemma {:induction false} RunOneMore(lib: IpLib, st: State, events: seq<Event>, e: Event)
    requires PossibleRun(lib, st, events) && Possible(Run(lib, st, events), e)
    ensures PossibleRun(lib, st, events + [e])
    ensures Run(lib, st, events + [e]) == Step(lib, Run(lib, st, events), e)
    decreases |events|
  {
    if events == [] {
      assert events + [e] == [e];
      assert PossibleRun(lib, Step(lib, st, e), []);
    } else {
      assert (events + [e])[1..] == events[1..] + [e];
      RunOneMore(lib, Step(lib, st, events[0]), events[1..], e);
    }
  }

  /** A log line whose matched text is no address raises in `watch`, which stops the service with exit code 2. */
  predicate Stops(lib: IpLib, r: Request) {
    r.FailedLogin? && lib.getIp(r.address).Malformed?
  }

  /** Handles one request: at most one step of the machine, and the tables stay installed. The order check never stops
      the service. */
  method Handle(n: Netfilter, r: Request, ghost base4: Chains, ghost base6: Chains)
    returns (stopped: bool, ghost e: Option<Event>)
    requires n.Valid() && Netfilter.InstalledOver(n.ipv4, base4) && Netfilter.InstalledOver(n.ipv6, base6)
    modifies n, n.ipv4.kernel, n.ipv6.kernel
    ensures n.Valid() && Netfilter.InstalledOver(n.ipv4, base4) && Netfilter.InstalledOver(n.ipv6, base6)
    ensures e.Some? ==> Possible(old(n.View()), e.value) && n.View() == Step(n.lib, old(n.View()), e.value)
    ensures e.None? ==> n.View() == old(n.View())
    ensures stopped == Stops(n.lib, r)
  {
    stopped, e := false, None;
    match r {
      case FailedLogin(address, now, now2) =>
        stopped := n.BanAddress(address, now, now2);
        if n.lib.getIp(address).Routable? {
          e := Some(Attempt(n.lib.getIp(address).address, now, now2));
        }
        n.InstalledStays(old(n.ipv4.kernel.chains), n.ipv4, base4);
        n.InstalledStays(old(n.ipv6.kernel.chains), n.ipv6, base6);
      case Purge(clock) =>
        ghost var queued, keys := n.Autopurge(clock);
        e := Some(Event.Autopurge(queued, keys, clock));
        n.InstalledStays(old(n.ipv4.kernel.chains), n.ipv4, base4);
        n.InstalledStays(old(n.ipv6.kernel.chains), n.ipv6, base6);
      case NewBlacklist(entries) =>
        ghost var added, removed := n.UpdateBlacklist(entries);
        e := Some(Event.Blacklist(entries, added, removed));
        n.InstalledStays(old(n.ipv4.kernel.chains), n.ipv4, base4);
        n.InstalledStays(old(n.ipv6.kernel.chains), n.ipv6, base6);
      case NewWhitelist(entries) =>
        n.UpdateWhitelist(entries);
        e := Some(Event.Whitelist(entries));
      case QueueUnban(key) =>
        n.queue := n.queue + {key};
        e := Some(Enqueue(key));
        n.KeysSame(old(n.View()), n.View());
      case CheckOrder =>
        stopped := n.ChainOrder(base4, base6);
    }
  }

  /** What a run from a fresh start leaves: faithful counters; enforced bans for networks never blacklisted; exactly the
      drop rules of its history for every network; a represented blacklist; untouched isolation rules. */
  ghost predicate Safe(lib: IpLib, start: State, events: seq<Event>, after: State) {
    && (forall key :: RecordsHistory(after, key))
    && (forall key :: Canonical(lib, key) && NeverListed(lib, events, lib.parse(key)) ==>
          Enforced(lib, after, key))
    && (forall net :: Conserved(lib, after, net) && Counts(lib, after, net))
    && SameIsolation(start, after)
  }

  lemma FreshRunIsSafe(lib: IpLib, start: State, events: seq<Event>)
    requires lib.Sound() && IsStart(start) && PossibleRun(lib, start, events)
    ensures Safe(lib, start, events, Run(lib, start, events))
  {
    var after, anyNet, anyKey := Run(lib, start, events), Network(false, 0, 0), "";
    forall key ensures RecordsHistory(after, key) {
      EveryRunIsSafe(lib, start, events, key, anyNet);
    }
    forall key | Canonical(lib, key) && NeverListed(lib, events, lib.parse(key))
      ensures Enforced(lib, after, key)
    {
      EveryRunIsSafe(lib, start, events, key, anyNet);
    }
    forall net ensures Conserved(lib, after, net) && Counts(lib, after, net) {
      EveryRunIsSafe(lib, start, events, anyKey, net);
      EveryRunCountsExactly(lib, start, events, net);
    }
    EveryRunIsSafe(lib, start, events, anyKey, anyNet);
  }

  predicate AnyStops(lib: IpLib, requests: seq<Request>) {
    requests != [] && (Stops(lib, requests[0]) || AnyStops(lib, requests[1..]))
  }

  ghost function Extended(events: seq<Event>, e: Option<Event>): seq<Event> {
    if e.Some? then events + [e.value] else events
  }

  /** A run reaches a state; one request later a run reaches the next. */
  ghost predicate Reaches(lib: IpLib, start: State, events: seq<Event>, st: State) {
    PossibleRun(lib, start, events) && st == Run(lib, start, events)
  }

  lemma ReachesNext(lib: IpLib, start: State, events: seq<Event>, before: State, e: Option<Event>, after: State)
    requires Reaches(lib, start, events, before)
    requires if e.Some? then Possible(before, e.value) && after == Step(lib, before, e.value) else after == before
    ensures Reaches(lib, start, Extended(events, e), after)
  {
    if e.Some? {
      RunOneMore(lib, start, events, e.value);
    }
  }

  /** Any requests in any order, up to the first one that stops the service: the object does a run of the machine. */
  method Serve(n: Netfilter, requests: seq<Request>, ghost base4: Chains, ghost base6: Chains)
    returns (stopped: bool, ghost events: seq<Event>)
    requires n.Valid() && Netfilter.InstalledOver(n.ipv4, base4) && Netfilter.InstalledOver(n.ipv6, base6)
    modifies n, n.ipv4.kernel, n.ipv6.kernel
    ensures n.Valid() && Netfilter.InstalledOver(n.ipv4, base4) && Netfilter.InstalledOver(n.ipv6, base6)
    ensures Reaches(n.lib, old(n.View()), events, n.View())
    ensures stopped == AnyStops(n.lib, requests)
  {
    stopped, events := false, [];
    ghost var start := n.View();
    var i := 0;
    assert requests[0..] == requests;
    while i < |requests| && !stopped
      invariant 0 <= i <= |requests|
      invariant n.Valid() && Netfilter.InstalledOver(n.ipv4, base4) && Netfilter.InstalledOver(n.ipv6, base6)
      invariant Reaches(n.lib, start, events, n.View())
      invariant AnyStops(n.lib, requests) == (stopped || AnyStops(n.lib, requests[i..]))
    {
      assert requests[i..][1..] == requests[i + 1..];
      ghost var before, e := n.View(), None;
      stopped, e := Handle(n, requests[i], base4, base6);
      ReachesNext(n.lib, start, events, before, e, n.View());
      events := Extended(events, e);
      i := i + 1;
    }
  }

  /** The isolation rules among the rules: the port closed to traffic into the interface from other ones, or none. */
  predicate Isolates(rules: seq<Rule>, isolate: bool, interface: string, dports: seq<int>) {
    var isolations := Nftables.Isolations(rules);
    if isolate then |isolations| == 1 && isolations[0].body == Isolation(interface, dports) else isolations == []
  }

  /** The IPv4 chain closes port 6379 of the mail bridge to other interfaces by one rule, and the IPv6 chain has no such
      rule. */
  predicate OneIsolation(st: State) {
    Isolates(st.table4.rules, true, "br-taramail", [6379]) && Isolates(st.table6.rules, false, "", [])
  }

  lemma IsolationStays(before: State, after: State)
    requires SameIsolation(before, after) && OneIsolation(before)
    ensures OneIsolation(after)
  {
  }

  /** From a fresh start the run is safe, and the port stays closed. */
  method ServeFresh(n: Netfilter, requests: seq<Request>, ghost base4: Chains, ghost base6: Chains)
    returns (stopped: bool, ghost events: seq<Event>)
    requires n.Valid() && Netfilter.InstalledOver(n.ipv4, base4) && Netfilter.InstalledOver(n.ipv6, base6)
    requires IsStart(n.View())
    modifies n, n.ipv4.kernel, n.ipv6.kernel
    ensures n.Valid() && Netfilter.InstalledOver(n.ipv4, base4) && Netfilter.InstalledOver(n.ipv6, base6)
    ensures Safe(n.lib, old(n.View()), events, n.View())
    ensures OneIsolation(old(n.View())) ==> OneIsolation(n.View())
    ensures stopped == AnyStops(n.lib, requests)
  {
    ghost var start := n.View();
    stopped, events := Serve(n, requests, base4, base6);
    FreshRunIsSafe(n.lib, start, events);
    if OneIsolation(start) {
      IsolationStays(start, n.View());
    }
  }

  /** On chains without a trace of the mail tables, clear does nothing. */
  lemma ClearOfClean(cfg: Config, chains: Chains)
    requires cfg.Valid() && Clean(cfg, chains) && UniqueNames(chains)
    ensures Cleared(cfg, chains) == chains
  {
    if cfg.input != "" {
      WithoutCommentNoop(RulesOf(chains, cfg.input), cfg.comment);
      SetSame(chains, cfg.input);
    }
    if cfg.forward != "" {
      WithoutCommentNoop(RulesOf(chains, cfg.forward), cfg.comment);
      SetSame(chains, cfg.forward);
    }
  }

  /** Started over a base: installed, with nothing but isolation rules in the mail chain. */
  ghost predicate Ready(tables: NetfilterTables, base: Chains)
    reads tables, tables.kernel
  {
    && tables.Valid() && HasChain(tables.kernel.chains, tables.name) && Netfilter.InstalledOver(tables, base)
    && forall i :: 0 <= i < |Netfilter.ChainOf(tables).rules| ==> Netfilter.ChainOf(tables).rules[i].body.Isolation?
  }

  lemma IsolatesAtStart(rules: seq<Rule>, isolate: bool, interface: string, dports: seq<int>)
    requires |rules| == (if isolate then 1 else 0) && (isolate ==> rules[0].body == Isolation(interface, dports))
    ensures Isolates(rules, isolate, interface, dports)
  {
    if isolate {
      assert rules[1..] == [];
    }
  }

  method StartOne(tables: NetfilterTables, isolate: bool, interface: string, dports: seq<int>)
    requires tables.Valid() && tables.Cfg().Valid() && tables.Cfg().Found(tables.kernel.chains)
    modifies tables.kernel
    ensures Ready(tables, Cleared(tables.Cfg(), old(tables.kernel.chains)))
    ensures Isolates(Netfilter.ChainOf(tables).rules, isolate, interface, dports)
  {
    Netfilter.Start(tables, isolate, interface, dports);
    IsolatesAtStart(Netfilter.ChainOf(tables).rules, isolate, interface, dports);
  }

  method StartBoth(ipv4: NetfilterTables, ipv6: NetfilterTables)
    requires ipv4.kernel != ipv6.kernel && ipv4.Valid() && ipv6.Valid()
    requires ipv4.Cfg().Valid() && ipv4.Cfg().Found(ipv4.kernel.chains)
    requires ipv6.Cfg().Valid() && ipv6.Cfg().Found(ipv6.kernel.chains)
    modifies ipv4.kernel, ipv6.kernel
    ensures Ready(ipv4, Cleared(ipv4.Cfg(), old(ipv4.kernel.chains))) &&
            Ready(ipv6, Cleared(ipv6.Cfg(), old(ipv6.kernel.chains)))
    ensures Isolates(Netfilter.ChainOf(ipv4).rules, true, "br-taramail", [6379])
    ensures Isolates(Netfilter.ChainOf(ipv6).rules, false, "", [])
  {
    StartOne(ipv4, true, "br-taramail", [6379]);
    StartOne(ipv6, false, "", []);
  }

  /** What the service needs of the rules it finds: named chains, and a name of its own for the mail chain. */
  ghost predicate Startable(chains: Chains, name: string) {
    && name != "" && (forall i :: 0 <= i < |chains| ==> chains[i].name != "")
    && (forall i :: 0 <= i < |chains| && (Candidate(chains[i], "input") || Candidate(chains[i], "forward")) ==>
       chains[i].name != name)
  }

  /** The base chains `init_chains` chooses in these rules, as a configuration. */
  ghost predicate IsConfigOf(cfg: Config, chains: Chains, name: string, comment: string) {
    && cfg.name == name && cfg.comment == comment
    && IsBaseChain(chains, "input", cfg.input) && IsBaseChain(chains, "forward", cfg.forward)
  }

  lemma ChosenIsSound(cfg: Config, chains: Chains, name: string, comment: string)
    requires UniqueNames(chains) && Startable(chains, name) && IsConfigOf(cfg, chains, name, comment)
    ensures cfg.Valid() && cfg.Found(chains)
  {
    BaseChainsAreFound(chains, cfg);
    if cfg.input != "" {
      ChosenIsCandidate(chains, "input", cfg.input);
    }
    if cfg.forward != "" {
      ChosenIsCandidate(chains, "forward", cfg.forward);
    }
  }

  lemma ChosenIsCandidate(chains: Chains, hook: string, n: string)
    requires IsBaseChain(chains, hook, n) && n != ""
    ensures exists i :: 0 <= i < |chains| && Candidate(chains[i], hook) && chains[i].name == n
  {
  }

  /** The tables of one family, with their base chains found. */
  method Prepare(kernel: Kernel, name: string, comment: string) returns (tables: NetfilterTables)
    requires kernel.Valid() && Startable(kernel.chains, name)
    ensures fresh(tables) && tables.kernel == kernel && tables.Valid()
    ensures IsConfigOf(tables.Cfg(), kernel.chains, name, comment) && tables.Cfg().Valid() &&
            tables.Cfg().Found(kernel.chains)
  {
    tables := new NetfilterTables(kernel, name, comment);
    tables.InitChains();
    ChosenIsSound(tables.Cfg(), kernel.chains, name, comment);
  }

  /** Start-up of both families over whatever rules the kernels hold, and the service object over them. */
  method Boot(lib: IpLib, kernel4: Kernel, kernel6: Kernel, name: string, comment: string) returns (n: Netfilter)
    requires lib.Sound() && kernel4 != kernel6 && kernel4.Valid() && kernel6.Valid()
    requires Startable(kernel4.chains, name) && Startable(kernel6.chains, name)
    modifies kernel4, kernel6
    ensures fresh(n) && fresh(n.ipv4) && fresh(n.ipv6) && n.ipv4.kernel == kernel4 && n.ipv6.kernel == kernel6 &&
            n.lib == lib
    ensures n.Valid() && IsStart(n.View()) && OneIsolation(n.View())
    ensures IsConfigOf(n.ipv4.Cfg(), old(kernel4.chains), name, comment) && n.ipv4.Cfg().Valid()
    ensures IsConfigOf(n.ipv6.Cfg(), old(kernel6.chains), name, comment) && n.ipv6.Cfg().Valid()
    ensures Netfilter.InstalledOver(n.ipv4, Cleared(n.ipv4.Cfg(), old(kernel4.chains)))
    ensures Netfilter.InstalledOver(n.ipv6, Cleared(n.ipv6.Cfg(), old(kernel6.chains)))
  {
    var ipv4 := Prepare(kernel4, name, comment);
    var ipv6 := Prepare(kernel6, name, comment);
    StartBoth(ipv4, ipv6);
    n := new Netfilter(lib, ipv4, ipv6);
  }

  /** Start-up over whatever rules the kernels hold, and requests until one stops the service. */
  method Work(lib: IpLib, kernel4: Kernel, kernel6: Kernel, name: string, comment: string, requests: seq<Request>)
    returns (stopped: bool, n: Netfilter, ghost base4: Chains, ghost base6: Chains)
    requires lib.Sound() && kernel4 != kernel6 && kernel4.Valid() && kernel6.Valid()
    requires Startable(kernel4.chains, name) && Startable(kernel6.chains, name)
    modifies kernel4, kernel6
    ensures fresh(n) && fresh(n.ipv4) && fresh(n.ipv6) && n.ipv4.kernel == kernel4 && n.ipv6.kernel == kernel6
    ensures n.Valid() && Netfilter.InstalledOver(n.ipv4, base4) && Netfilter.InstalledOver(n.ipv6, base6)
    ensures base4 == Cleared(n.ipv4.Cfg(), old(kernel4.chains)) && base6 == Cleared(n.ipv6.Cfg(), old(kernel6.chains))
    ensures IsConfigOf(n.ipv4.Cfg(), old(kernel4.chains), name, comment) && n.ipv4.Cfg().Valid()
    ensures IsConfigOf(n.ipv6.Cfg(), old(kernel6.chains), name, comment) && n.ipv6.Cfg().Valid()
    ensures OneIsolation(n.View()) && stopped == AnyStops(lib, requests)
  {
    ghost var chains4, chains6 := kernel4.chains, kernel6.chains;
    n := Boot(lib, kernel4, kernel6, name, comment);
    base4, base6 := Cleared(n.ipv4.Cfg(), chains4), Cleared(n.ipv6.Cfg(), chains6);
    ghost var events;
    stopped, events := ServeFresh(n, requests, base4, base6);
  }

  /** The life of the service, from whatever rules the kernels hold: start-up, requests until one stops it or SIGTERM
      arrives, exit. Ended by SIGTERM it leaves the cleared rules, which are the rules found if no trace of the mail
      tables was there; otherwise the tables stay installed over them, and the port closed. */
  method Live(lib: IpLib, kernel4: Kernel, kernel6: Kernel, name: string, comment: string, requests: seq<Request>,
         sigterm: bool)
    returns (exitCode: int, n: Netfilter)
    requires lib.Sound() && kernel4 != kernel6 && kernel4.Valid() && kernel6.Valid()
    requires Startable(kernel4.chains, name) && Startable(kernel6.chains, name)
    modifies kernel4, kernel6
    ensures exitCode == if AnyStops(lib, requests) then 2 else 0
    ensures n.ipv4.kernel == kernel4 && Leaves(n.ipv4, old(kernel4.chains), name, comment, sigterm)
    ensures n.ipv6.kernel == kernel6 && Leaves(n.ipv6, old(kernel6.chains), name, comment, sigterm)
    ensures !sigterm ==> OneIsolation(n.View())
  {
    ghost var chains4, chains6 := kernel4.chains, kernel6.chains;
    var stopped;
    ghost var base4, base6;
    stopped, n, base4, base6 := Work(lib, kernel4, kernel6, name, comment, requests);
    exitCode := if stopped then 2 else 0;
    if sigterm {
      n.Clear(base4, base6);
    }
    ClearIfClean(n.ipv4.Cfg(), chains4);
    ClearIfClean(n.ipv6.Cfg(), chains6);
  }

  /** What the service leaves of the rules it found. */
  ghost predicate Leaves(tables: NetfilterTables, found: Chains, name: string, comment: string, sigterm: bool)
    reads tables, tables.kernel
  {
    var cfg := tables.Cfg();
    && IsConfigOf(cfg, found, name, comment)
    && (sigterm ==> tables.kernel.chains == Cleared(cfg, found))
    && (sigterm && Clean(cfg, found) ==> tables.kernel.chains == found)
    && (!sigterm ==> Netfilter.InstalledOver(tables, Cleared(cfg, found)))
  }

  lemma ClearIfClean(cfg: Config, chains: Chains)
    requires cfg.Valid() && UniqueNames(chains)
    ensures Clean(cfg, chains) ==> Cleared(cfg, chains) == chains
  {
    if Clean(cfg, chains) {
      ClearOfClean(cfg, chains);
    }
  }
}
