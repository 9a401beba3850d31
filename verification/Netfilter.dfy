/** The netfilter service object: its fields and its two tables are updated in place, step by step as the fail2ban
    machine says. */
module Netfilter {
  import opened Text
  import opened Nftables
  import opened NetfilterTables
  import opened Fail2ban
  import opened Fail2banSafety
  import opened Fail2banPurge

  class Netfilter {
    const lib: IpLib
    const ipv4: NetfilterTables
    const ipv6: NetfilterTables
    var bans: map<string, Ban>
    var blacklist: set<string>
    var whitelist: set<string>
    var active: map<string, int>
    var queue: set<string>
    ghost var log: seq<Entry>

    /** Both tables are started, and their mail chains hold mail rules only. */
    ghost predicate Valid()
      reads this, ipv4, ipv6, ipv4.kernel, ipv6.kernel
    {
      && ipv4.kernel != ipv6.kernel && ipv4.Valid() && ipv6.Valid()
      && HasChain(ipv4.kernel.chains, ipv4.name) && HasChain(ipv6.kernel.chains, ipv6.name)
      && Healthy(lib, View())
    }

    constructor (lib: IpLib, ipv4: NetfilterTables, ipv6: NetfilterTables)
      requires lib.Sound() && ipv4.kernel != ipv6.kernel && ipv4.Valid() && ipv6.Valid()
      requires HasChain(ipv4.kernel.chains, ipv4.name) && HasChain(ipv6.kernel.chains, ipv6.name)
      requires forall i :: 0 <= i < |ChainOf(ipv4).rules| ==> ChainOf(ipv4).rules[i].body.Isolation?
      requires forall i :: 0 <= i < |ChainOf(ipv6).rules| ==> ChainOf(ipv6).rules[i].body.Isolation?
      ensures Valid() && IsStart(View())
      ensures this.lib == lib && this.ipv4 == ipv4 && this.ipv6 == ipv6
    {
      this.lib, this.ipv4, this.ipv6 := lib, ipv4, ipv6;
      bans, blacklist, whitelist, active, queue, log := map[], {}, {}, map[], {}, [];
    }

    ghost function View(): State
      reads this, ipv4, ipv6, ipv4.kernel, ipv6.kernel
    {
      State(bans, blacklist, whitelist, active, queue, ChainOf(ipv4), ChainOf(ipv6), log)
    }

    static ghost function ChainOf(tables: NetfilterTables): Table
      reads tables, tables.kernel
    {
      Table(RulesOf(tables.kernel.chains, tables.name), tables.kernel.next)
    }

    /** The kernels differ from before in nothing but the mail chains. */
    twostate predicate OnlyMail()
      reads this, ipv4, ipv6, ipv4.kernel, ipv6.kernel
    {
      && OnlyMailChanged(ipv4.Cfg(), old(ipv4.kernel.chains), ipv4.kernel.chains)
      && OnlyMailChanged(ipv6.Cfg(), old(ipv6.kernel.chains), ipv6.kernel.chains)
    }

    method TableBan(v6: bool, net: Network)
      requires Valid()
      modifies ipv4.kernel, ipv6.kernel
      ensures View() == old(View()).WithTable(v6, old(View()).TableOf(v6).Banned(net))
      ensures Valid() && OnlyMail()
    {
      BannedCounts(View().TableOf(v6), net, net);
      SetSame(ipv4.kernel.chains, ipv4.name);
      SetSame(ipv6.kernel.chains, ipv6.name);
      if v6 {
        ipv6.Ban(net);
        SetThenRules(old(ipv6.kernel.chains), ipv6.name, old(ChainOf(ipv6)).Banned(net).rules);
      } else {
        ipv4.Ban(net);
        SetThenRules(old(ipv4.kernel.chains), ipv4.name, old(ChainOf(ipv4)).Banned(net).rules);
      }
    }

    /** Never raises here: a healthy mail chain can always be searched. */
    method TableUnban(v6: bool, net: Network)
      requires Valid()
      modifies ipv4.kernel, ipv6.kernel
      ensures View() == old(View()).WithTable(v6, old(View()).TableOf(v6).Unbanned(net))
      ensures Valid() && OnlyMail()
    {
      UnbannedCounts(View().TableOf(v6), net, net);
      WithoutFirstCounts(View().TableOf(v6).rules, net, net);
      SetSame(ipv4.kernel.chains, ipv4.name);
      SetSame(ipv6.kernel.chains, ipv6.name);
      var raised;
      if v6 {
        raised := ipv6.Unban(net);
        SetThenRules(old(ipv6.kernel.chains), ipv6.name, old(ChainOf(ipv6)).Unbanned(net).rules);
      } else {
        raised := ipv4.Unban(net);
        SetThenRules(old(ipv4.kernel.chains), ipv4.name, old(ChainOf(ipv4)).Unbanned(net).rules);
      }
    }

    method IsWhitelisted(a: Address) returns (found: bool)
      ensures found == Whitelisted(lib, whitelist, a)
    {
      found := false;
      var left := whitelist;
      while left != {}
        invariant left <= whitelist
        invariant !exists w :: w in whitelist - left && Overlaps(lib.parse(w), HostNet(a))
      {
        var w :| w in left;
        if Overlaps(lib.parse(w), HostNet(a)) {
          return true;
        }
        left := left - {w};
      }
    }

    /** Counts one attempt on a network: a stale streak starts over. */
    method CountAttempt(net: string, now: real)
      modifies `bans, `log
      ensures bans == old(bans)[net := Counted(old(bans), net, now)]
      ensures log == old(log) + [Attempted(net, now)]
    {
      if net !in bans {
        bans := bans[net := Ban(0, 0.0, 0)];
      }
      if now - bans[net].lastAttempt > RETRY_WINDOW {
        bans := bans[net := bans[net].(attempts := 0)];
      }
      bans := bans[net := bans[net].(attempts := bans[net].attempts + 1, lastAttempt := now)];
      log := log + [Attempted(net, now)];
    }

    /** One failed login from an address; `now` and `now2` are the two clock readings. */
    method BanAddress(address: string, now: real, now2: real) returns (raised: bool)
      requires Valid()
      modifies this, ipv4.kernel, ipv6.kernel
      ensures raised == lib.getIp(address).Malformed?
      ensures View() == if lib.getIp(address).Routable?
                        then AttemptStep(lib, old(View()), lib.getIp(address).address, now, now2) else old(View())
      ensures Valid() && OnlyMail()
    {
      Unchanged();
      var ip := lib.getIp(address);
      raised := ip.Malformed?;
      if !ip.Routable? {
        return;
      }
      var a := ip.address;
      var whitelisted := IsWhitelisted(a);
      if whitelisted {
        return;
      }
      CountAttempt(lib.hostKey(a), now);
      KeyAdded(old(View()), View(), lib.hostKey(a), a);
      PunishIfDue(a, now2);
    }

    method PunishIfDue(a: Address, now2: real)
      requires Valid()
      modifies `active, ipv4.kernel, ipv6.kernel
      ensures View() == Punish(lib, old(View()), a, now2)
      ensures Valid() && OnlyMail()
    {
      Unchanged();
      var net := lib.hostKey(a);
      if net in bans && bans[net].attempts >= MAX_ATTEMPTS {
        var curTime := Round(now2);
        var netBanTime := NetBanTime(bans[net].counter);
        TableBan(a.v6, lib.parse(net));
        active := active[net := curTime + netBanTime];
      }
    }

    lemma KeyAdded(before: State, after: State, net: string, a: Address)
      requires Healthy(lib, before) && net == lib.hostKey(a) && after.bans.Keys == before.bans.Keys + {net}
      requires after.table4 == before.table4 && after.table6 == before.table6
      ensures Healthy(lib, after)
    {
      assert Canonical(lib, net);
    }

    /** Kernels that have not been touched differ in nothing. */
    twostate lemma Unchanged()
      requires Valid() && ipv4.kernel.chains == old(ipv4.kernel.chains) && ipv6.kernel.chains == old(ipv6.kernel.chains)
      ensures OnlyMail()
    {
      SetSame(ipv4.kernel.chains, ipv4.name);
      SetSame(ipv6.kernel.chains, ipv6.name);
    }

    method UnbanNet(net: string)
      requires Valid()
      modifies this, ipv4.kernel, ipv6.kernel
      ensures View() == UnbanStep(lib, old(View()), net)
      ensures Valid() && OnlyMail()
    {
      Unchanged();
      if net !in bans {
        queue := queue - {net};
        return;
      }
      TableUnban(lib.parse(net).v6, lib.parse(net));
      MarkLifted(net);
    }

    method MarkLifted(net: string)
      requires Valid() && net in bans
      modifies `active, `queue, `bans, `log
      ensures Valid()
      ensures View() == old(View()).(active := old(active) - {net}, queue := old(queue) - {net},
                          bans := old(bans)[net := Lifted1(old(bans)[net])], log := old(log) + [Lifted(net)])
    {
      active := active - {net};
      queue := queue - {net};
      bans := bans[net := bans[net].(attempts := 0, counter := bans[net].counter + 1)];
      log := log + [Lifted(net)];
      KeysSame(old(View()), View());
    }

    lemma KeysSame(before: State, after: State)
      requires Healthy(lib, before) && after.bans.Keys == before.bans.Keys
      requires after.table4 == before.table4 && after.table6 == before.table6
      ensures Healthy(lib, after)
    {
    }

    method PermBanEntry(net: string, unban: bool)
      requires Valid()
      modifies this, ipv4.kernel, ipv6.kernel
      ensures View() == PermBan(lib, old(View()), net, unban)
      ensures Valid() && OnlyMail()
    {
      var network := lib.parse(net);
      if unban {
        TableUnban(network.v6, network);
      } else {
        TableBan(network.v6, network);
      }
      log := log + [if unban then Unlisted(net) else Listed(net)];
    }

    method UnbanEach(nets: seq<string>)
      requires Valid()
      modifies this, ipv4.kernel, ipv6.kernel
      ensures View() == UnbanAll(lib, old(View()), nets)
      ensures Valid() && OnlyMail()
    {
      Unchanged();
      assert nets[0..] == nets;
      for i := 0 to |nets|
        invariant Valid() && OnlyMail()
        invariant UnbanAll(lib, View(), nets[i..]) == UnbanAll(lib, old(View()), nets)
      {
        ghost var chains4, chains6 := ipv4.kernel.chains, ipv6.kernel.chains;
        assert nets[i..][1..] == nets[i + 1..];
        UnbanNet(nets[i]);
        OnlyMailAgain(ipv4.Cfg(), old(ipv4.kernel.chains), chains4, ipv4.kernel.chains);
        OnlyMailAgain(ipv6.Cfg(), old(ipv6.kernel.chains), chains6, ipv6.kernel.chains);
      }
    }

    lemma OnlyMailAgain(cfg: Config, a: Chains, b: Chains, c: Chains)
      requires OnlyMailChanged(cfg, a, b) && OnlyMailChanged(cfg, b, c)
      ensures OnlyMailChanged(cfg, a, c)
    {
      SetSet(a, cfg.name, RulesOf(b, cfg.name), RulesOf(c, cfg.name));
    }

    /** Lifts the bans that have run out; `clock` gives the reading taken at each network. */
    method PurgeEach(nets: seq<string>, clock: string -> real)
      requires Valid() && forall i :: 0 <= i < |nets| ==> nets[i] in bans
      modifies this, ipv4.kernel, ipv6.kernel
      ensures View() == PurgeAll(lib, old(View()), nets, clock)
      ensures Valid() && OnlyMail()
    {
      Unchanged();
      assert nets[0..] == nets;
      for i := 0 to |nets|
        invariant Valid() && OnlyMail() && bans.Keys == old(bans.Keys)
        invariant PurgeAll(lib, View(), nets[i..], clock) == PurgeAll(lib, old(View()), nets, clock)
      {
        var net := nets[i];
        ghost var chains4, chains6 := ipv4.kernel.chains, ipv6.kernel.chains;
        assert nets[i..][1..] == nets[i + 1..];
        if bans[net].attempts >= MAX_ATTEMPTS {
          var netBanTime := NetBanTime(bans[net].counter);
          var timeSinceLastAttempt := clock(net) - bans[net].lastAttempt;
          if timeSinceLastAttempt > netBanTime as real {
            UnbanNet(net);
            OnlyMailAgain(ipv4.Cfg(), old(ipv4.kernel.chains), chains4, ipv4.kernel.chains);
            OnlyMailAgain(ipv6.Cfg(), old(ipv6.kernel.chains), chains6, ipv6.kernel.chains);
          }
        }
      }
    }

    /** Unbans what the queue asks for, then what has run out. The orders of iteration are returned. */
    method Autopurge(clock: string -> real) returns (ghost queued: seq<string>, ghost keys: seq<string>)
      requires Valid()
      modifies this, ipv4.kernel, ipv6.kernel
      ensures Possible(old(View()), Event.Autopurge(queued, keys, clock))
      ensures View() == AutopurgeStep(lib, old(View()), queued, keys, clock)
      ensures Valid() && OnlyMail()
    {
      var queueUnban := ListSet(queue);
      UnbanEach(queueUnban);
      UnbanAllFrame(lib, old(View()), queueUnban);
      ghost var chains4, chains6 := ipv4.kernel.chains, ipv6.kernel.chains;
      var nets := ListSet(bans.Keys);
      PurgeEach(nets, clock);
      OnlyMailAgain(ipv4.Cfg(), old(ipv4.kernel.chains), chains4, ipv4.kernel.chains);
      OnlyMailAgain(ipv6.Cfg(), old(ipv6.kernel.chains), chains6, ipv6.kernel.chains);
      queued, keys := queueUnban, nets;
    }

    method PermBanEach(nets: seq<string>, unban: bool)
      requires Valid()
      modifies this, ipv4.kernel, ipv6.kernel
      ensures View() == PermBanAll(lib, old(View()), nets, unban)
      ensures Valid() && OnlyMail()
    {
      Unchanged();
      assert nets[0..] == nets;
      for i := 0 to |nets|
        invariant Valid() && OnlyMail()
        invariant PermBanAll(lib, View(), nets[i..], unban) == PermBanAll(lib, old(View()), nets, unban)
      {
        ghost var chains4, chains6 := ipv4.kernel.chains, ipv6.kernel.chains;
        assert nets[i..][1..] == nets[i + 1..];
        PermBanEntry(nets[i], unban);
        OnlyMailAgain(ipv4.Cfg(), old(ipv4.kernel.chains), chains4, ipv4.kernel.chains);
        OnlyMailAgain(ipv6.Cfg(), old(ipv6.kernel.chains), chains6, ipv6.kernel.chains);
      }
    }

    /** Moves to a new resolved blacklist: bans what was added, unbans what was removed, nothing when it is the same. */
    method UpdateBlacklist(newBlacklist: set<string>) returns (ghost added: seq<string>, ghost removed: seq<string>)
      requires Valid()
      modifies this, ipv4.kernel, ipv6.kernel
      ensures Possible(old(View()), Event.Blacklist(newBlacklist, added, removed))
      ensures View() == BlacklistStep(lib, old(View()), newBlacklist, added, removed)
      ensures Valid() && OnlyMail()
    {
      Unchanged();
      added, removed := [], [];
      if newBlacklist == blacklist {
        return;
      }
      var addban := ListSet(newBlacklist - blacklist);
      var delban := ListSet(blacklist - newBlacklist);
      blacklist := newBlacklist;
      PermBanEach(addban, false);
      ghost var chains4, chains6 := ipv4.kernel.chains, ipv6.kernel.chains;
      PermBanEach(delban, true);
      OnlyMailAgain(ipv4.Cfg(), old(ipv4.kernel.chains), chains4, ipv4.kernel.chains);
      OnlyMailAgain(ipv6.Cfg(), old(ipv6.kernel.chains), chains6, ipv6.kernel.chains);
      added, removed := addban, delban;
    }

    method UpdateWhitelist(newWhitelist: set<string>)
      requires Valid()
      modifies `whitelist
      ensures Valid() && View() == old(View()).(whitelist := newWhitelist)
    {
      if newWhitelist != whitelist {
        whitelist := newWhitelist;
      }
    }

    /** Shutdown: lifts every ban, then removes the mail tables. If the tables were installed over clean base chains,
        exactly those base chains are left. */
    method Clear(ghost base4: Chains, ghost base6: Chains)
      requires Valid() && InstalledOver(ipv4, base4) && InstalledOver(ipv6, base6)
      modifies this, ipv4.kernel, ipv6.kernel
      ensures ipv4.kernel.chains == base4 && ipv6.kernel.chains == base6
      ensures active == map[] && bans.Keys == old(bans.Keys)
      ensures forall net :: net in bans ==> bans[net] == Lifted1(old(bans)[net])
    {
      LiftAll(base4, base6);
      InstalledClears(ipv4, base4);
      InstalledClears(ipv6, base6);
      ClearTables();
      active := map[];
    }

    method LiftAll(ghost base4: Chains, ghost base6: Chains)
      requires Valid() && InstalledOver(ipv4, base4) && InstalledOver(ipv6, base6)
      modifies this, ipv4.kernel, ipv6.kernel
      ensures Valid() && InstalledOver(ipv4, base4) && InstalledOver(ipv6, base6)
      ensures bans.Keys == old(bans.Keys) && forall net :: net in bans ==> bans[net] == Lifted1(old(bans)[net])
    {
      var nets := ListSet(bans.Keys);
      UnbanEach(nets);
      AllLifted(old(View()), nets);
      InstalledStays(old(ipv4.kernel.chains), ipv4, base4);
      InstalledStays(old(ipv6.kernel.chains), ipv6, base6);
    }

    lemma InstalledClears(tables: NetfilterTables, base: Chains)
      requires InstalledOver(tables, base)
      ensures Cleared(tables.Cfg(), tables.kernel.chains) == base
    {
      var h1, h2, mail :| Installed(tables.Cfg(), base, tables.kernel.chains, h1, h2, mail);
      ClearUninstalls(tables.Cfg(), base, tables.kernel.chains, h1, h2, mail);
    }

    lemma AllLifted(st: State, nets: seq<string>)
      requires Lists(nets, st.bans.Keys)
      ensures UnbanAll(lib, st, nets).bans.Keys == st.bans.Keys
      ensures forall net :: net in st.bans ==> UnbanAll(lib, st, nets).bans[net] == Lifted1(st.bans[net])
    {
      UnbanAllFrame(lib, st, nets);
      forall net | net in st.bans ensures UnbanAll(lib, st, nets).bans[net] == Lifted1(st.bans[net]) {
        UnbanAllOnce(lib, st, nets, net);
      }
    }

    method ClearTables()
      requires ipv4.kernel != ipv6.kernel && ipv4.Valid() && ipv6.Valid()
      modifies ipv4.kernel, ipv6.kernel
      ensures ipv4.kernel.chains == Cleared(ipv4.Cfg(), old(ipv4.kernel.chains))
      ensures ipv6.kernel.chains == Cleared(ipv6.Cfg(), old(ipv6.kernel.chains))
    {
      ipv4.Clear();
      ipv6.Clear();
    }

    /** The tables are what start-up makes of clean base chains, but for the rules of the mail chain. */
    static ghost predicate InstalledOver(tables: NetfilterTables, base: Chains)
      reads tables, tables.kernel
    {
      var cfg := tables.Cfg();
      && cfg.Valid() && cfg.Found(base) && Clean(cfg, base) && UniqueNames(base)
      && exists h1, h2, mail :: Installed(cfg, base, tables.kernel.chains, h1, h2, mail)
    }

    lemma InstalledStays(before: Chains, tables: NetfilterTables, base: Chains)
      requires var cfg := tables.Cfg();
               && cfg.Valid() && cfg.Found(base) && Clean(cfg, base) && UniqueNames(base)
               && (exists h1, h2, mail :: Installed(cfg, base, before, h1, h2, mail))
               && OnlyMailChanged(cfg, before, tables.kernel.chains)
      ensures InstalledOver(tables, base) && Cleared(tables.Cfg(), tables.kernel.chains) == base
    {
      var cfg := tables.Cfg();
      var h1, h2, mail :| Installed(cfg, base, before, h1, h2, mail);
      StaysInstalled(cfg, base, before, tables.kernel.chains, h1, h2, mail);
      ClearUninstalls(cfg, base, tables.kernel.chains, h1, h2, mail.(rules := RulesOf(tables.kernel.chains, cfg.name)));
    }

    /** The periodic check: it never raises while the tables are installed. */
    method ChainOrder(ghost base4: Chains, ghost base6: Chains) returns (raised: bool)
      requires InstalledOver(ipv4, base4) && InstalledOver(ipv6, base6)
      ensures !raised
    {
      JumpsAreFirst(ipv4, base4);
      JumpsAreFirst(ipv6, base6);
      raised := ipv4.CheckChainOrder();
      if !raised {
        raised := ipv6.CheckChainOrder();
      }
    }

    lemma JumpsAreFirst(tables: NetfilterTables, base: Chains)
      requires InstalledOver(tables, base)
      ensures tables.input != "" ==> CommentPosition(RulesOf(tables.kernel.chains, tables.input), tables.comment) == 0
      ensures tables.forward != "" ==>
                CommentPosition(RulesOf(tables.kernel.chains, tables.forward), tables.comment) == 0
    {
      var h1, h2, mail :| Installed(tables.Cfg(), base, tables.kernel.chains, h1, h2, mail);
      InstalledJumpsFirst(tables.Cfg(), base, tables.kernel.chains, h1, h2, mail);
    }

    /** Start-up of one family, over whatever rules the kernel holds: clear, install, isolate. */
    static method Start(tables: NetfilterTables, isolate: bool, interface: string, dports: seq<int>)
      requires tables.Valid() && tables.Cfg().Valid() && tables.Cfg().Found(tables.kernel.chains)
      modifies tables.kernel
      ensures tables.Valid() && HasChain(tables.kernel.chains, tables.name)
      ensures InstalledOver(tables, Cleared(tables.Cfg(), old(tables.kernel.chains)))
      ensures |RulesOf(tables.kernel.chains, tables.name)| == if isolate then 1 else 0
      ensures isolate ==> RulesOf(tables.kernel.chains, tables.name)[0].body == Isolation(interface, dports)
    {
      Install(tables);
      if isolate {
        Isolate(tables, interface, dports, Cleared(tables.Cfg(), old(tables.kernel.chains)));
      }
    }

    static method Install(tables: NetfilterTables)
      requires tables.Valid() && tables.Cfg().Valid() && tables.Cfg().Found(tables.kernel.chains)
      modifies tables.kernel
      ensures tables.Valid() && HasChain(tables.kernel.chains, tables.name)
      ensures InstalledOver(tables, Cleared(tables.Cfg(), old(tables.kernel.chains)))
      ensures RulesOf(tables.kernel.chains, tables.name) == []
    {
      ghost var cfg := tables.Cfg();
      ClearCleans(cfg, tables.kernel.chains);
      tables.Clear();
      ghost var base := tables.kernel.chains;
      ghost var h0, h1, h2 := tables.InsertMailChains();
      StartupInstalls(cfg, base, h0, h1, h2);
      InstalledMail(cfg, base, tables.kernel.chains, h1, h2, MailChain(cfg, h0, []));
    }

    static method Isolate(tables: NetfilterTables, interface: string, dports: seq<int>, ghost base: Chains)
      requires tables.Valid() && HasChain(tables.kernel.chains, tables.name) && InstalledOver(tables, base)
      requires RulesOf(tables.kernel.chains, tables.name) == []
      modifies tables.kernel
      ensures tables.Valid() && HasChain(tables.kernel.chains, tables.name) && InstalledOver(tables, base)
      ensures |RulesOf(tables.kernel.chains, tables.name)| == 1
      ensures RulesOf(tables.kernel.chains, tables.name)[0].body == Isolation(interface, dports)
    {
      ghost var cfg := tables.Cfg();
      ghost var started := tables.kernel.chains;
      ghost var next := tables.kernel.next;
      ghost var h1, h2, mail :| Installed(cfg, base, started, h1, h2, mail);
      SetThenRules(started, cfg.name, Isolated([], next, interface, dports));
      tables.CreateIsolationRule(interface, dports);
      StaysInstalled(cfg, base, started, tables.kernel.chains, h1, h2, mail);
    }

    static lemma InstalledMail(cfg: Config, base: Chains, chains: Chains, h1: nat, h2: nat, mail: Chain)
      requires !HasChain(base, cfg.name) && Installed(cfg, base, chains, h1, h2, mail)
      ensures HasChain(chains, cfg.name) && RulesOf(chains, cfg.name) == mail.rules
    {
      var hooked1 := Hooked(cfg, base, cfg.input, h1);
      var hooked := Hooked(cfg, hooked1, cfg.forward, h2);
      HookedKeepsChains(cfg, base, cfg.input, h1, cfg.name);
      HookedKeepsChains(cfg, hooked1, cfg.forward, h2, cfg.name);
      RulesOfAppend(hooked, mail, cfg.name);
      assert chains[|hooked|].Is(cfg.name);
    }
  }
}
