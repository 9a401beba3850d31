/** What every run of the fail2ban machine keeps in the kernel's mail chains: bans are enforced, the blacklist is
    represented entry for entry, and the isolation rules stay. */
module Fail2banSafety {
  import opened Text
  import opened Nftables
  import opened Fail2ban

  /** Every ban record is keyed by the text of a host network. */
  ghost predicate CanonicalKeys(lib: IpLib, st: State) {
    forall k :: k in st.bans ==> Canonical(lib, k)
  }

  ghost predicate Canonical(lib: IpLib, key: string) {
    exists a :: key == lib.hostKey(a)
  }

  /** The mail chains hold only isolation and drop rules, so deleting a drop rule never raises. */
  ghost predicate Healthy(lib: IpLib, st: State) {
    lib.Sound() && CanonicalKeys(lib, st) && OnlyMailRules(st.table4.rules) && OnlyMailRules(st.table6.rules)
  }

  lemma DistinctKeysDistinctNets(lib: IpLib, k1: string, k2: string)
    requires lib.Sound() && Canonical(lib, k1) && Canonical(lib, k2)
    ensures lib.parse(k1) == lib.parse(k2) ==> k1 == k2
  {
    var a :| k1 == lib.hostKey(a);
    var b :| k2 == lib.hostKey(b);
    assert lib.parse(k1) == HostNet(a) && lib.parse(k2) == HostNet(b);
  }

  // ---- rule counts under the table operations ----

  lemma BannedCounts(t: Table, banned: Network, net: Network)
    requires OnlyMailRules(t.rules)
    ensures OnlyMailRules(t.Banned(banned).rules)
    ensures DropCount(t.Banned(banned).rules, net) == DropCount(t.rules, net) + if banned == net then 1 else 0
    ensures Isolations(t.Banned(banned).rules) == Isolations(t.rules)
  {
    var r := t.Banned(banned).rules;
    assert r[1..] == t.rules;
    forall i | 0 <= i < |r| ensures r[i].body.Isolation? || r[i].body.Drop? {
      if i > 0 {
        assert r[i] == t.rules[i - 1];
      }
    }
  }

  function Less(n: nat): nat { if n == 0 then 0 else n - 1 }

  lemma UnbannedCounts(t: Table, unbanned: Network, net: Network)
    requires OnlyMailRules(t.rules)
    ensures OnlyMailRules(t.Unbanned(unbanned).rules)
    ensures DropCount(t.Unbanned(unbanned).rules, net) ==
            if unbanned == net then Less(DropCount(t.rules, net)) else DropCount(t.rules, net)
    ensures Isolations(t.Unbanned(unbanned).rules) == Isolations(t.rules)
  {
    WithoutFirstCounts(t.rules, unbanned, net);
  }

  lemma UnbanEffect(lib: IpLib, st: State, key: string, net: Network)
    requires Healthy(lib, st)
    ensures Healthy(lib, UnbanStep(lib, st, key))
    ensures UnbanStep(lib, st, key).Drops(net) ==
            if key in st.bans && lib.parse(key) == net then Less(st.Drops(net)) else st.Drops(net)
    ensures SameIsolation(st, UnbanStep(lib, st, key))
  {
    if key in st.bans {
      var n := lib.parse(key);
      UnbannedCounts(st.TableOf(n.v6), n, net);
    }
  }

  lemma AttemptEffect(lib: IpLib, st: State, a: Address, now: real, now2: real, net: Network)
    requires Healthy(lib, st)
    ensures var after := AttemptStep(lib, st, a, now, now2);
            && Healthy(lib, after) && SameIsolation(st, after)
            && after.Drops(net) == st.Drops(net) + if AddsRule(lib, st, a, now) && HostNet(a) == net then 1 else 0
  {
    assert lib.parse(lib.hostKey(a)) == HostNet(a);
    assert Canonical(lib, lib.hostKey(a));
    BannedCounts(st.TableOf(a.v6), HostNet(a), net);
  }

  predicate AddsRule(lib: IpLib, st: State, a: Address, now: real) {
    !Whitelisted(lib, st.whitelist, a) && Counted(st.bans, lib.hostKey(a), now).attempts >= MAX_ATTEMPTS
  }

  lemma PermBanEffect(lib: IpLib, st: State, entry: string, unban: bool, net: Network)
    requires Healthy(lib, st)
    ensures Healthy(lib, PermBan(lib, st, entry, unban)) && SameIsolation(st, PermBan(lib, st, entry, unban))
    ensures PermBan(lib, st, entry, unban).Drops(net) ==
            if lib.parse(entry) != net then st.Drops(net) else if unban then Less(st.Drops(net)) else st.Drops(net) + 1
  {
    var n := lib.parse(entry);
    if unban {
      UnbannedCounts(st.TableOf(n.v6), n, net);
    } else {
      BannedCounts(st.TableOf(n.v6), n, net);
    }
  }

  /** The isolation rules of both tables are the same, in the same order. */
  predicate SameIsolation(before: State, after: State) {
    && Isolations(after.table4.rules) == Isolations(before.table4.rules)
    && Isolations(after.table6.rules) == Isolations(before.table6.rules)
  }

  // ---- enforcement ----

  ghost predicate Denotes(lib: IpLib, entries: set<string>, net: Network) {
    exists x :: x in entries && lib.parse(x) == net
  }

  /** A network over the threshold has its drop rules in place and is listed as banned. */
  predicate Enforced(lib: IpLib, st: State, key: string) {
    key in st.bans && st.bans[key].attempts >= MAX_ATTEMPTS ==>
      st.Drops(lib.parse(key)) >= st.bans[key].attempts - MAX_ATTEMPTS + 1 && key in st.active
  }

  lemma AttemptEnforces(lib: IpLib, st: State, a: Address, now: real, now2: real, key: string)
    requires Healthy(lib, st) && Canonical(lib, key) && Enforced(lib, st, key)
    ensures Enforced(lib, AttemptStep(lib, st, a, now, now2), key)
  {
    AttemptEffect(lib, st, a, now, now2, lib.parse(key));
    assert Canonical(lib, lib.hostKey(a)) && lib.parse(lib.hostKey(a)) == HostNet(a);
    DistinctKeysDistinctNets(lib, lib.hostKey(a), key);
  }

  lemma UnbanEnforces(lib: IpLib, st: State, unbanned: string, key: string)
    requires Healthy(lib, st) && Canonical(lib, key) && Enforced(lib, st, key)
    ensures Healthy(lib, UnbanStep(lib, st, unbanned)) && Enforced(lib, UnbanStep(lib, st, unbanned), key)
  {
    UnbanEffect(lib, st, unbanned, lib.parse(key));
    if unbanned in st.bans {
      DistinctKeysDistinctNets(lib, unbanned, key);
    }
  }

  lemma {:induction false} UnbanAllEnforces(lib: IpLib, st: State, keys: seq<string>, key: string)
    requires Healthy(lib, st) && Canonical(lib, key) && Enforced(lib, st, key)
    ensures Healthy(lib, UnbanAll(lib, st, keys)) && Enforced(lib, UnbanAll(lib, st, keys), key)
    decreases |keys|
  {
    if keys != [] {
      UnbanEnforces(lib, st, keys[0], key);
      UnbanAllEnforces(lib, UnbanStep(lib, st, keys[0]), keys[1..], key);
    }
  }

  lemma {:induction false} PurgeAllEnforces(lib: IpLib, st: State, keys: seq<string>, clock: string -> real,
        key: string)
    requires Healthy(lib, st) && Canonical(lib, key) && Enforced(lib, st, key)
    ensures Healthy(lib, PurgeAll(lib, st, keys, clock)) && Enforced(lib, PurgeAll(lib, st, keys, clock), key)
    decreases |keys|
  {
    if keys != [] {
      UnbanEnforces(lib, st, keys[0], key);
      PurgeAllEnforces(lib, PurgeOne(lib, st, keys[0], clock(keys[0])), keys[1..], clock, key);
    }
  }

  lemma {:induction false} PermBanAllEffect(lib: IpLib, st: State, entries: seq<string>, unban: bool, net: Network)
    requires Healthy(lib, st)
    ensures Healthy(lib, PermBanAll(lib, st, entries, unban)) && SameIsolation(st, PermBanAll(lib, st, entries, unban))
    ensures !unban ==> PermBanAll(lib, st, entries, unban).Drops(net) == st.Drops(net) + CountIn(lib, entries, net)
    ensures unban && CountIn(lib, entries, net) <= st.Drops(net) ==>
              PermBanAll(lib, st, entries, unban).Drops(net) == st.Drops(net) - CountIn(lib, entries, net)
    decreases |entries|
  {
    if entries != [] {
      PermBanEffect(lib, st, entries[0], unban, net);
      PermBanAllEffect(lib, PermBan(lib, st, entries[0], unban), entries[1..], unban, net);
    }
  }

  /** Number of entries denoting a network. */
  function CountIn(lib: IpLib, entries: seq<string>, net: Network): nat {
    if entries == [] then 0 else (if lib.parse(entries[0]) == net then 1 else 0) + CountIn(lib, entries[1..], net)
  }

  lemma {:induction false} CountsNone(lib: IpLib, entries: seq<string>, s: set<string>, net: Network)
    requires !Denotes(lib, s, net) && forall x :: x in entries ==> x in s
    ensures CountIn(lib, entries, net) == 0
  {
    if entries != [] {
      assert entries[0] in entries;
      CountsNone(lib, entries[1..], s, net);
    }
  }

  lemma BlacklistEffect(lib: IpLib, st: State, e: Event, net: Network)
    requires Healthy(lib, st) && e.Blacklist?
    ensures Healthy(lib, Step(lib, st, e)) && SameIsolation(st, Step(lib, st, e))
    ensures CountIn(lib, e.removed, net) <= st.Drops(net) + CountIn(lib, e.added, net) ==>
              Step(lib, st, e).Drops(net) == st.Drops(net) + CountIn(lib, e.added, net) - CountIn(lib, e.removed, net)
  {
    var listed := st.(blacklist := e.entries);
    PermBanAllEffect(lib, listed, e.added, false, net);
    PermBanAllEffect(lib, PermBanAll(lib, listed, e.added, false), e.removed, true, net);
  }

  lemma StepEnforces(lib: IpLib, st: State, e: Event, key: string)
    requires Healthy(lib, st) && Canonical(lib, key) && Enforced(lib, st, key) && Possible(st, e)
    requires !Denotes(lib, st.blacklist, lib.parse(key))
    requires e.Blacklist? ==> !Denotes(lib, e.entries, lib.parse(key))
    ensures Healthy(lib, Step(lib, st, e)) && Enforced(lib, Step(lib, st, e), key)
  {
    match e
    case Attempt(a, now, now2) =>
      AttemptEffect(lib, st, a, now, now2, lib.parse(key));
      AttemptEnforces(lib, st, a, now, now2, key);
    case Unban(k) => UnbanEnforces(lib, st, k, key);
    case Autopurge(queued, keys, clock) =>
      UnbanAllEnforces(lib, st, queued, key);
      PurgeAllEnforces(lib, UnbanAll(lib, st, queued), keys, clock, key);
    case Blacklist(entries, added, removed) =>
      CountsNone(lib, added, entries, lib.parse(key));
      CountsNone(lib, removed, st.blacklist, lib.parse(key));
      BlacklistEffect(lib, st, e, lib.parse(key));
      BlacklistFrame(lib, st, entries, added, removed);
    case Whitelist(_) =>
    case Enqueue(_) =>
  }

  /** No blacklist in the run denotes the network. */
  ghost predicate NeverListed(lib: IpLib, events: seq<Event>, net: Network) {
    forall i :: 0 <= i < |events| && events[i].Blacklist? ==> !Denotes(lib, events[i].entries, net)
  }

  lemma StepBlacklist(lib: IpLib, st: State, e: Event)
    ensures Step(lib, st, e).blacklist == if e.Blacklist? then e.entries else st.blacklist
    ensures st.bans.Keys <= Step(lib, st, e).bans.Keys
  {
    match e
    case Autopurge(queued, keys, clock) =>
      UnbanAllFrame(lib, st, queued);
      PurgeAllFrame(lib, UnbanAll(lib, st, queued), keys, clock);
    case Blacklist(entries, added, removed) => BlacklistFrame(lib, st, entries, added, removed);
    case _ =>
  }

  lemma {:induction false} UnbanAllFrame(lib: IpLib, st: State, keys: seq<string>)
    ensures UnbanAll(lib, st, keys).blacklist == st.blacklist && UnbanAll(lib, st, keys).bans.Keys == st.bans.Keys
    decreases |keys|
  {
    if keys != [] {
      UnbanAllFrame(lib, UnbanStep(lib, st, keys[0]), keys[1..]);
    }
  }

  lemma {:induction false} PurgeAllFrame(lib: IpLib, st: State, keys: seq<string>, clock: string -> real)
    ensures PurgeAll(lib, st, keys, clock).blacklist == st.blacklist &&
            PurgeAll(lib, st, keys, clock).bans.Keys == st.bans.Keys
    decreases |keys|
  {
    if keys != [] {
      PurgeAllFrame(lib, PurgeOne(lib, st, keys[0], clock(keys[0])), keys[1..], clock);
    }
  }

  /** Enforcement in every run: a network no blacklist entry denotes, once over the threshold, has at least one drop
      rule per attempt from the threshold on, and is listed in F2B_ACTIVE_BANS. */
  lemma {:induction false} RunEnforces(lib: IpLib, st: State, events: seq<Event>, key: string)
    requires Healthy(lib, st) && Canonical(lib, key) && Enforced(lib, st, key) && PossibleRun(lib, st, events)
    requires !Denotes(lib, st.blacklist, lib.parse(key)) && NeverListed(lib, events, lib.parse(key))
    ensures Healthy(lib, Run(lib, st, events)) && Enforced(lib, Run(lib, st, events), key)
    decreases |events|
  {
    if events != [] {
      StepEnforces(lib, st, events[0], key);
      StepBlacklist(lib, st, events[0]);
      RunEnforces(lib, Step(lib, st, events[0]), events[1..], key);
    }
  }

  // ---- blacklist conservation ----

  ghost function Denoting(lib: IpLib, entries: set<string>, net: Network): set<string> {
    set x | x in entries && lib.parse(x) == net
  }

  /** The network has no ban record. */
  ghost predicate Unkeyed(lib: IpLib, st: State, net: Network) {
    forall k :: k in st.bans ==> lib.parse(k) != net
  }

  ghost predicate Conserved(lib: IpLib, st: State, net: Network) {
    Unkeyed(lib, st, net) ==> st.Drops(net) == |Denoting(lib, st.blacklist, net)|
  }

  lemma {:induction false} CountIsSize(lib: IpLib, xs: seq<string>, s: set<string>, net: Network)
    requires Lists(xs, s)
    ensures CountIn(lib, xs, net) == |Denoting(lib, s, net)|
  {
    if xs == [] {
      assert s == {};
    } else {
      var rest := s - {xs[0]};
      assert xs == [xs[0]] + xs[1..];
      forall i, j | 0 <= i < j < |xs[1..]| ensures xs[1..][i] != xs[1..][j] {
        assert xs[i + 1] != xs[j + 1];
      }
      assert forall j :: 0 < j < |xs| ==> xs[0] != xs[j];
      CountIsSize(lib, xs[1..], rest, net);
      assert xs[0] in s;
      if lib.parse(xs[0]) == net {
        assert Denoting(lib, s, net) == Denoting(lib, rest, net) + {xs[0]};
      } else {
        assert Denoting(lib, s, net) == Denoting(lib, rest, net);
      }
    }
  }

  lemma DifferenceSizes(lib: IpLib, before: set<string>, after: set<string>, net: Network)
    ensures |Denoting(lib, after, net)| ==
            |Denoting(lib, before, net)| + |Denoting(lib, after - before, net)| - |Denoting(lib, before - after, net)|
    ensures |Denoting(lib, before - after, net)| <= |Denoting(lib, before, net)|
  {
    assert Denoting(lib, after, net) == Denoting(lib, after * before, net) + Denoting(lib, after - before, net);
    assert Denoting(lib, before, net) == Denoting(lib, after * before, net) + Denoting(lib, before - after, net);
  }

  lemma {:induction false} UnbanAllUnkeyed(lib: IpLib, st: State, keys: seq<string>, net: Network)
    requires Healthy(lib, st) && Unkeyed(lib, st, net)
    ensures Healthy(lib, UnbanAll(lib, st, keys)) && Unkeyed(lib, UnbanAll(lib, st, keys), net)
    ensures UnbanAll(lib, st, keys).Drops(net) == st.Drops(net)
    decreases |keys|
  {
    if keys != [] {
      UnbanEffect(lib, st, keys[0], net);
      UnbanAllUnkeyed(lib, UnbanStep(lib, st, keys[0]), keys[1..], net);
    }
  }

  lemma {:induction false} PurgeAllUnkeyed(lib: IpLib, st: State, keys: seq<string>, clock: string -> real,
        net: Network)
    requires Healthy(lib, st) && Unkeyed(lib, st, net)
    ensures PurgeAll(lib, st, keys, clock).Drops(net) == st.Drops(net)
    decreases |keys|
  {
    if keys != [] {
      UnbanEffect(lib, st, keys[0], net);
      PurgeAllUnkeyed(lib, PurgeOne(lib, st, keys[0], clock(keys[0])), keys[1..], clock, net);
    }
  }

  lemma StepConserves(lib: IpLib, st: State, e: Event, net: Network)
    requires Healthy(lib, st) && Conserved(lib, st, net) && Possible(st, e)
    ensures Conserved(lib, Step(lib, st, e), net)
  {
    StepBlacklist(lib, st, e);
    if Unkeyed(lib, Step(lib, st, e), net) {
      assert Unkeyed(lib, st, net);
      match e
      case Attempt(a, now, now2) =>
        AttemptEffect(lib, st, a, now, now2, net);
        assert lib.parse(lib.hostKey(a)) == HostNet(a);
      case Unban(k) => UnbanEffect(lib, st, k, net);
      case Autopurge(queued, keys, clock) =>
        UnbanAllUnkeyed(lib, st, queued, net);
        PurgeAllUnkeyed(lib, UnbanAll(lib, st, queued), keys, clock, net);
      case Blacklist(entries, added, removed) =>
        CountIsSize(lib, added, entries - st.blacklist, net);
        CountIsSize(lib, removed, st.blacklist - entries, net);
        DifferenceSizes(lib, st.blacklist, entries, net);
        BlacklistEffect(lib, st, e, net);
      case Whitelist(_) =>
      case Enqueue(_) =>
    }
  }

  lemma {:induction false} UnbanAllIsolation(lib: IpLib, st: State, keys: seq<string>)
    requires Healthy(lib, st)
    ensures Healthy(lib, UnbanAll(lib, st, keys)) && SameIsolation(st, UnbanAll(lib, st, keys))
    decreases |keys|
  {
    if keys != [] {
      UnbanEffect(lib, st, keys[0], Network(false, 0, 0));
      UnbanAllIsolation(lib, UnbanStep(lib, st, keys[0]), keys[1..]);
    }
  }

  lemma {:induction false} PurgeAllIsolation(lib: IpLib, st: State, keys: seq<string>, clock: string -> real)
    requires Healthy(lib, st)
    ensures Healthy(lib, PurgeAll(lib, st, keys, clock)) && SameIsolation(st, PurgeAll(lib, st, keys, clock))
    decreases |keys|
  {
    if keys != [] {
      UnbanEffect(lib, st, keys[0], Network(false, 0, 0));
      PurgeAllIsolation(lib, PurgeOne(lib, st, keys[0], clock(keys[0])), keys[1..], clock);
    }
  }

  /** No step deletes, adds or reorders an isolation rule, and no step can be stopped by an unreadable rule. */
  lemma StepKeepsIsolation(lib: IpLib, st: State, e: Event)
    requires Healthy(lib, st)
    ensures Healthy(lib, Step(lib, st, e)) && SameIsolation(st, Step(lib, st, e))
  {
    var net := Network(false, 0, 0);
    match e
    case Attempt(a, now, now2) => AttemptEffect(lib, st, a, now, now2, net);
    case Unban(k) => UnbanEffect(lib, st, k, net);
    case Autopurge(queued, keys, clock) =>
      UnbanAllIsolation(lib, st, queued);
      PurgeAllIsolation(lib, UnbanAll(lib, st, queued), keys, clock);
    case Blacklist(_, _, _) => BlacklistEffect(lib, st, e, net);
    case Whitelist(_) =>
    case Enqueue(_) =>
  }

  /** Conservation in every run: a network without a ban record has as many drop rules as blacklist entries that
      denote it, and the isolation rules are never touched. */
  lemma {:induction false} RunConserves(lib: IpLib, st: State, events: seq<Event>, net: Network)
    requires Healthy(lib, st) && Conserved(lib, st, net) && PossibleRun(lib, st, events)
    ensures Conserved(lib, Run(lib, st, events), net)
    ensures SameIsolation(st, Run(lib, st, events))
    decreases |events|
  {
    if events != [] {
      StepConserves(lib, st, events[0], net);
      StepKeepsIsolation(lib, st, events[0]);
      RunConserves(lib, Step(lib, st, events[0]), events[1..], net);
    }
  }

  // ---- from a fresh start ----

  lemma {:induction false} OnlyIsolationsNoDrops(rules: seq<Rule>, net: Network)
    requires forall i :: 0 <= i < |rules| ==> rules[i].body.Isolation?
    ensures DropCount(rules, net) == 0
  {
    if rules != [] {
      OnlyIsolationsNoDrops(rules[1..], net);
    }
  }

  /** Everything a run keeps, in every state reached from a fresh start: faithful counters for every network; for a
      network text no blacklist ever denotes, enforcement; for a network without a ban record, conservation. */
  lemma EveryRunIsSafe(lib: IpLib, st: State, events: seq<Event>, key: string, net: Network)
    requires lib.Sound() && IsStart(st) && PossibleRun(lib, st, events)
    ensures var after := Run(lib, st, events);
            && RecordsHistory(after, key)
            && (Canonical(lib, key) && NeverListed(lib, events, lib.parse(key)) ==> Enforced(lib, after, key))
            && Conserved(lib, after, net)
            && SameIsolation(st, after)
  {
    OnlyIsolationsNoDrops(st.TableOf(net.v6).rules, net);
    assert Denoting(lib, st.blacklist, net) == {};
    RunKeepsHistory(lib, st, events, key);
    RunConserves(lib, st, events, net);
    if Canonical(lib, key) && NeverListed(lib, events, lib.parse(key)) {
      RunEnforces(lib, st, events, key);
    }
  }
}
