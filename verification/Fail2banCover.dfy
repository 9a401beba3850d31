/** When the blacklist stays enforced: bans and blacklist entries share their drop rules, so that lifting a ban can take
    the rule of an entry. */
module Fail2banCover {
  import opened Text
  import opened Nftables
  import opened Fail2ban
  import opened Fail2banSafety
  import opened Fail2banPurge

  /** The network has a drop rule for each blacklist entry that denotes it. */
  ghost predicate Covered(lib: IpLib, st: State, net: Network) {
    st.Drops(net) >= |Denoting(lib, st.blacklist, net)|
  }

  /** The event lifts the ban of a recorded network: asked for, queued or expired. */
  predicate Lifting(st: State, e: Event, key: string) {
    key in st.bans && match e
      case Unban(k) => k == key
      case Autopurge(_, _, clock) => key in st.queue || Expired(st.bans[key], clock(key))
      case _ => false
  }

  // ---- what a purge does to the rules of a recorded network ----

  lemma {:induction false} UnbanAllDrops(lib: IpLib, st: State, keys: seq<string>, key: string)
    requires Healthy(lib, st) && Canonical(lib, key) && key in st.bans && key in keys
    requires forall i, j :: 0 <= i < j < |keys| ==> keys[i] != keys[j]
    ensures Healthy(lib, UnbanAll(lib, st, keys))
    ensures UnbanAll(lib, st, keys).Drops(lib.parse(key)) == Less(st.Drops(lib.parse(key)))
    decreases |keys|
  {
    var after := UnbanStep(lib, st, keys[0]);
    assert keys == [keys[0]] + keys[1..];
    assert forall j :: 0 < j < |keys| ==> keys[0] != keys[j];
    UnbanEffect(lib, st, keys[0], lib.parse(key));
    if keys[0] == key {
      UnbanAllOthers(lib, after, keys[1..], key);
    } else {
      if keys[0] in st.bans {
        DistinctKeysDistinctNets(lib, keys[0], key);
      }
      UnbanAllDrops(lib, after, keys[1..], key);
    }
  }

  lemma {:induction false} PurgeAllDrops(lib: IpLib, st: State, keys: seq<string>, clock: string -> real, key: string)
    requires Healthy(lib, st) && Canonical(lib, key) && key in keys
    requires key in st.bans && Expired(st.bans[key], clock(key))
    ensures PurgeAll(lib, st, keys, clock).Drops(lib.parse(key)) == Less(st.Drops(lib.parse(key)))
    decreases |keys|
  {
    var after := PurgeOne(lib, st, keys[0], clock(keys[0]));
    assert keys == [keys[0]] + keys[1..];
    UnbanEffect(lib, st, keys[0], lib.parse(key));
    if keys[0] == key {
      PurgeAllOthers(lib, after, keys[1..], clock, key);
    } else {
      if keys[0] in st.bans {
        DistinctKeysDistinctNets(lib, keys[0], key);
      }
      PurgeAllDrops(lib, after, keys[1..], clock, key);
    }
  }

  /** A purge takes one rule, if there is one, from each recorded network that is queued or expired. */
  lemma PurgeTakesOneRule(lib: IpLib, st: State, e: Event, key: string)
    requires Healthy(lib, st) && e.Autopurge? && Possible(st, e) && Lifting(st, e, key)
    ensures Step(lib, st, e).Drops(lib.parse(key)) == Less(st.Drops(lib.parse(key)))
  {
    UnbanAllOnce(lib, st, e.queued, key);
    if key in st.queue {
      UnbanAllDrops(lib, st, e.queued, key);
      PurgeAllOthers(lib, UnbanAll(lib, st, e.queued), e.keys, e.clock, key);
    } else {
      UnbanAllOthers(lib, st, e.queued, key);
      PurgeAllDrops(lib, UnbanAll(lib, st, e.queued), e.keys, e.clock, key);
    }
  }

  /** No key of the network is recorded: a purge leaves its rules. */
  lemma PurgeOfUnkeyed(lib: IpLib, st: State, e: Event, net: Network)
    requires Healthy(lib, st) && e.Autopurge? && Unkeyed(lib, st, net)
    ensures Step(lib, st, e).Drops(net) == st.Drops(net)
  {
    UnbanAllUnkeyed(lib, st, e.queued, net);
    PurgeAllUnkeyed(lib, UnbanAll(lib, st, e.queued), e.keys, e.clock, net);
  }

  // ---- steps and runs ----

  /** The event lifts a ban of the network while the network has no rule beyond those of its entries. */
  ghost predicate Strips(lib: IpLib, st: State, e: Event, net: Network) {
    && (exists key :: lib.parse(key) == net && Lifting(st, e, key))
    && 0 < |Denoting(lib, st.blacklist, net)| == st.Drops(net)
  }

  lemma LiftingTakesOne(lib: IpLib, st: State, e: Event, net: Network, key: string)
    requires Healthy(lib, st) && Possible(st, e) && lib.parse(key) == net && key in st.bans
    requires e.Unban? || e.Autopurge?
    ensures Step(lib, st, e).Drops(net) == if Lifting(st, e, key) then Less(st.Drops(net)) else st.Drops(net)
  {
    if e.Unban? {
      UnbanEffect(lib, st, e.key, net);
      if e.key in st.bans {
        DistinctKeysDistinctNets(lib, e.key, key);
      }
    } else if Lifting(st, e, key) {
      PurgeTakesOneRule(lib, st, e, key);
    } else {
      PurgeKeepsOtherRules(lib, st, e.queued, e.keys, e.clock, key);
    }
  }

  lemma NothingLifted(lib: IpLib, st: State, e: Event, net: Network)
    requires Healthy(lib, st) && Unkeyed(lib, st, net) && (e.Unban? || e.Autopurge?)
    ensures Step(lib, st, e).Drops(net) == st.Drops(net)
  {
    if e.Unban? {
      UnbanEffect(lib, st, e.key, net);
    } else {
      PurgeOfUnkeyed(lib, st, e, net);
    }
  }

  lemma LiftKeepsCoveredIff(lib: IpLib, st: State, e: Event, net: Network)
    requires Healthy(lib, st) && Covered(lib, st, net) && Possible(st, e) && (e.Unban? || e.Autopurge?)
    ensures Covered(lib, Step(lib, st, e), net) <==> !Strips(lib, st, e, net)
  {
    StepBlacklist(lib, st, e);
    if Unkeyed(lib, st, net) {
      NothingLifted(lib, st, e, net);
    } else {
      var key :| key in st.bans && lib.parse(key) == net;
      LiftingTakesOne(lib, st, e, net, key);
      forall other | lib.parse(other) == net && Lifting(st, e, other) ensures other == key {
        DistinctKeysDistinctNets(lib, other, key);
      }
    }
  }

  lemma OtherStepsKeepCovered(lib: IpLib, st: State, e: Event, net: Network)
    requires Healthy(lib, st) && Covered(lib, st, net) && Possible(st, e) && !e.Unban? && !e.Autopurge?
    ensures Covered(lib, Step(lib, st, e), net)
  {
    StepBlacklist(lib, st, e);
    if e.Attempt? {
      AttemptEffect(lib, st, e.a, e.now, e.now2, net);
    } else if e.Blacklist? {
      CountIsSize(lib, e.added, e.entries - st.blacklist, net);
      CountIsSize(lib, e.removed, st.blacklist - e.entries, net);
      DifferenceSizes(lib, st.blacklist, e.entries, net);
      BlacklistEffect(lib, st, e, net);
    }
  }

  /** A step leaves every entry of a network its rule exactly when it does not lift a ban of that network while there is
      no rule beyond those of its entries. */
  lemma StepKeepsCoveredIff(lib: IpLib, st: State, e: Event, net: Network)
    requires Healthy(lib, st) && Covered(lib, st, net) && Possible(st, e)
    ensures Covered(lib, Step(lib, st, e), net) <==> !Strips(lib, st, e, net)
  {
    if e.Unban? || e.Autopurge? {
      LiftKeepsCoveredIff(lib, st, e, net);
    } else {
      OtherStepsKeepCovered(lib, st, e, net);
    }
  }

  ghost predicate CoveredThroughout(lib: IpLib, st: State, events: seq<Event>, net: Network)
    decreases |events|
  {
    Covered(lib, st, net) && (events == [] || CoveredThroughout(lib, Step(lib, st, events[0]), events[1..], net))
  }

  ghost predicate NeverStripped(lib: IpLib, st: State, events: seq<Event>, net: Network)
    decreases |events|
  {
    events == [] ||
    (!Strips(lib, st, events[0], net) && NeverStripped(lib, Step(lib, st, events[0]), events[1..], net))
  }

  /** At every point of a run a blacklisted network has a drop rule for each of its entries: exactly when no ban of it
      is lifted while it has none beyond those. */
  lemma {:induction false} RunIsCoveredIff(lib: IpLib, st: State, events: seq<Event>, net: Network)
    requires Healthy(lib, st) && Covered(lib, st, net) && PossibleRun(lib, st, events)
    ensures CoveredThroughout(lib, st, events, net) <==> NeverStripped(lib, st, events, net)
    decreases |events|
  {
    if events != [] {
      StepKeepsCoveredIff(lib, st, events[0], net);
      StepKeepsIsolation(lib, st, events[0]);
      if Covered(lib, Step(lib, st, events[0]), net) {
        RunIsCoveredIff(lib, Step(lib, st, events[0]), events[1..], net);
      }
    }
  }

  /** From a fresh start. */
  lemma FreshRunIsCoveredIff(lib: IpLib, st: State, events: seq<Event>, net: Network)
    requires lib.Sound() && IsStart(st) && PossibleRun(lib, st, events)
    ensures CoveredThroughout(lib, st, events, net) <==> NeverStripped(lib, st, events, net)
  {
    assert Denoting(lib, st.blacklist, net) == {};
    RunIsCoveredIff(lib, st, events, net);
  }

  // ---- a run in which an entry loses its rule ----

  /** A run from a fresh start that leaves a listed network without a drop rule: one attempt, then the network is
      blacklisted, then a queued unban is done. A list that stays the same never puts the rule back. */
  lemma UncoveredCounterexample(lib: IpLib, st: State, a: Address, key: string, e1: Event, e2: Event, e3: Event,
        e4: Event, e5: Event)
    requires lib.Sound() && IsStart(st) && st.queue == {} && !Whitelisted(lib, st.whitelist, a)
    requires key == lib.hostKey(a) && e1.Attempt? && e1.a == a && e3 == Enqueue(key)
    requires e2 == Blacklist({key}, [key], []) && e5 == Blacklist({key}, [], [])
    requires e4.Autopurge? && e4.queued == [key] && e4.keys == [key]
    ensures PossibleRun(lib, st, [e1, e2, e3, e4, e5])
    ensures var after := Run(lib, st, [e1, e2, e3, e4, e5]);
            after.blacklist == {key} && after.Drops(HostNet(a)) == 0
  {
    var s1 := AttemptedOnce(lib, st, e1);
    var s2 := ListedOnce(lib, s1, key, e2);
    var s3 := QueuedOnce(lib, s2, key, e3);
    var s4 := PurgedOnce(lib, s3, key, e4);
    SameListStays(lib, s4, e5);
    RunOfFive(lib, st, e1, e2, e3, e4, e5);
  }

  lemma AttemptedOnce(lib: IpLib, st: State, e: Event) returns (after: State)
    requires lib.Sound() && IsStart(st) && e.Attempt? && !Whitelisted(lib, st.whitelist, e.a)
    ensures Possible(st, e) && after == Step(lib, st, e) && Healthy(lib, after) && after.Drops(HostNet(e.a)) == 0
    ensures after.bans.Keys == {lib.hostKey(e.a)} && after.blacklist == {} && after.queue == st.queue
  {
    after := AttemptStep(lib, st, e.a, e.now, e.now2);
    OnlyIsolationsNoDrops(st.TableOf(e.a.v6).rules, HostNet(e.a));
    AttemptEffect(lib, st, e.a, e.now, e.now2, HostNet(e.a));
  }

  lemma ListedOnce(lib: IpLib, st: State, key: string, e: Event) returns (after: State)
    requires Healthy(lib, st) && st.blacklist == {} && st.Drops(lib.parse(key)) == 0
    requires e == Blacklist({key}, [key], [])
    ensures Possible(st, e) && after == Step(lib, st, e) && Healthy(lib, after)
    ensures after.bans == st.bans && after.queue == st.queue
    ensures after.blacklist == {key} && after.Drops(lib.parse(key)) == 1
  {
    var listed := st.(blacklist := {key});
    after := PermBan(lib, listed, key, false);
    assert PermBanAll(lib, listed, [key], false) == PermBanAll(lib, after, [], false);
    PermBanEffect(lib, listed, key, false, lib.parse(key));
  }

  lemma QueuedOnce(lib: IpLib, st: State, key: string, e: Event) returns (after: State)
    requires Healthy(lib, st) && e == Enqueue(key) && st.queue == {}
    ensures Possible(st, e) && after == Step(lib, st, e) && Healthy(lib, after)
    ensures after == st.(queue := {key})
  {
    after := st.(queue := {key});
  }

  lemma PurgedOnce(lib: IpLib, st: State, key: string, e: Event) returns (after: State)
    requires Healthy(lib, st) && st.queue == {key} && st.bans.Keys == {key} && st.Drops(lib.parse(key)) == 1
    requires e.Autopurge? && e.queued == [key] && e.keys == [key]
    ensures Possible(st, e) && after == Step(lib, st, e)
    ensures after.blacklist == st.blacklist && after.Drops(lib.parse(key)) == 0
  {
    after := UnbanStep(lib, st, key);
    assert UnbanAll(lib, st, [key]) == UnbanAll(lib, after, []);
    assert PurgeAll(lib, after, [key], e.clock) == PurgeAll(lib, after, [], e.clock);
    UnbanEffect(lib, st, key, lib.parse(key));
  }

  lemma SameListStays(lib: IpLib, st: State, e: Event)
    requires e == Blacklist(st.blacklist, [], [])
    ensures Possible(st, e) && Step(lib, st, e) == st
  {
    assert e.entries - st.blacklist == {} && st.blacklist - e.entries == {};
  }

  lemma RunOfFive(lib: IpLib, st: State, e1: Event, e2: Event, e3: Event, e4: Event, e5: Event)
    ensures var s1 := Step(lib, st, e1);
            var s2 := Step(lib, s1, e2);
            var s3 := Step(lib, s2, e3);
            var s4 := Step(lib, s3, e4);
            && Run(lib, st, [e1, e2, e3, e4, e5]) == Step(lib, s4, e5)
            && (PossibleRun(lib, st, [e1, e2, e3, e4, e5]) <==>
                Possible(st, e1) && Possible(s1, e2) && Possible(s2, e3) && Possible(s3, e4) && Possible(s4, e5))
  {
    var s1 := Step(lib, st, e1);
    var s2 := Step(lib, s1, e2);
    var s3 := Step(lib, s2, e3);
    var s4 := Step(lib, s3, e4);
    RunFirst(lib, st, e1, [e2, e3, e4, e5]);
    RunFirst(lib, s1, e2, [e3, e4, e5]);
    RunFirst(lib, s2, e3, [e4, e5]);
    RunFirst(lib, s3, e4, [e5]);
    RunFirst(lib, s4, e5, []);
    assert [e1] + [e2, e3, e4, e5] == [e1, e2, e3, e4, e5] && [e2] + [e3, e4, e5] == [e2, e3, e4, e5];
    assert [e3] + [e4, e5] == [e3, e4, e5] && [e4] + [e5] == [e4, e5] && [e5] + [] == [e5];
  }

  lemma RunFirst(lib: IpLib, st: State, e: Event, events: seq<Event>)
    ensures Run(lib, st, [e] + events) == Run(lib, Step(lib, st, e), events)
    ensures PossibleRun(lib, st, [e] + events) <==> Possible(st, e) && PossibleRun(lib, Step(lib, st, e), events)
  {
    assert ([e] + events)[1..] == events;
  }
}
