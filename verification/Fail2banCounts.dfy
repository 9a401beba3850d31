/** How many drop rules a network has, exactly: a fold over its history. */
module Fail2banCounts {
  import opened Text
  import opened Nftables
  import opened Fail2ban
  import opened Fail2banSafety

  /** Length of the longest suffix whose consecutive gaps are within the retry window. */
  function StreakLength(times: seq<real>): (n: nat)
    ensures n <= |times| && (times != [] ==> n > 0)
  {
    if |times| <= 1 then |times|
    else if times[|times| - 1] - times[|times| - 2] > RETRY_WINDOW then 1
    else 1 + StreakLength(times[..|times| - 1])
  }

  lemma {:induction false} StreakLengthIsStreak(times: seq<real>)
    ensures IsStreak(times, StreakLength(times))
  {
    if |times| > 1 {
      var front := times[..|times| - 1];
      StreakLengthIsStreak(front);
      StreakGrows(front, StreakLength(front), times[|times| - 1]);
      assert front + [times[|times| - 1]] == times && front[|front| - 1] == times[|times| - 2];
    }
  }

  /** Drop rules a history leaves a network: an attempt inserts one when its streak is long enough, a new blacklist
      entry inserts one, an unban and a removed entry delete one if there is any. */
  function RuleCount(lib: IpLib, log: seq<Entry>, net: Network): nat {
    if log == [] then 0
    else
      var before, last := RuleCount(lib, log[..|log| - 1], net), log[|log| - 1];
      if lib.parse(last.key) != net then before
      else if last.Attempted? then before + if StreakLength(Since(log, last.key)) >= MAX_ATTEMPTS then 1 else 0
      else if last.Listed? then before + 1
      else Less(before)
  }

  lemma CountGrows(lib: IpLib, log: seq<Entry>, e: Entry, net: Network)
    ensures RuleCount(lib, log + [e], net) ==
            if lib.parse(e.key) != net then RuleCount(lib, log, net)
            else if e.Attempted? then
              RuleCount(lib, log, net) + if StreakLength(Since(log, e.key) + [e.time]) >= MAX_ATTEMPTS then 1 else 0
            else if e.Listed? then RuleCount(lib, log, net) + 1
            else Less(RuleCount(lib, log, net))
  {
    assert (log + [e])[..|log|] == log;
    LogGrows(log, e, e.key);
  }

  ghost predicate Counts(lib: IpLib, st: State, net: Network) {
    st.Drops(net) == RuleCount(lib, st.log, net)
  }

  /** What the counting argument needs of a state. */
  ghost predicate Tracked(lib: IpLib, st: State, net: Network) {
    Healthy(lib, st) && Counts(lib, st, net)
  }

  lemma AttemptCounts(lib: IpLib, st: State, a: Address, now: real, now2: real, net: Network)
    requires Tracked(lib, st, net) && RecordsHistory(st, lib.hostKey(a))
    ensures Tracked(lib, AttemptStep(lib, st, a, now, now2), net)
  {
    var key := lib.hostKey(a);
    AttemptEffect(lib, st, a, now, now2, net);
    CountGrows(lib, st.log, Attempted(key, now), net);
    StreakLengthIsStreak(Since(st.log, key) + [now]);
    CountIsStreak(st.bans, st.log, key, now, StreakLength(Since(st.log, key) + [now]));
    assert lib.parse(key) == HostNet(a);
  }

  lemma UnbanCounts(lib: IpLib, st: State, unbanned: string, net: Network)
    requires Tracked(lib, st, net)
    ensures Tracked(lib, UnbanStep(lib, st, unbanned), net)
  {
    UnbanEffect(lib, st, unbanned, net);
    CountGrows(lib, st.log, Lifted(unbanned), net);
  }

  lemma {:induction false} UnbanAllCounts(lib: IpLib, st: State, keys: seq<string>, net: Network)
    requires Tracked(lib, st, net)
    ensures Tracked(lib, UnbanAll(lib, st, keys), net)
    decreases |keys|
  {
    if keys != [] {
      UnbanCounts(lib, st, keys[0], net);
      UnbanAllCounts(lib, UnbanStep(lib, st, keys[0]), keys[1..], net);
    }
  }

  lemma {:induction false} PurgeAllCounts(lib: IpLib, st: State, keys: seq<string>, clock: string -> real, net: Network)
    requires Tracked(lib, st, net)
    ensures Tracked(lib, PurgeAll(lib, st, keys, clock), net)
    decreases |keys|
  {
    if keys != [] {
      UnbanCounts(lib, st, keys[0], net);
      PurgeAllCounts(lib, PurgeOne(lib, st, keys[0], clock(keys[0])), keys[1..], clock, net);
    }
  }

  lemma {:induction false} PermBanAllCounts(lib: IpLib, st: State, entries: seq<string>, unban: bool, net: Network)
    requires Tracked(lib, st, net)
    ensures Tracked(lib, PermBanAll(lib, st, entries, unban), net)
    decreases |entries|
  {
    if entries != [] {
      PermBanEffect(lib, st, entries[0], unban, net);
      CountGrows(lib, st.log, if unban then Unlisted(entries[0]) else Listed(entries[0]), net);
      PermBanAllCounts(lib, PermBan(lib, st, entries[0], unban), entries[1..], unban, net);
    }
  }

  lemma StepCounts(lib: IpLib, st: State, e: Event, net: Network)
    requires Tracked(lib, st, net)
    requires e.Attempt? ==> RecordsHistory(st, lib.hostKey(e.a))
    ensures Tracked(lib, Step(lib, st, e), net)
  {
    match e
    case Attempt(a, now, now2) => AttemptCounts(lib, st, a, now, now2, net);
    case Unban(k) => UnbanCounts(lib, st, k, net);
    case Autopurge(queued, keys, clock) =>
      UnbanAllCounts(lib, st, queued, net);
      PurgeAllCounts(lib, UnbanAll(lib, st, queued), keys, clock, net);
    case Blacklist(entries, added, removed) =>
      PermBanAllCounts(lib, st.(blacklist := entries), added, false, net);
      PermBanAllCounts(lib, PermBanAll(lib, st.(blacklist := entries), added, false), removed, true, net);
    case Whitelist(_) =>
    case Enqueue(_) =>
  }

  /** In every run every network has exactly the drop rules its history leaves. */
  lemma {:induction false} RunCountsExactly(lib: IpLib, st: State, events: seq<Event>, net: Network)
    requires Tracked(lib, st, net) && forall key :: RecordsHistory(st, key)
    ensures Tracked(lib, Run(lib, st, events), net)
    decreases |events|
  {
    if events != [] {
      StepCounts(lib, st, events[0], net);
      forall key ensures RecordsHistory(Step(lib, st, events[0]), key) {
        StepKeepsHistory(lib, st, events[0], key);
      }
      RunCountsExactly(lib, Step(lib, st, events[0]), events[1..], net);
    }
  }

  /** From a fresh start. */
  lemma EveryRunCountsExactly(lib: IpLib, st: State, events: seq<Event>, net: Network)
    requires lib.Sound() && IsStart(st)
    ensures Run(lib, st, events).Drops(net) == RuleCount(lib, Run(lib, st, events).log, net)
  {
    OnlyIsolationsNoDrops(st.TableOf(net.v6).rules, net);
    RunCountsExactly(lib, st, events, net);
  }

  // ---- repeated failures ----

  /** Attempts of one address, each at most ten minutes after the one before. */
  ghost predicate KeepsTrying(events: seq<Event>, a: Address, last: real)
    decreases |events|
  {
    events == [] ||
    (events[0].Attempt? && events[0].a == a && events[0].now - last <= 600.0 &&
     KeepsTrying(events[1..], a, events[0].now))
  }

  /** What is above the ninth attempt. */
  function AboveNine(n: nat): nat {
    if n <= 9 then 0 else n - 9
  }

  lemma OneTryMore(lib: IpLib, st: State, a: Address, now: real, now2: real)
    requires Healthy(lib, st) && !Whitelisted(lib, st.whitelist, a)
    requires lib.hostKey(a) in st.bans && now - st.bans[lib.hostKey(a)].lastAttempt <= 600.0
    ensures var key, after := lib.hostKey(a), AttemptStep(lib, st, a, now, now2);
            && Healthy(lib, after) && after.whitelist == st.whitelist && key in after.bans
            && after.bans[key] == st.bans[key].(attempts := st.bans[key].attempts + 1, lastAttempt := now)
            && after.Drops(HostNet(a)) == st.Drops(HostNet(a)) + if st.bans[key].attempts + 1 >= 10 then 1 else 0
  {
    AttemptEffect(lib, st, a, now, now2, HostNet(a));
  }

  /** While an address keeps trying, every attempt counts, and each from the tenth on adds a drop rule. */
  lemma {:induction false} TryingCounts(lib: IpLib, st: State, a: Address, events: seq<Event>)
    requires Healthy(lib, st) && !Whitelisted(lib, st.whitelist, a) && lib.hostKey(a) in st.bans
    requires KeepsTrying(events, a, st.bans[lib.hostKey(a)].lastAttempt)
    ensures var key, after := lib.hostKey(a), Run(lib, st, events);
            && key in after.bans && after.bans[key].attempts == st.bans[key].attempts + |events|
            && after.Drops(HostNet(a)) + AboveNine(st.bans[key].attempts) ==
               st.Drops(HostNet(a)) + AboveNine(st.bans[key].attempts + |events|)
    decreases |events|
  {
    if events != [] {
      OneTryMore(lib, st, a, events[0].now, events[0].now2);
      TryingCounts(lib, Step(lib, st, events[0]), a, events[1..]);
    }
  }

  lemma FirstTry(lib: IpLib, st: State, a: Address, e: Event) returns (after: State)
    requires lib.Sound() && IsStart(st) && !Whitelisted(lib, st.whitelist, a) && e.Attempt? && e.a == a
    ensures after == Step(lib, st, e) && Healthy(lib, after) && !Whitelisted(lib, after.whitelist, a)
    ensures lib.hostKey(a) in after.bans && after.bans[lib.hostKey(a)] == Ban(1, e.now, 0)
    ensures after.Drops(HostNet(a)) == 0
  {
    after := AttemptStep(lib, st, a, e.now, e.now2);
    OnlyIsolationsNoDrops(st.TableOf(a.v6).rules, HostNet(a));
    AttemptEffect(lib, st, a, e.now, e.now2, HostNet(a));
  }

  /** From a fresh start, an address outside the whitelist that keeps trying has no drop rule up to its ninth attempt,
      one after the tenth, and one more after each further one. */
  lemma TenTriesBan(lib: IpLib, st: State, a: Address, first: Event, events: seq<Event>)
    requires lib.Sound() && IsStart(st) && !Whitelisted(lib, st.whitelist, a)
    requires first.Attempt? && first.a == a && KeepsTrying(events, a, first.now)
    ensures Run(lib, st, [first] + events).Drops(HostNet(a)) == AboveNine(1 + |events|)
  {
    var after := FirstTry(lib, st, a, first);
    TryingCounts(lib, after, a, events);
    assert ([first] + events)[1..] == events;
  }

  /** After more than ten minutes an attempt is the first of a new series. */
  lemma PauseStartsOver(lib: IpLib, st: State, a: Address, now: real, now2: real)
    requires Healthy(lib, st) && !Whitelisted(lib, st.whitelist, a)
    requires lib.hostKey(a) in st.bans && now - st.bans[lib.hostKey(a)].lastAttempt > 600.0
    ensures var after := AttemptStep(lib, st, a, now, now2);
            && lib.hostKey(a) in after.bans && after.bans[lib.hostKey(a)].attempts == 1
            && after.Drops(HostNet(a)) == st.Drops(HostNet(a))
  {
    AttemptEffect(lib, st, a, now, now2, HostNet(a));
  }
}
