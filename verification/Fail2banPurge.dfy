/** What a purge lifts: exactly what is queued or has run out. */
module Fail2banPurge {
  import opened Text
  import opened Nftables
  import opened Fail2ban
  import opened Fail2banSafety

  function Lifted1(b: Ban): Ban {
    b.(attempts := 0, counter := b.counter + 1)
  }

  lemma {:induction false} UnbanAllOnce(lib: IpLib, st: State, keys: seq<string>, key: string)
    requires forall i, j :: 0 <= i < j < |keys| ==> keys[i] != keys[j]
    ensures var after := UnbanAll(lib, st, keys);
            && (key in after.bans <==> key in st.bans)
            && (key in st.bans ==> after.bans[key] == if key in keys then Lifted1(st.bans[key]) else st.bans[key])
            && (key in after.active <==> key in st.active && !(key in keys && key in st.bans))
            && (key in after.active ==> after.active[key] == st.active[key])
    decreases |keys|
  {
    if keys != [] {
      assert keys == [keys[0]] + keys[1..];
      assert forall j :: 0 < j < |keys| ==> keys[0] != keys[j];
      UnbanAllOnce(lib, UnbanStep(lib, st, keys[0]), keys[1..], key);
    }
  }

  lemma {:induction false} PurgeAllOnce(lib: IpLib, st: State, keys: seq<string>, clock: string -> real, key: string)
    requires forall i, j :: 0 <= i < j < |keys| ==> keys[i] != keys[j]
    ensures var after := PurgeAll(lib, st, keys, clock);
            var due := key in keys && key in st.bans && Expired(st.bans[key], clock(key));
            && (key in after.bans <==> key in st.bans)
            && (key in st.bans ==> after.bans[key] == if due then Lifted1(st.bans[key]) else st.bans[key])
            && (key in after.active <==> key in st.active && !due)
            && (key in after.active ==> after.active[key] == st.active[key])
    decreases |keys|
  {
    if keys != [] {
      assert keys == [keys[0]] + keys[1..];
      assert forall j :: 0 < j < |keys| ==> keys[0] != keys[j];
      PurgeAllOnce(lib, PurgeOne(lib, st, keys[0], clock(keys[0])), keys[1..], clock, key);
    }
  }

  /** After a purge nothing is expired. A network that was queued or expired is lifted exactly once: attempts back to
      zero, counter up by one, no longer listed as banned. Any other network's record and listing are unchanged. */
  lemma PurgeLiftsExactlyTheDue(lib: IpLib, st: State, queued: seq<string>, keys: seq<string>, clock: string -> real,
        key: string)
    requires Lists(queued, st.queue) && Lists(keys, st.bans.Keys)
    ensures var after := AutopurgeStep(lib, st, queued, keys, clock);
            && (key in after.bans <==> key in st.bans)
            && (key in st.bans ==>
                 var due := key in st.queue || Expired(st.bans[key], clock(key));
                 && !Expired(after.bans[key], clock(key))
                 && after.bans[key] == (if due then Lifted1(st.bans[key]) else st.bans[key])
                 && (key in after.active <==> key in st.active && !due)
                 && (key in after.active ==> after.active[key] == st.active[key]))
  {
    UnbanAllOnce(lib, st, queued, key);
    PurgeAllOnce(lib, UnbanAll(lib, st, queued), keys, clock, key);
  }

  lemma {:induction false} UnbanAllOthers(lib: IpLib, st: State, keys: seq<string>, key: string)
    requires Healthy(lib, st) && Canonical(lib, key) && key !in keys
    ensures Healthy(lib, UnbanAll(lib, st, keys)) &&
            UnbanAll(lib, st, keys).Drops(lib.parse(key)) == st.Drops(lib.parse(key))
    decreases |keys|
  {
    if keys != [] {
      assert keys == [keys[0]] + keys[1..];
      UnbanEffect(lib, st, keys[0], lib.parse(key));
      if keys[0] in st.bans {
        DistinctKeysDistinctNets(lib, keys[0], key);
      }
      UnbanAllOthers(lib, UnbanStep(lib, st, keys[0]), keys[1..], key);
    }
  }

  lemma {:induction false} PurgeAllOthers(lib: IpLib, st: State, keys: seq<string>, clock: string -> real, key: string)
    requires Healthy(lib, st) && Canonical(lib, key) && key in st.bans && !Expired(st.bans[key], clock(key))
    ensures PurgeAll(lib, st, keys, clock).Drops(lib.parse(key)) == st.Drops(lib.parse(key))
    decreases |keys|
  {
    if keys != [] {
      UnbanEffect(lib, st, keys[0], lib.parse(key));
      if keys[0] in st.bans {
        DistinctKeysDistinctNets(lib, keys[0], key);
      }
      PurgeAllOthers(lib, PurgeOne(lib, st, keys[0], clock(keys[0])), keys[1..], clock, key);
    }
  }

  /** A purge leaves the drop rules of every network that is neither queued nor expired. */
  lemma PurgeKeepsOtherRules(lib: IpLib, st: State, queued: seq<string>, keys: seq<string>, clock: string -> real,
        key: string)
    requires Healthy(lib, st) && Lists(queued, st.queue)
    requires key in st.bans && key !in st.queue && !Expired(st.bans[key], clock(key))
    ensures AutopurgeStep(lib, st, queued, keys, clock).Drops(lib.parse(key)) == st.Drops(lib.parse(key))
  {
    UnbanAllOthers(lib, st, queued, key);
    UnbanAllOnce(lib, st, queued, key);
    PurgeAllOthers(lib, UnbanAll(lib, st, queued), keys, clock, key);
  }

  /** After a purge no network that has been quiet for more than 10000 s counts as banned. */
  lemma QuietIsNotBanned(lib: IpLib, st: State, queued: seq<string>, keys: seq<string>, clock: string -> real,
        key: string)
    requires Lists(queued, st.queue) && Lists(keys, st.bans.Keys) && key in st.bans
    requires clock(key) - st.bans[key].lastAttempt > MAX_BAN_TIME as real
    ensures var after := AutopurgeStep(lib, st, queued, keys, clock);
            key in after.bans && after.bans[key].attempts < MAX_ATTEMPTS
  {
    PurgeLiftsExactlyTheDue(lib, st, queued, keys, clock, key);
    BanTimeIsMonotone(st.bans[key].counter, st.bans[key].counter);
  }

  // ---- the queue ----

  /** An unban takes exactly its network out of the queue. */
  lemma UnbanDequeues(lib: IpLib, st: State, key: string)
    ensures UnbanStep(lib, st, key).queue == st.queue - {key}
  {
  }

  lemma {:induction false} UnbanAllDequeues(lib: IpLib, st: State, keys: seq<string>)
    ensures UnbanAll(lib, st, keys).queue == st.queue - set k | k in keys
    decreases |keys|
  {
    if keys != [] {
      UnbanDequeues(lib, st, keys[0]);
      UnbanAllDequeues(lib, UnbanStep(lib, st, keys[0]), keys[1..]);
      assert keys == [keys[0]] + keys[1..];
    }
  }

  lemma {:induction false} PurgeAllDequeues(lib: IpLib, st: State, keys: seq<string>, clock: string -> real)
    ensures PurgeAll(lib, st, keys, clock).queue <= st.queue
    decreases |keys|
  {
    if keys != [] {
      UnbanDequeues(lib, st, keys[0]);
      PurgeAllDequeues(lib, PurgeOne(lib, st, keys[0], clock(keys[0])), keys[1..], clock);
    }
  }

  /** A purge empties the queue. */
  lemma PurgeEmptiesQueue(lib: IpLib, st: State, queued: seq<string>, keys: seq<string>, clock: string -> real)
    requires Lists(queued, st.queue)
    ensures AutopurgeStep(lib, st, queued, keys, clock).queue == {}
  {
    UnbanAllDequeues(lib, st, queued);
    PurgeAllDequeues(lib, UnbanAll(lib, st, queued), keys, clock);
  }

  lemma StepQueues(lib: IpLib, st: State, e: Event, key: string)
    requires Possible(st, e)
    ensures key in Step(lib, st, e).queue ==> key in st.queue || e == Enqueue(key)
    ensures key in st.queue && !e.Autopurge? && e != Unban(key) ==> key in Step(lib, st, e).queue
  {
    match e
    case Unban(k) => UnbanDequeues(lib, st, k);
    case Autopurge(queued, keys, clock) => PurgeEmptiesQueue(lib, st, queued, keys, clock);
    case Blacklist(entries, added, removed) => BlacklistFrame(lib, st, entries, added, removed);
    case _ =>
  }

  ghost predicate NotQueued(events: seq<Event>, key: string) {
    forall i :: 0 <= i < |events| ==> events[i] != Enqueue(key)
  }

  lemma {:induction false} RunQueuesNothing(lib: IpLib, st: State, events: seq<Event>, key: string)
    requires PossibleRun(lib, st, events) && key !in st.queue && NotQueued(events, key)
    ensures key !in Run(lib, st, events).queue
    decreases |events|
  {
    if events != [] {
      StepQueues(lib, st, events[0], key);
      assert forall i :: 0 <= i < |events[1..]| ==> events[1..][i] == events[i + 1];
      RunQueuesNothing(lib, Step(lib, st, events[0]), events[1..], key);
    }
  }

  lemma {:induction false} RunKeepsKeys(lib: IpLib, st: State, events: seq<Event>)
    ensures st.bans.Keys <= Run(lib, st, events).bans.Keys
    decreases |events|
  {
    if events != [] {
      StepBlacklist(lib, st, events[0]);
      RunKeepsKeys(lib, Step(lib, st, events[0]), events[1..]);
    }
  }

  /** A queued unban lifts its network once: unless it is queued again, a later purge lifts it only when a new ban has
      run out. */
  lemma QueuedUnbanLiftsOnce(lib: IpLib, st: State, first: Event, events: seq<Event>, later: Event, key: string)
    requires first.Autopurge? && Possible(st, first) && key in st.queue && key in st.bans
    requires PossibleRun(lib, Step(lib, st, first), events) && NotQueued(events, key)
    requires later.Autopurge? && Possible(Run(lib, Step(lib, st, first), events), later)
    ensures Step(lib, st, first).bans.Keys == st.bans.Keys
    ensures Step(lib, st, first).bans[key] == Lifted1(st.bans[key])
    ensures var before := Run(lib, Step(lib, st, first), events);
            var after := Step(lib, before, later);
            && key in before.bans && key in after.bans
            && after.bans[key] ==
                 if Expired(before.bans[key], later.clock(key)) then Lifted1(before.bans[key]) else before.bans[key]
  {
    var next := Step(lib, st, first);
    PurgeLiftsExactlyTheDue(lib, st, first.queued, first.keys, first.clock, key);
    UnbanAllFrame(lib, st, first.queued);
    PurgeAllFrame(lib, UnbanAll(lib, st, first.queued), first.keys, first.clock);
    PurgeEmptiesQueue(lib, st, first.queued, first.keys, first.clock);
    RunQueuesNothing(lib, next, events, key);
    RunKeepsKeys(lib, next, events);
    PurgeLiftsExactlyTheDue(lib, Run(lib, next, events), later.queued, later.keys, later.clock, key);
  }

  /** A purge lifts a ban that is not queued exactly when the attempts have stopped for longer than half an hour, one
      hour, two hours, and from the fourth ban on 10000 s. */
  lemma BanLasts(lib: IpLib, st: State, e: Event, key: string)
    requires e.Autopurge? && Possible(st, e) && key in st.bans && key !in st.queue
    ensures var ban := st.bans[key];
            var quiet := e.clock(key) - ban.lastAttempt;
            var lasts := if ban.counter == 0 then 1800.0 else if ban.counter == 1 then 3600.0
                         else if ban.counter == 2 then 7200.0 else 10000.0;
            && key in Step(lib, st, e).bans
            && Step(lib, st, e).bans[key] == if ban.attempts >= 10 && quiet > lasts then Lifted1(ban) else ban
  {
    PurgeLiftsExactlyTheDue(lib, st, e.queued, e.keys, e.clock, key);
    BanTimeIsMonotone(st.bans[key].counter, st.bans[key].counter);
  }
}
