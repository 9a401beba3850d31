/** The fail2ban state machine: attempts, bans, purges and list updates as steps on one state, and what every run of
    them keeps. */
module Fail2ban {
  import opened Text
  import opened Nftables

  const MAX_ATTEMPTS: nat := 10
  const RETRY_WINDOW: real := 600.0
  const BAN_TIME: nat := 1800
  const MAX_BAN_TIME: nat := 10000

  datatype Address = Address(v6: bool, value: int)

  /** What `get_ip` makes of a text: it raises on one that is no address, and ignores private and loopback ones. */
  datatype IpLookup = Malformed | Internal | Routable(address: Address)

  /** The parts of `ipaddress` in use: `get_ip`, the text of a host network, and network parsing (host bits allowed). */
  datatype IpLib = IpLib(getIp: string -> IpLookup, hostKey: Address -> string, parse: string -> Network) {
    /** A host network's text parses back to it. */
    ghost predicate Sound() {
      forall a :: parse(hostKey(a)) == HostNet(a)
    }
  }

  function HostNet(a: Address): Network {
    Network(a.v6, a.value, a.value)
  }

  predicate Overlaps(a: Network, b: Network) {
    && a.v6 == b.v6
    && (|| a.first <= b.first <= a.last || a.first <= b.last <= a.last
        || b.first <= a.first <= b.last || b.first <= a.last <= b.last)
  }

  /** `round`: to the nearest integer, halves to even. */
  function Round(x: real): int {
    var f := x.Floor;
    var d := x - f as real;
    if d < 0.5 then f else if d > 0.5 then f + 1 else if f % 2 == 0 then f else f + 1
  }

  function Pow2(n: nat): nat {
    if n == 0 then 1 else 2 * Pow2(n - 1)
  }

  function Min(a: int, b: int): int { if a <= b then a else b }

  function Max(a: int, b: int): int { if a >= b then a else b }

  /** `calc_net_ban_time`. */
  function NetBanTime(counter: nat): int {
    Max(BAN_TIME, Min(BAN_TIME * Pow2(counter), MAX_BAN_TIME))
  }

  datatype Ban = Ban(attempts: nat, lastAttempt: real, counter: nat)

  /** What happened, per network text: an attempt that was not whitelisted, an unban, or a blacklist entry put into the
      kernel or taken out of it. */
  datatype Entry =
    | Attempted(key: string, time: real)
    | Lifted(key: string)
    | Listed(key: string)
    | Unlisted(key: string)

  /** The mail chain of one family: its rules and the next handle. */
  datatype Table = Table(rules: seq<Rule>, next: nat) {
    function Banned(net: Network): Table {
      Table([Rule(next, None, Drop(net))] + rules, next + 1)
    }

    /** Deleting the first drop rule; a list it cannot be searched in is left alone. */
    function Unbanned(net: Network): Table {
      var left := WithoutFirst(rules, net);
      if left.None? then this else Table(left.value, next)
    }
  }

  /** `active` is F2B_ACTIVE_BANS, `queue` the fields of F2B_QUEUE_UNBAN; `log` records history. */
  datatype State = State(
    bans: map<string, Ban>,
    blacklist: set<string>,
    whitelist: set<string>,
    active: map<string, int>,
    queue: set<string>,
    table4: Table,
    table6: Table,
    log: seq<Entry>)
  {
    function TableOf(v6: bool): Table {
      if v6 then table6 else table4
    }

    function WithTable(v6: bool, t: Table): State {
      if v6 then this.(table6 := t) else this.(table4 := t)
    }

    /** Drop rules of a network in its family's mail chain. */
    function Drops(net: Network): nat {
      DropCount(TableOf(net.v6).rules, net)
    }
  }

  // ---- steps ----

  predicate Whitelisted(lib: IpLib, whitelist: set<string>, a: Address) {
    exists w :: w in whitelist && Overlaps(lib.parse(w), HostNet(a))
  }

  /** The record after one more attempt at `now`. */
  function Counted(bans: map<string, Ban>, key: string, now: real): Ban {
    var prev := if key in bans then bans[key] else Ban(0, 0.0, 0);
    Ban((if now - prev.lastAttempt > RETRY_WINDOW then 0 else prev.attempts) + 1, now, prev.counter)
  }

  /** Bans the network if its count has reached the threshold. */
  function Punish(lib: IpLib, st: State, a: Address, now2: real): State {
    var key := lib.hostKey(a);
    if key !in st.bans || st.bans[key].attempts < MAX_ATTEMPTS then st
    else
      st.WithTable(a.v6, st.TableOf(a.v6).Banned(lib.parse(key)))
        .(active := st.active[key := Round(now2) + NetBanTime(st.bans[key].counter)])
  }

  function CountStep(st: State, key: string, now: real): State {
    st.(bans := st.bans[key := Counted(st.bans, key, now)], log := st.log + [Attempted(key, now)])
  }

  /** `ban`, for an address that is one: `now` and `now2` are its two clock readings. */
  function AttemptStep(lib: IpLib, st: State, a: Address, now: real, now2: real): State {
    if Whitelisted(lib, st.whitelist, a) then st else Punish(lib, CountStep(st, lib.hostKey(a), now), a, now2)
  }

  function UnbanStep(lib: IpLib, st: State, key: string): State {
    if key !in st.bans then st.(queue := st.queue - {key})
    else
      var net := lib.parse(key);
      st.WithTable(net.v6, st.TableOf(net.v6).Unbanned(net))
        .(active := st.active - {key},
          queue := st.queue - {key},
          bans := st.bans[key := st.bans[key].(attempts := 0, counter := st.bans[key].counter + 1)],
          log := st.log + [Lifted(key)])
  }

  function UnbanAll(lib: IpLib, st: State, keys: seq<string>): State
    decreases |keys|
  {
    if keys == [] then st else UnbanAll(lib, UnbanStep(lib, st, keys[0]), keys[1..])
  }

  predicate Expired(ban: Ban, now: real) {
    ban.attempts >= MAX_ATTEMPTS && now - ban.lastAttempt > NetBanTime(ban.counter) as real
  }

  function PurgeOne(lib: IpLib, st: State, key: string, now: real): State {
    if key in st.bans && Expired(st.bans[key], now) then UnbanStep(lib, st, key) else st
  }

  /** `clock` gives the reading taken when each network is visited. */
  function PurgeAll(lib: IpLib, st: State, keys: seq<string>, clock: string -> real): State
    decreases |keys|
  {
    if keys == [] then st else PurgeAll(lib, PurgeOne(lib, st, keys[0], clock(keys[0])), keys[1..], clock)
  }

  /** `autopurge`: unban the queue, then the expired networks. */
  function AutopurgeStep(lib: IpLib, st: State, queued: seq<string>, keys: seq<string>, clock: string -> real): State {
    PurgeAll(lib, UnbanAll(lib, st, queued), keys, clock)
  }

  function PermBan(lib: IpLib, st: State, entry: string, unban: bool): State {
    var net := lib.parse(entry);
    var t := st.TableOf(net.v6);
    st.WithTable(net.v6, if unban then t.Unbanned(net) else t.Banned(net))
      .(log := st.log + [if unban then Unlisted(entry) else Listed(entry)])
  }

  function PermBanAll(lib: IpLib, st: State, entries: seq<string>, unban: bool): State
    decreases |entries|
  {
    if entries == [] then st else PermBanAll(lib, PermBan(lib, st, entries[0], unban), entries[1..], unban)
  }

  /** `update_blacklist` after resolution: `added` and `removed` list the two set differences in some order. */
  function BlacklistStep(lib: IpLib, st: State, entries: set<string>, added: seq<string>, removed: seq<string>): State {
    PermBanAll(lib, PermBanAll(lib, st.(blacklist := entries), added, false), removed, true)
  }

  datatype Event =
    | Attempt(a: Address, now: real, now2: real)
    | Unban(key: string)
    | Autopurge(queued: seq<string>, keys: seq<string>, clock: string -> real)
    | Blacklist(entries: set<string>, added: seq<string>, removed: seq<string>)
    | Whitelist(entries: set<string>)
    | Enqueue(key: string)

  /** The orders in an event are those of the state it happens in. */
  ghost predicate Possible(st: State, e: Event) {
    match e
    case Autopurge(queued, keys, _) => Lists(queued, st.queue) && Lists(keys, st.bans.Keys)
    case Blacklist(entries, added, removed) =>
      Lists(added, entries - st.blacklist) && Lists(removed, st.blacklist - entries)
    case _ => true
  }

  function Step(lib: IpLib, st: State, e: Event): State {
    match e
    case Attempt(a, now, now2) => AttemptStep(lib, st, a, now, now2)
    case Unban(key) => UnbanStep(lib, st, key)
    case Autopurge(queued, keys, clock) => AutopurgeStep(lib, st, queued, keys, clock)
    case Blacklist(entries, added, removed) => BlacklistStep(lib, st, entries, added, removed)
    case Whitelist(entries) => st.(whitelist := entries)
    case Enqueue(key) => st.(queue := st.queue + {key})
  }

  function Run(lib: IpLib, st: State, events: seq<Event>): State
    decreases |events|
  {
    if events == [] then st else Run(lib, Step(lib, st, events[0]), events[1..])
  }

  ghost predicate PossibleRun(lib: IpLib, st: State, events: seq<Event>)
    decreases |events|
  {
    events == [] || (Possible(st, events[0]) && PossibleRun(lib, Step(lib, st, events[0]), events[1..]))
  }

  /** Freshly started: nothing recorded, and mail chains holding at most isolation rules. */
  predicate IsStart(st: State) {
    && st.bans == map[] && st.active == map[] && st.blacklist == {} && st.log == []
    && (forall i :: 0 <= i < |st.table4.rules| ==> st.table4.rules[i].body.Isolation?)
    && (forall i :: 0 <= i < |st.table6.rules| ==> st.table6.rules[i].body.Isolation?)
  }

  // ---- ban time ----

  lemma {:induction false} Pow2Grows(a: nat, b: nat)
    requires a <= b
    ensures 1 <= Pow2(a) <= Pow2(b)
    decreases b
  {
    if a < b {
      Pow2Grows(a, b - 1);
    } else if a > 0 {
      Pow2Grows(a - 1, b - 1);
    }
  }

  /** Ban time starts at half an hour, doubles, and never exceeds 10000 s; it is monotone in the counter. */
  lemma BanTimeIsMonotone(a: nat, b: nat)
    requires a <= b
    ensures BAN_TIME <= NetBanTime(a) <= NetBanTime(b) <= MAX_BAN_TIME
    ensures NetBanTime(0) == 1800 && NetBanTime(1) == 3600 && NetBanTime(2) == 7200
    ensures a >= 3 ==> NetBanTime(a) == MAX_BAN_TIME
  {
    Pow2Grows(a, b);
    if a >= 3 {
      Pow2Grows(3, a);
      assert Pow2(3) == 8;
    }
  }

  /** Rounding goes to the nearest integer, and to the even one of two. */
  lemma RoundIsNearest(x: real)
    ensures x - 0.5 <= Round(x) as real <= x + 0.5
    ensures Round(x) as real == x + 0.5 || Round(x) as real == x - 0.5 ==> Round(x) % 2 == 0
  {
    var f := x.Floor;
    var d := x - f as real;
    assert 0.0 <= d < 1.0 && (f + 1) as real == f as real + 1.0;
    assert f % 2 == 0 || (f + 1) % 2 == 0;
  }

  // ---- history: the counters are a function of what happened ----

  /** Times of the attempts on a network since its last unban. */
  function Since(log: seq<Entry>, key: string): seq<real> {
    if log == [] then []
    else
      var front, last := log[..|log| - 1], log[|log| - 1];
      match last
      case Attempted(k, t) => if k == key then Since(front, key) + [t] else Since(front, key)
      case Lifted(k) => if k == key then [] else Since(front, key)
      case _ => Since(front, key)
  }

  function LastTime(log: seq<Entry>, key: string): real {
    if log == [] then 0.0
    else
      var last := log[|log| - 1];
      if last.Attempted? && last.key == key then last.time else LastTime(log[..|log| - 1], key)
  }

  function Lifts(log: seq<Entry>, key: string): nat {
    if log == [] then 0 else (if log[|log| - 1] == Lifted(key) then 1 else 0) + Lifts(log[..|log| - 1], key)
  }

  predicate WasAttempted(log: seq<Entry>, key: string) {
    exists i :: 0 <= i < |log| && log[i].Attempted? && log[i].key == key
  }

  /** `n` is the length of the longest suffix of `times` whose consecutive gaps are all within the retry window. */
  ghost predicate IsStreak(times: seq<real>, n: int) {
    && 0 <= n <= |times|
    && (forall i, j :: |times| - n <= i && j == i + 1 && j < |times| ==> times[j] - times[i] <= RETRY_WINDOW)
    && (n < |times| ==> n > 0 && times[|times| - n] - times[|times| - n - 1] > RETRY_WINDOW)
  }

  lemma StreakIsLongest(times: seq<real>, n: int, m: int)
    requires IsStreak(times, n) && n < m <= |times|
    ensures exists i :: |times| - m <= i < |times| - 1 && times[i + 1] - times[i] > RETRY_WINDOW
  {
    assert times[|times| - n - 1 + 1] - times[|times| - n - 1] > RETRY_WINDOW;
  }

  lemma StreakGrows(times: seq<real>, n: int, t: real)
    requires IsStreak(times, n)
    ensures IsStreak(times + [t], if times != [] && t - times[|times| - 1] > RETRY_WINDOW then 1 else n + 1)
  {
    var longer := times + [t];
    assert forall i :: 0 <= i < |times| ==> longer[i] == times[i];
  }

  /** The ban record of a network is what its history says: streak of attempts, last attempt, number of unbans. */
  ghost predicate Faithful(bans: map<string, Ban>, log: seq<Entry>, key: string) {
    var times := Since(log, key);
    if key in bans then
      && IsStreak(times, bans[key].attempts)
      && bans[key].lastAttempt == LastTime(log, key)
      && bans[key].counter == Lifts(log, key)
      && (times != [] ==> times[|times| - 1] == LastTime(log, key))
      && WasAttempted(log, key)
    else
      times == [] && !WasAttempted(log, key) && LastTime(log, key) == 0.0 && Lifts(log, key) == 0
  }

  ghost predicate RecordsHistory(st: State, key: string) {
    Faithful(st.bans, st.log, key)
  }

  lemma LogGrows(log: seq<Entry>, e: Entry, key: string)
    ensures Since(log + [e], key) ==
            if e == Lifted(key) then []
            else if e.Attempted? && e.key == key then Since(log, key) + [e.time]
            else Since(log, key)
    ensures LastTime(log + [e], key) == if e.Attempted? && e.key == key then e.time else LastTime(log, key)
    ensures Lifts(log + [e], key) == Lifts(log, key) + if e == Lifted(key) then 1 else 0
    ensures WasAttempted(log + [e], key) <==> WasAttempted(log, key) || (e.Attempted? && e.key == key)
  {
    var longer := log + [e];
    assert longer[..|log|] == log && longer[|log|] == e;
    assert forall i :: 0 <= i < |log| ==> longer[i] == log[i];
  }

  lemma CountingIsFaithful(bans: map<string, Ban>, log: seq<Entry>, counted: string, now: real, key: string)
    requires Faithful(bans, log, key)
    ensures Faithful(bans[counted := Counted(bans, counted, now)], log + [Attempted(counted, now)], key)
  {
    LogGrows(log, Attempted(counted, now), key);
    if counted == key {
      var times := Since(log, key);
      StreakGrows(times, if key in bans then bans[key].attempts else 0, now);
    }
  }

  lemma AttemptKeepsHistory(lib: IpLib, st: State, a: Address, now: real, now2: real, key: string)
    requires RecordsHistory(st, key)
    ensures RecordsHistory(AttemptStep(lib, st, a, now, now2), key)
  {
    CountingIsFaithful(st.bans, st.log, lib.hostKey(a), now, key);
  }

  lemma LiftingIsFaithful(bans: map<string, Ban>, log: seq<Entry>, lifted: string, key: string)
    requires Faithful(bans, log, key) && lifted in bans
    ensures Faithful(bans[lifted := bans[lifted].(attempts := 0, counter := bans[lifted].counter + 1)],
            log + [Lifted(lifted)], key)
  {
    LogGrows(log, Lifted(lifted), key);
  }

  lemma UnbanKeepsHistory(lib: IpLib, st: State, unbanned: string, key: string)
    requires RecordsHistory(st, key)
    ensures RecordsHistory(UnbanStep(lib, st, unbanned), key)
  {
    if unbanned in st.bans {
      LiftingIsFaithful(st.bans, st.log, unbanned, key);
    }
  }

  lemma {:induction false} UnbanAllKeepsHistory(lib: IpLib, st: State, keys: seq<string>, key: string)
    requires RecordsHistory(st, key)
    ensures RecordsHistory(UnbanAll(lib, st, keys), key)
    decreases |keys|
  {
    if keys != [] {
      UnbanKeepsHistory(lib, st, keys[0], key);
      UnbanAllKeepsHistory(lib, UnbanStep(lib, st, keys[0]), keys[1..], key);
    }
  }

  lemma {:induction false} PurgeAllKeepsHistory(lib: IpLib, st: State, keys: seq<string>, clock: string -> real,
        key: string)
    requires RecordsHistory(st, key)
    ensures RecordsHistory(PurgeAll(lib, st, keys, clock), key)
    decreases |keys|
  {
    if keys != [] {
      UnbanKeepsHistory(lib, st, keys[0], key);
      PurgeAllKeepsHistory(lib, PurgeOne(lib, st, keys[0], clock(keys[0])), keys[1..], clock, key);
    }
  }

  lemma {:induction false} PermBanAllFrame(lib: IpLib, st: State, entries: seq<string>, unban: bool)
    ensures var after := PermBanAll(lib, st, entries, unban);
            after == st.(table4 := after.table4, table6 := after.table6, log := after.log)
    decreases |entries|
  {
    if entries != [] {
      PermBanAllFrame(lib, PermBan(lib, st, entries[0], unban), entries[1..], unban);
    }
  }

  lemma BlacklistFrame(lib: IpLib, st: State, entries: set<string>, added: seq<string>, removed: seq<string>)
    ensures var after := BlacklistStep(lib, st, entries, added, removed);
            after == st.(blacklist := entries, table4 := after.table4, table6 := after.table6, log := after.log)
  {
    PermBanAllFrame(lib, st.(blacklist := entries), added, false);
    PermBanAllFrame(lib, PermBanAll(lib, st.(blacklist := entries), added, false), removed, true);
  }

  lemma {:induction false} PermBanAllKeepsHistory(lib: IpLib, st: State, entries: seq<string>, unban: bool, key: string)
    requires RecordsHistory(st, key)
    ensures RecordsHistory(PermBanAll(lib, st, entries, unban), key)
    decreases |entries|
  {
    if entries != [] {
      LogGrows(st.log, if unban then Unlisted(entries[0]) else Listed(entries[0]), key);
      PermBanAllKeepsHistory(lib, PermBan(lib, st, entries[0], unban), entries[1..], unban, key);
    }
  }

  lemma StepKeepsHistory(lib: IpLib, st: State, e: Event, key: string)
    requires RecordsHistory(st, key)
    ensures RecordsHistory(Step(lib, st, e), key)
  {
    match e
    case Attempt(a, now, now2) => AttemptKeepsHistory(lib, st, a, now, now2, key);
    case Unban(k) => UnbanKeepsHistory(lib, st, k, key);
    case Autopurge(queued, keys, clock) =>
      UnbanAllKeepsHistory(lib, st, queued, key);
      PurgeAllKeepsHistory(lib, UnbanAll(lib, st, queued), keys, clock, key);
    case Blacklist(entries, added, removed) =>
      PermBanAllKeepsHistory(lib, st.(blacklist := entries), added, false, key);
      PermBanAllKeepsHistory(lib, PermBanAll(lib, st.(blacklist := entries), added, false), removed, true, key);
    case Whitelist(_) =>
    case Enqueue(_) =>
  }

  /** In every run, every network's attempt count is the length of the longest suffix, since its last unban, of
      non-whitelisted attempts whose gaps are within the retry window. */
  lemma {:induction false} RunKeepsHistory(lib: IpLib, st: State, events: seq<Event>, key: string)
    requires RecordsHistory(st, key)
    ensures RecordsHistory(Run(lib, st, events), key)
    decreases |events|
  {
    if events != [] {
      StepKeepsHistory(lib, st, events[0], key);
      RunKeepsHistory(lib, Step(lib, st, events[0]), events[1..], key);
    }
  }

  /** An attempt adds a drop rule for its network, and nothing else to the tables, exactly when it is not whitelisted
      and the streak it completes is long enough. */
  lemma AttemptBansOnStreak(lib: IpLib, st: State, a: Address, now: real, now2: real, n: int)
    requires lib.Sound() && RecordsHistory(st, lib.hostKey(a))
    requires IsStreak(Since(st.log, lib.hostKey(a)) + [now], n)
    ensures var after := AttemptStep(lib, st, a, now, now2);
            var banned := !Whitelisted(lib, st.whitelist, a) && n >= MAX_ATTEMPTS;
            && after.TableOf(a.v6) == (if banned then st.TableOf(a.v6).Banned(HostNet(a)) else st.TableOf(a.v6))
            && after.TableOf(!a.v6) == st.TableOf(!a.v6)
            && after.active ==
                 if banned then st.active[lib.hostKey(a) := Round(now2) + NetBanTime(Lifts(st.log, lib.hostKey(a)))]
                 else st.active
  {
    CountIsStreak(st.bans, st.log, lib.hostKey(a), now, n);
  }

  lemma CountIsStreak(bans: map<string, Ban>, log: seq<Entry>, key: string, now: real, n: int)
    requires Faithful(bans, log, key) && IsStreak(Since(log, key) + [now], n)
    ensures Counted(bans, key, now).attempts == n && Counted(bans, key, now).counter == Lifts(log, key)
  {
    var times := Since(log, key);
    StreakGrows(times, if key in bans then bans[key].attempts else 0, now);
    StreakIsUnique(times + [now], n, Counted(bans, key, now).attempts);
  }

  lemma StreakIsUnique(times: seq<real>, n: int, m: int)
    requires IsStreak(times, n) && IsStreak(times, m)
    ensures n == m
  {
    if n < m {
      StreakIsLongest(times, n, m);
    } else if m < n {
      StreakIsLongest(times, m, n);
    }
  }
}
