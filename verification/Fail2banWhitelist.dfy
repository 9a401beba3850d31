/** What the whitelist means: an address inside a whitelisted network is not heard. */
module Fail2banWhitelist {
  import opened Text
  import opened Nftables
  import opened Fail2ban
  import opened Fail2banSafety

  /** The network holds the address with this number. */
  predicate Holds(n: Network, v6: bool, value: int) {
    n.v6 == v6 && n.first <= value <= n.last
  }

  /** Networks are ranges of addresses. */
  predicate IsRange(n: Network) {
    n.first <= n.last
  }

  /** Two networks overlap exactly when some address lies in both. */
  lemma OverlapsIff(a: Network, b: Network)
    requires IsRange(a) && IsRange(b)
    ensures Overlaps(a, b) <==> exists v6, value :: Holds(a, v6, value) && Holds(b, v6, value)
  {
    if Overlaps(a, b) {
      var value := if b.first <= a.first then a.first else b.first;
      assert Holds(a, a.v6, value) && Holds(b, a.v6, value);
    }
  }

  /** An entry covers an address exactly when its network holds it. */
  lemma OverlapsHostIff(n: Network, a: Address)
    requires IsRange(n)
    ensures Overlaps(n, HostNet(a)) <==> Holds(n, a.v6, a.value)
  {
  }

  ghost predicate Ranges(lib: IpLib) {
    forall w :: IsRange(lib.parse(w))
  }

  /** The address lies inside a network of the list. */
  ghost predicate Inside(lib: IpLib, list: set<string>, a: Address) {
    exists w :: w in list && Holds(lib.parse(w), a.v6, a.value)
  }

  lemma WhitelistedIff(lib: IpLib, list: set<string>, a: Address)
    requires Ranges(lib)
    ensures Whitelisted(lib, list, a) <==> Inside(lib, list, a)
  {
    forall w ensures Overlaps(lib.parse(w), HostNet(a)) <==> Holds(lib.parse(w), a.v6, a.value) {
      OverlapsHostIff(lib.parse(w), a);
    }
  }

  /** An attempt changes nothing exactly when it comes from inside a whitelisted network; otherwise it is recorded. */
  lemma AttemptIsHeardIff(lib: IpLib, st: State, a: Address, now: real, now2: real)
    requires Ranges(lib)
    ensures AttemptStep(lib, st, a, now, now2) == st <==> Inside(lib, st.whitelist, a)
    ensures !Inside(lib, st.whitelist, a) ==>
              AttemptStep(lib, st, a, now, now2).log == st.log + [Attempted(lib.hostKey(a), now)]
  {
    WhitelistedIff(lib, st.whitelist, a);
    assert |st.log + [Attempted(lib.hostKey(a), now)]| == |st.log| + 1;
  }

  /** The events of a run without the attempts made from inside the whitelist of their time. */
  ghost function Heard(lib: IpLib, st: State, events: seq<Event>): seq<Event>
    decreases |events|
  {
    if events == [] then []
    else
      var e, rest := events[0], Heard(lib, Step(lib, st, events[0]), events[1..]);
      if e.Attempt? && Inside(lib, st.whitelist, e.a) then rest else [e] + rest
  }

  /** Such attempts change no state of any run. */
  lemma {:induction false} UnheardChangesNothing(lib: IpLib, st: State, events: seq<Event>)
    requires Ranges(lib)
    ensures Run(lib, st, Heard(lib, st, events)) == Run(lib, st, events)
    decreases |events|
  {
    if events != [] {
      var e := events[0];
      var rest := Heard(lib, Step(lib, st, e), events[1..]);
      UnheardChangesNothing(lib, Step(lib, st, e), events[1..]);
      if e.Attempt? && Inside(lib, st.whitelist, e.a) {
        AttemptIsHeardIff(lib, st, e.a, e.now, e.now2);
      } else {
        assert ([e] + rest)[1..] == rest;
      }
    }
  }

  /** The address stays inside the whitelist, whatever it is changed to. */
  ghost predicate StaysInside(lib: IpLib, st: State, events: seq<Event>, a: Address) {
    && Inside(lib, st.whitelist, a)
    && forall i :: 0 <= i < |events| && events[i].Whitelist? ==> Inside(lib, events[i].entries, a)
  }

  /** No record of the network and no listing as banned. */
  predicate Unknown(st: State, key: string) {
    key !in st.bans && key !in st.active
  }

  lemma HostKeysDiffer(lib: IpLib, a: Address, b: Address)
    requires lib.Sound() && lib.hostKey(a) == lib.hostKey(b)
    ensures a == b
  {
    assert lib.parse(lib.hostKey(a)) == HostNet(a) && lib.parse(lib.hostKey(b)) == HostNet(b);
  }

  lemma {:induction false} UnbanAllUnknown(lib: IpLib, st: State, keys: seq<string>, key: string)
    requires Unknown(st, key)
    ensures Unknown(UnbanAll(lib, st, keys), key) && UnbanAll(lib, st, keys).whitelist == st.whitelist
    decreases |keys|
  {
    if keys != [] {
      UnbanAllUnknown(lib, UnbanStep(lib, st, keys[0]), keys[1..], key);
    }
  }

  lemma {:induction false} PurgeAllUnknown(lib: IpLib, st: State, keys: seq<string>, clock: string -> real, key: string)
    requires Unknown(st, key)
    ensures Unknown(PurgeAll(lib, st, keys, clock), key) && PurgeAll(lib, st, keys, clock).whitelist == st.whitelist
    decreases |keys|
  {
    if keys != [] {
      PurgeAllUnknown(lib, PurgeOne(lib, st, keys[0], clock(keys[0])), keys[1..], clock, key);
    }
  }

  lemma StepLeavesUnknown(lib: IpLib, st: State, e: Event, a: Address)
    requires lib.Sound() && Ranges(lib) && Unknown(st, lib.hostKey(a)) && Inside(lib, st.whitelist, a)
    ensures Unknown(Step(lib, st, e), lib.hostKey(a))
    ensures Step(lib, st, e).whitelist == if e.Whitelist? then e.entries else st.whitelist
  {
    match e
    case Attempt(b, now, now2) =>
      if lib.hostKey(b) == lib.hostKey(a) {
        HostKeysDiffer(lib, a, b);
        AttemptIsHeardIff(lib, st, b, now, now2);
      }
    case Autopurge(queued, keys, clock) =>
      UnbanAllUnknown(lib, st, queued, lib.hostKey(a));
      PurgeAllUnknown(lib, UnbanAll(lib, st, queued), keys, clock, lib.hostKey(a));
    case Blacklist(entries, added, removed) => BlacklistFrame(lib, st, entries, added, removed);
    case _ =>
  }

  /** In no run is an address that stays inside the whitelist ever recorded or listed as banned. */
  lemma {:induction false} InsideIsNeverBanned(lib: IpLib, st: State, events: seq<Event>, a: Address)
    requires lib.Sound() && Ranges(lib) && StaysInside(lib, st, events, a) && Unknown(st, lib.hostKey(a))
    ensures Unknown(Run(lib, st, events), lib.hostKey(a))
    decreases |events|
  {
    if events != [] {
      StepLeavesUnknown(lib, st, events[0], a);
      assert forall i :: 0 <= i < |events[1..]| ==> events[1..][i] == events[i + 1];
      InsideIsNeverBanned(lib, Step(lib, st, events[0]), events[1..], a);
    }
  }
}
