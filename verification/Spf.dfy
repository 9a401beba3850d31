/** SPF evaluation: which hosts a domain's records allow, following includes and redirects through a DNS zone. */
module Spf {
  import opened Text
  import opened SpfEval
  import opened SpfRecords

  /** What DNS answers, and `ipaddress.IPv6Address(host).exploded` (None when it raises). */
  datatype Zone = Zone(
    a: map<string, seq<string>>,
    mx: map<string, seq<string>>,
    txt: map<string, seq<string>>,
    explode: string -> Option<string>)
  {
    function ResolveA(domain: string): seq<string> {
      if domain in a then a[domain] else []
    }

    function ResolveMx(domain: string): seq<string> {
      if domain in mx then mx[domain] else []
    }

    function ResolveTxt(domain: string): seq<string> {
      if domain in txt then txt[domain] else []
    }

    function Spell(host: string, expandIpv6: bool): string {
      if expandIpv6 && '/' !in host && explode(host).Some? then explode(host).value else host
    }
  }

  predicate IsStop(term: string) {
    term != "" && term[0] in {'-', '~'}
  }

  /** The term without a `+` or `?` qualifier. */
  function Unqualified(term: string): string {
    if term != "" && term[0] in {'+', '?'} then term[1..] else term
  }

  predicate IsModifier(term: string) {
    '=' in Unqualified(term)
  }

  predicate IsRedirect(term: string) {
    var t := Unqualified(term);
    '=' in t && t[..IndexOf(t, '=')] == "redirect"
  }

  function RedirectTarget(term: string): string
    requires IsRedirect(term)
  {
    var t := Unqualified(term);
    t[IndexOf(t, '=') + 1..]
  }

  /** A mechanism read at some domain: its name, the domain or address it names, and the text after `/`. */
  datatype Mechanism = Mechanism(name: string, target: string, cidr: string)

  function ReadMechanism(term: string, domain: string): Mechanism {
    var t := Unqualified(term);
    if ':' !in t then Mechanism(t, domain, "")
    else
      var i := IndexOf(t, ':');
      var rest := t[i + 1..];
      if '/' in rest then
        var j := LastIndexOf(rest, '/');
        Mechanism(t[..i], rest[..j], rest[j + 1..])
      else Mechanism(t[..i], rest, "")
  }

  function ConcatA(zone: Zone, names: seq<string>): seq<string> {
    if names == [] then [] else ConcatA(zone, names[..|names| - 1]) + zone.ResolveA(names[|names| - 1])
  }

  function MxHosts(zone: Zone, domain: string): seq<string> {
    Distinct(ConcatA(zone, zone.ResolveMx(domain)))
  }

  /** What a mechanism does at `domain`; only an include of another domain is followed. */
  function ActionOf(zone: Zone, domain: string, term: string): Action {
    var m := ReadMechanism(term, domain);
    if m.name == "include" && m.target != domain then Follow(m.target, m.cidr)
    else if m.name == "a" then Give(zone.ResolveA(m.target), m.cidr)
    else if m.name == "mx" then Give(MxHosts(zone, m.target), m.cidr)
    else if m.name in {"ip4", "ip6"} then Give([m.target], m.cidr)
    else Give([], m.cidr)
  }

  function Judge(zone: Zone, domain: string, term: string): Verdict {
    if IsStop(term) then Stop
    else if IsRedirect(term) then RedirectTo(RedirectTarget(term))
    else if IsModifier(term) then Skip
    else Do(ActionOf(zone, domain, term))
  }

  function JudgeAll(zone: Zone, domain: string, terms: seq<string>): Record {
    seq(|terms|, i requires 0 <= i < |terms| => Judge(zone, domain, terms[i]))
  }

  /** A TXT record as verdicts: only v=spf1 records have any. */
  function ReadRecord(zone: Zone, domain: string, txt: string): Record {
    var words := Words(txt);
    if words == [] || words[0] != "v=spf1" then [] else JudgeAll(zone, domain, words[1..])
  }

  function ReadRecords(zone: Zone, domain: string, txts: seq<string>): seq<Record> {
    seq(|txts|, i requires 0 <= i < |txts| => ReadRecord(zone, domain, txts[i]))
  }

  function Records(zone: Zone, domain: string): seq<Record> {
    ReadRecords(zone, domain, zone.ResolveTxt(domain))
  }

  /** The zone as the evaluation sees it. */
  function NetOf(zone: Zone): Net {
    Net(d => PlanFrom(AllLive(Records(zone, d))), zone.txt.Keys, (h, e) => zone.Spell(h, e))
  }

  lemma NetIsBounded(zone: Zone)
    ensures NetOf(zone).Bounded()
  {
    forall d | d !in zone.txt.Keys ensures NetOf(zone).plan(d) == Plan([], None) {
      assert Records(zone, d) == [];
    }
  }

  lemma RecordsByTxt(zone: Zone, domain: string)
    ensures |Records(zone, domain)| == |zone.ResolveTxt(domain)|
    ensures forall i :: 0 <= i < |zone.ResolveTxt(domain)| ==>
              Records(zone, domain)[i] == ReadRecord(zone, domain, zone.ResolveTxt(domain)[i])
  {
  }

  lemma SpellOf(zone: Zone, host: string, expandIpv6: bool)
    ensures NetOf(zone).spell(host, expandIpv6) == zone.Spell(host, expandIpv6)
  {
  }

  lemma PlanOfRecords(zone: Zone, domain: string)
    ensures NetOf(zone).plan(domain) == PlanFrom(AllLive(Records(zone, domain)))
  {
  }

  lemma AllowedOutcome(net: Net, domain: string, expandIpv6: bool, depth: nat)
    requires depth > 0
    ensures Allowed(net, domain, expandIpv6, depth) ==
            var step := Outcome(net, net.plan(domain), [], depth - 1);
            if step.Return? then step.result else Some(SpellAll(net, Distinct(step.hosts), expandIpv6))
  {
    var hosts := Collect(net, net.plan(domain).actions, depth - 1);
    assert hosts.Some? ==> [] + hosts.value == hosts.value;
  }

  /** What the record loop ends with decides the evaluation. */
  lemma EndOfRecords(net: Net, records: seq<Record>, domain: string, expandIpv6: bool, step: Step, depth: nat)
    requires depth > 0 && net.plan(domain) == PlanFrom(AllLive(records))
    requires ScanAll(net, records, [], depth - 1) == step
    ensures Allowed(net, domain, expandIpv6, depth) ==
            if step.Return? then step.result else Some(SpellAll(net, Distinct(step.hosts), expandIpv6))
  {
    RecordsFollowPlan(net, records, depth - 1);
    AllowedOutcome(net, domain, expandIpv6, depth);
  }

  /** For any zone: evaluation terminates exactly on acyclic includes and redirects, and then returns exactly the
      hosts that a finite chain of live terms derives. */
  lemma EvaluationIsExact(zone: Zone, domain: string, expandIpv6: bool, depth: nat, host: string)
    ensures (exists n :: Allowed(NetOf(zone), domain, expandIpv6, n).Some?) <==> AcyclicFrom(NetOf(zone), domain)
    ensures Allowed(NetOf(zone), domain, expandIpv6, depth).Some? ==>
              (host in Allowed(NetOf(zone), domain, expandIpv6, depth).value <==>
               Derivable(NetOf(zone), domain, expandIpv6, host))
  {
    NetIsBounded(zone);
    TerminatesIffAcyclic(NetOf(zone), domain, expandIpv6);
    if Allowed(NetOf(zone), domain, expandIpv6, depth).Some? {
      ReturnsExactlyDerivable(NetOf(zone), domain, expandIpv6, depth, host);
    }
  }

  lemma TermsAreNotEmpty(txt: string)
    ensures Words(txt) != [] ==> forall k :: 0 <= k < |Words(txt)[1..]| ==> Words(txt)[1..][k] != ""
  {
    if Words(txt) != [] {
      forall k | 0 <= k < |Words(txt)[1..]| ensures Words(txt)[1..][k] != "" {
        WordsAreSolid(txt, k + 1);
      }
    }
  }

  lemma TakeOneMore(hosts: seq<string>, i: nat)
    requires i < |hosts|
    ensures hosts[..i + 1] == hosts[..i] + [hosts[i]]
    ensures forall h :: h in hosts[..i + 1] <==> h in hosts[..i] || h == hosts[i]
  {
  }

  class SPFResolver {
    const zone: Zone

    constructor (zone: Zone)
      ensures this.zone == zone
    {
      this.zone := zone;
    }

    method DeduplicateHosts(hosts: seq<string>, expandIpv6: bool) returns (result: seq<string>)
      ensures result == SpellAll(NetOf(zone), Distinct(hosts), expandIpv6)
    {
      result := [];
      var seen: set<string> := {};
      ghost var net := NetOf(zone);
      for i := 0 to |hosts|
        invariant forall h :: h in seen <==> h in hosts[..i]
        invariant result == SpellAll(net, Distinct(hosts[..i]), expandIpv6)
      {
        var host := hosts[i];
        TakeOneMore(hosts, i);
        DistinctOneMore(hosts[..i], host);
        if host !in seen {
          seen := seen + {host};
          SpellOneMore(net, Distinct(hosts[..i]), host, expandIpv6);
          SpellOf(zone, host, expandIpv6);
          result := result + [zone.Spell(host, expandIpv6)];
        }
      }
      assert hosts[..|hosts|] == hosts;
    }

    method GetMxHosts(domain: string) returns (r: seq<string>)
      ensures r == MxHosts(zone, domain)
    {
      var hosts: seq<string> := [];
      var names := zone.ResolveMx(domain);
      for i := 0 to |names|
        invariant hosts == ConcatA(zone, names[..i])
      {
        assert names[..i + 1][..i] == names[..i];
        hosts := hosts + zone.ResolveA(names[i]);
      }
      assert names[..|names|] == names;
      r := Distinct(hosts);
    }

    method ParseMechanism(term: string, domain: string, depth: nat) returns (r: Option<seq<string>>)
      ensures r == ActionHosts(NetOf(zone), ActionOf(zone, domain, term), depth)
      decreases depth, 1
    {
      var m := ReadMechanism(term, domain);
      var newHosts: seq<string> := [];
      if m.name == "include" && m.target != domain {
        var included := GetSpfAllowedHosts(m.target, false, depth);
        if included.None? {
          return None;
        }
        newHosts := included.value;
      } else if m.name == "a" {
        newHosts := zone.ResolveA(m.target);
      } else if m.name == "mx" {
        newHosts := GetMxHosts(m.target);
      } else if m.name == "ip4" || m.name == "ip6" {
        newHosts := [m.target];
      }
      r := Some(SuffixAll(newHosts, m.cidr));
    }

    /** The inner loop over the terms of one v=spf1 record. */
    method ProcessRecord(domain: string, terms: seq<string>, collected: seq<string>, depth: nat) returns (step: Step)
      requires forall k :: 0 <= k < |terms| ==> terms[k] != ""
      ensures step == Scan(NetOf(zone), JudgeAll(zone, domain, terms), collected, depth)
      decreases depth, 2
    {
      var hosts := collected;
      var j := 0;
      ghost var net, verdicts := NetOf(zone), JudgeAll(zone, domain, terms);
      assert verdicts[0..] == verdicts;
      while j < |terms| && terms[j][0] !in {'-', '~'}
        invariant j <= |terms|
        invariant Scan(net, verdicts[j..], hosts, depth) == Scan(net, verdicts, collected, depth)
      {
        var term := terms[j];
        assert verdicts[j] == Judge(zone, domain, term);
        ScanNextTerm(net, verdicts, j, hosts, depth);
        if IsModifier(term) {
          if IsRedirect(term) {
            var redirected := GetSpfAllowedHosts(RedirectTarget(term), true, depth);
            return Return(redirected);
          }
        } else {
          var more := ParseMechanism(term, domain, depth);
          if more.None? {
            return Return(None);
          }
          hosts := hosts + more.value;
        }
        j := j + 1;
      }
      if j < |terms| {
        assert verdicts[j] == Judge(zone, domain, terms[j]) == Stop;
        ScanNextTerm(net, verdicts, j, hosts, depth);
      }
      return Continue(hosts);
    }

    /** One pass of the outer loop: a record of another kind is skipped. */
    method ProcessTxt(domain: string, txt: string, hosts: seq<string>, depth: nat) returns (step: Step)
      ensures step == Scan(NetOf(zone), ReadRecord(zone, domain, txt), hosts, depth)
      decreases depth, 3
    {
      var parts := Words(txt);
      if parts == [] || parts[0] != "v=spf1" {
        return Continue(hosts);
      }
      TermsAreNotEmpty(txt);
      step := ProcessRecord(domain, parts[1..], hosts, depth);
    }

    /** The outer loop over the TXT records, with the records as verdicts alongside. */
    method ProcessAll(domain: string, txts: seq<string>, depth: nat, ghost records: seq<Record>) returns (step: Step)
      requires |records| == |txts| && forall i :: 0 <= i < |txts| ==> records[i] == ReadRecord(zone, domain, txts[i])
      ensures step == ScanAll(NetOf(zone), records, [], depth)
      decreases depth, 4
    {
      var hosts: seq<string> := [];
      assert records[0..] == records;
      for i := 0 to |txts|
        invariant ScanAll(NetOf(zone), records[i..], hosts, depth) == ScanAll(NetOf(zone), records, [], depth)
      {
        ScanNextRecord(NetOf(zone), records, i, hosts, depth);
        step := ProcessTxt(domain, txts[i], hosts, depth);
        if step.Return? {
          return;
        }
        hosts := step.hosts;
      }
      step := Continue(hosts);
    }

    /** Evaluates the records of a domain, giving up with None at the recursion limit. */
    method GetSpfAllowedHosts(domain: string, expandIpv6: bool, depth: nat) returns (r: Option<seq<string>>)
      ensures r == Allowed(NetOf(zone), domain, expandIpv6, depth)
      decreases depth, 0
    {
      if depth == 0 {
        return None;
      }
      RecordsByTxt(zone, domain);
      var step := ProcessAll(domain, zone.ResolveTxt(domain), depth - 1, Records(zone, domain));
      PlanOfRecords(zone, domain);
      EndOfRecords(NetOf(zone), Records(zone, domain), domain, expandIpv6, step, depth);
      if step.Return? {
        return step.result;
      }
      var result := DeduplicateHosts(step.hosts, expandIpv6);
      r := Some(result);
    }
  }
}
