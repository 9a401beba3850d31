/** SPF terms from their text: what each printed term makes the evaluation do, and the evaluation of whole policies made
    of such terms. */
module SpfTerms {
  import opened Text
  import opened SpfEval
  import opened SpfRecords
  import opened Spf

  datatype Qualifier = Plain | Pass | Neutral | SoftFail | Fail

  datatype Kind = A | Mx | Ip4 | Ip6 | Include | Unknown(name: string)

  /** `+mx:target/cidr`, or `name=value`. */
  datatype Term =
    | Mechanism(qualifier: Qualifier, kind: Kind, target: Option<string>, cidr: Option<string>)
    | Modifier(qualifier: Qualifier, name: string, value: string)

  function Sign(q: Qualifier): string {
    match q
    case Plain => ""
    case Pass => "+"
    case Neutral => "?"
    case SoftFail => "~"
    case Fail => "-"
  }

  function KindName(k: Kind): string {
    match k
    case A => "a"
    case Mx => "mx"
    case Ip4 => "ip4"
    case Ip6 => "ip6"
    case Include => "include"
    case Unknown(name) => name
  }

  /** What follows the name, or the name and a colon. */
  function Tail(target: Option<string>, cidr: Option<string>): string {
    var head := if target.Some? then target.value else "";
    if cidr.Some? then head + ['/'] + cidr.value else head
  }

  function Body(t: Term): string {
    match t
    case Mechanism(_, kind, target, cidr) =>
      if target.Some? then KindName(kind) + [':'] + Tail(target, cidr) else KindName(kind) + Tail(target, cidr)
    case Modifier(_, name, value) => name + ['='] + value
  }

  function Print(t: Term): string {
    Sign(t.qualifier) + Body(t)
  }

  predicate NoSpace(s: string) {
    forall i :: 0 <= i < |s| ==> !IsSpace(s[i])
  }

  predicate Unsigned(s: string) {
    s == "" || s[0] !in {'+', '?', '~', '-'}
  }

  /** The parts hold no delimiter that would be read as another part. */
  predicate WellFormed(t: Term) {
    match t
    case Mechanism(_, kind, target, cidr) =>
      && (kind.Unknown? ==> UnknownName(kind.name))
      && (target.Some? ==> NoSpace(target.value) && '=' !in target.value && (cidr.None? ==> '/' !in target.value))
      && (cidr.Some? ==> NoSpace(cidr.value) && '=' !in cidr.value && ':' !in cidr.value && '/' !in cidr.value)
    case Modifier(_, name, value) => NoSpace(name) && NoSpace(value) && '=' !in name && Unsigned(name)
  }

  predicate UnknownName(name: string) {
    && name !in {"", "a", "mx", "ip4", "ip6", "include"}
    && NoSpace(name) && Unsigned(name) && '=' !in name && ':' !in name && '/' !in name
  }

  // ---- what a term means ----

  predicate Stops(t: Term) {
    t.qualifier.SoftFail? || t.qualifier.Fail?
  }

  predicate Redirects(t: Term) {
    t.Modifier? && t.name == "redirect"
  }

  function TargetAt(t: Term, domain: string): string
    requires t.Mechanism?
  {
    if t.target.Some? then t.target.value else domain
  }

  predicate HasAddress(zone: Zone, domain: string, host: string) {
    domain in zone.a && host in zone.a[domain]
  }

  ghost predicate ExchangerHas(zone: Zone, domain: string, host: string) {
    domain in zone.mx && exists x :: x in zone.mx[domain] && HasAddress(zone, x, host)
  }

  /** The term itself names the host: an address of its target, an address of one of its target's exchangers, or the
      text. A length after `/` without a target is not understood, and the term then names nothing. */
  ghost predicate NamesHost(zone: Zone, domain: string, t: Term, host: string)
    requires t.Mechanism?
  {
    && (t.target.None? ==> t.cidr.None?)
    && match t.kind
       case A => HasAddress(zone, TargetAt(t, domain), host)
       case Mx => ExchangerHas(zone, TargetAt(t, domain), host)
       case Ip4 => host == TargetAt(t, domain)
       case Ip6 => host == TargetAt(t, domain)
       case _ => false
  }

  /** The term includes another domain. */
  predicate Includes(t: Term, domain: string) {
    t.Mechanism? && t.kind.Include? && t.target.Some? && t.target.value != domain
  }

  /** The length appended to the hosts; an empty one is not. */
  function Length(t: Term): string
    requires t.Mechanism?
  {
    if t.cidr.Some? && t.target.Some? then t.cidr.value else ""
  }

  // ---- reading the printed text ----

  lemma BodyIsUnsigned(t: Term)
    requires WellFormed(t)
    ensures Unsigned(Body(t))
  {
    if t.Mechanism? {
      assert KindName(t.kind) != "" && Body(t)[0] == KindName(t.kind)[0];
    } else if t.name != "" {
      assert Body(t)[0] == t.name[0];
    }
  }

  lemma SignIsRead(t: Term)
    requires WellFormed(t)
    ensures IsStop(Print(t)) <==> Stops(t)
    ensures !Stops(t) ==> Unqualified(Print(t)) == Body(t)
  {
    BodyIsUnsigned(t);
    if t.qualifier.Plain? {
      assert Print(t) == Body(t);
    } else {
      assert Print(t)[0] == Sign(t.qualifier)[0] && Print(t)[1..] == Body(t);
    }
  }

  lemma ModifierIsRead(t: Term)
    requires WellFormed(t) && t.Modifier? && !Stops(t)
    ensures IsModifier(Print(t))
    ensures IsRedirect(Print(t)) <==> Redirects(t)
    ensures Redirects(t) ==> RedirectTarget(Print(t)) == t.value
  {
    SignIsRead(t);
    assert Body(t)[|t.name|] == '=';
    FirstAfterPrefix(t.name, '=', t.value);
  }

  lemma NameIsPlain(k: Kind)
    requires k.Unknown? ==> UnknownName(k.name)
    ensures ':' !in KindName(k) && '=' !in KindName(k) && '/' !in KindName(k)
  {
  }

  lemma Absent(c: char, a: string, b: string)
    requires c !in a && c !in b
    ensures c !in a + b
  {
  }

  lemma TailLacks(c: char, target: Option<string>, cidr: Option<string>)
    requires c != '/' && (target.Some? ==> c !in target.value) && (cidr.Some? ==> c !in cidr.value)
    ensures c !in Tail(target, cidr)
  {
    if cidr.Some? {
      var head := if target.Some? then target.value else "";
      Absent(c, head, ['/']);
      Absent(c, head + ['/'], cidr.value);
    }
  }

  lemma BodyIsNoModifier(t: Term)
    requires WellFormed(t) && t.Mechanism?
    ensures '=' !in Body(t)
  {
    var name := KindName(t.kind);
    NameIsPlain(t.kind);
    TailLacks('=', t.target, t.cidr);
    if t.target.Some? {
      Absent('=', name, [':']);
      Absent('=', name + [':'], Tail(t.target, t.cidr));
    } else {
      Absent('=', name, Tail(t.target, t.cidr));
    }
  }

  lemma {:induction false} LastAfter(p: string, c: char, t: string)
    requires c !in t
    ensures c in p + [c] + t && LastIndexOf(p + [c] + t, c) == |p|
    ensures (p + [c] + t)[..|p|] == p && (p + [c] + t)[|p| + 1..] == t
    decreases |t|
  {
    var s := p + [c] + t;
    assert s[|p|] == c;
    if t != "" {
      assert s[|s| - 1] == t[|t| - 1];
      assert s[..|s| - 1] == p + [c] + t[..|t| - 1];
      LastAfter(p, c, t[..|t| - 1]);
    }
  }

  lemma TargetIsRead(term: string, name: string, target: string, cidr: Option<string>, domain: string)
    requires ':' !in name && Unqualified(term) == name + [':'] + Tail(Some(target), cidr)
    requires if cidr.Some? then '/' !in cidr.value else '/' !in target
    ensures ReadMechanism(term, domain) ==
            Mechanism.Mechanism(name, target, if cidr.Some? then cidr.value else "")
  {
    var rest := Tail(Some(target), cidr);
    assert Unqualified(term)[|name|] == ':';
    FirstAfterPrefix(name, ':', rest);
    if cidr.Some? {
      LastAfter(target, '/', cidr.value);
    }
  }

  /** A mechanism with a target is read into its three parts; without one, the whole text is its name. */
  lemma MechanismIsRead(t: Term, domain: string)
    requires WellFormed(t) && t.Mechanism? && !Stops(t)
    ensures !IsModifier(Print(t))
    ensures ReadMechanism(Print(t), domain) ==
            if t.target.Some? then Mechanism.Mechanism(KindName(t.kind), t.target.value, Length(t))
            else Mechanism.Mechanism(KindName(t.kind) + Tail(None, t.cidr), domain, "")
  {
    SignIsRead(t);
    BodyIsNoModifier(t);
    NameIsPlain(t.kind);
    if t.target.Some? {
      TargetIsRead(Print(t), KindName(t.kind), t.target.value, t.cidr, domain);
    } else {
      TailLacks(':', None, t.cidr);
      Absent(':', KindName(t.kind), Tail(None, t.cidr));
    }
  }

  // ---- what it makes the evaluation do ----

  lemma {:induction false} ConcatMembers(zone: Zone, names: seq<string>, host: string)
    ensures host in ConcatA(zone, names) <==> exists x :: x in names && HasAddress(zone, x, host)
  {
    if names != [] {
      var front, last := names[..|names| - 1], names[|names| - 1];
      assert names == front + [last];
      ConcatMembers(zone, front, host);
      if HasAddress(zone, last, host) {
        assert last in names;
      }
    }
  }

  /** Deduplicated or not, the hosts of `mx` are the addresses of the exchangers. */
  lemma MxHostsMean(zone: Zone, domain: string, host: string)
    ensures host in MxHosts(zone, domain) <==> ExchangerHas(zone, domain, host)
  {
    DistinctKeepsOne(ConcatA(zone, zone.ResolveMx(domain)));
    ConcatMembers(zone, zone.ResolveMx(domain), host);
  }

  lemma KnownNames(k: Kind)
    requires k.Unknown? ==> UnknownName(k.name)
    ensures KindName(k) == "include" <==> k.Include?
    ensures KindName(k) == "a" <==> k.A?
    ensures KindName(k) == "mx" <==> k.Mx?
    ensures KindName(k) in {"ip4", "ip6"} <==> k.Ip4? || k.Ip6?
  {
    assert "a"[0] != "mx"[0] && "mx"[0] != "ip4"[0] && "include"[1] != "ip4"[1] && "include"[0] != "a"[0];
    assert |"mx"| < |"ip4"| == |"ip6"| < |"include"|;
  }

  lemma SlashedIsUnknown(name: string)
    requires '/' in name
    ensures name !in {"include", "a", "mx", "ip4", "ip6"}
  {
  }

  /** A mechanism follows the domain it includes, or gives exactly the hosts it names, with its length. */
  lemma ActionMeans(zone: Zone, domain: string, t: Term)
    requires WellFormed(t) && t.Mechanism? && !Stops(t)
    ensures var action := ActionOf(zone, domain, Print(t));
            if Includes(t, domain) then action == Follow(t.target.value, Length(t))
            else action.Give? && action.cidr == Length(t) &&
                 forall host :: host in action.hosts <==> NamesHost(zone, domain, t, host)
  {
    MechanismIsRead(t, domain);
    KnownNames(t.kind);
    if t.target.None? && t.cidr.Some? {
      var name := KindName(t.kind) + Tail(None, t.cidr);
      assert name[|KindName(t.kind)|] == '/';
      SlashedIsUnknown(name);
    } else if t.target.None? {
      assert KindName(t.kind) + Tail(None, None) == KindName(t.kind);
    }
    forall host ensures host in MxHosts(zone, TargetAt(t, domain)) <==> ExchangerHas(zone, TargetAt(t, domain), host) {
      MxHostsMean(zone, TargetAt(t, domain), host);
    }
  }

  /** What every printed term makes the evaluation do: stop the record, redirect, nothing, or its mechanism. */
  lemma JudgeMeans(zone: Zone, domain: string, t: Term)
    requires WellFormed(t)
    ensures Judge(zone, domain, Print(t)) ==
            if Stops(t) then Stop
            else if Redirects(t) then RedirectTo(t.value)
            else if t.Modifier? then Skip
            else Do(ActionOf(zone, domain, Print(t)))
  {
    SignIsRead(t);
    if !Stops(t) {
      if t.Modifier? {
        ModifierIsRead(t);
      } else {
        MechanismIsRead(t, domain);
      }
    }
  }
}
