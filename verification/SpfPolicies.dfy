/** Evaluation of published policies: zones whose TXT records are printed from terms, and what is returned for them in
    terms of those terms. */
module SpfPolicies {
  import opened Text
  import opened SpfEval
  import opened SpfRecords
  import opened Spf
  import opened SpfTerms

  /** An SPF record, or a TXT record of another kind. */
  datatype Txt = Policy(terms: seq<Term>) | Other(text: string)

  type Policies = map<string, seq<Txt>>

  function PrintAll(terms: seq<Term>): seq<string> {
    seq(|terms|, i requires 0 <= i < |terms| => Print(terms[i]))
  }

  function TxtText(txt: Txt): string {
    if txt.Policy? then Join(["v=spf1"] + PrintAll(txt.terms), ' ') else txt.text
  }

  predicate WellFormedTxt(txt: Txt) {
    if txt.Policy? then forall t :: t in txt.terms ==> WellFormed(t)
    else Words(txt.text) == [] || Words(txt.text)[0] != "v=spf1"
  }

  function TermsOf(txt: Txt): seq<Term> {
    if txt.Policy? then txt.terms else []
  }

  function TxtsOf(p: Policies, domain: string): seq<Txt> {
    if domain in p then p[domain] else []
  }

  /** The zone's TXT records are these policies, printed. */
  ghost predicate Publishes(zone: Zone, p: Policies) {
    && zone.txt.Keys == p.Keys
    && forall d :: d in p ==> PrintedAs(zone.txt[d], p[d])
  }

  ghost predicate PrintedAs(texts: seq<string>, txts: seq<Txt>) {
    |texts| == |txts| && forall i :: 0 <= i < |txts| ==> WellFormedTxt(txts[i]) && texts[i] == TxtText(txts[i])
  }

  // ---- reading records back ----

  lemma PrintIsWord(t: Term)
    requires WellFormed(t)
    ensures IsWord(Print(t))
  {
    if t.Mechanism? {
      var name := KindName(t.kind);
      NameIsWord(t.kind);
      TailHasNoSpace(t.target, t.cidr);
      if t.target.Some? {
        NoSpaces(name, [':']);
        NoSpaces(name + [':'], Tail(t.target, t.cidr));
      } else {
        NoSpaces(name, Tail(t.target, t.cidr));
      }
    } else {
      NoSpaces(t.name, ['=']);
      NoSpaces(t.name + ['='], t.value);
    }
    assert NoSpace(Sign(t.qualifier));
    NoSpaces(Sign(t.qualifier), Body(t));
  }

  lemma NameIsWord(k: Kind)
    requires k.Unknown? ==> UnknownName(k.name)
    ensures KindName(k) != "" && NoSpace(KindName(k))
  {
  }

  lemma NoSpaces(a: string, b: string)
    requires NoSpace(a) && NoSpace(b)
    ensures NoSpace(a + b)
  {
  }

  lemma TailHasNoSpace(target: Option<string>, cidr: Option<string>)
    requires (target.Some? ==> NoSpace(target.value)) && (cidr.Some? ==> NoSpace(cidr.value))
    ensures NoSpace(Tail(target, cidr))
  {
    var head := if target.Some? then target.value else "";
    NoSpaces(head, ['/']);
    if cidr.Some? {
      NoSpaces(head + ['/'], cidr.value);
    }
  }

  /** A printed record is read back term by term; any other record has no terms. */
  lemma RecordIsRead(zone: Zone, domain: string, txt: Txt)
    requires WellFormedTxt(txt)
    ensures ReadRecord(zone, domain, TxtText(txt)) == JudgeAll(zone, domain, PrintAll(TermsOf(txt)))
  {
    if txt.Policy? {
      var words := ["v=spf1"] + PrintAll(txt.terms);
      forall w | w in words ensures IsWord(w) {
        if w != "v=spf1" {
          var i :| 0 <= i < |txt.terms| && w == Print(txt.terms[i]);
          PrintIsWord(txt.terms[i]);
        }
      }
      WordsOfJoin(words);
      assert words[1..] == PrintAll(txt.terms);
    }
  }

  // ---- positions ----

  ghost predicate LiveTerm(txts: seq<Txt>, i: int, j: int) {
    && 0 <= i < |txts| && 0 <= j < |TermsOf(txts[i])|
    && forall k :: 0 <= k <= j ==> !Stops(TermsOf(txts[i])[k])
  }

  function TermAt(txts: seq<Txt>, i: int, j: int): Term
    requires 0 <= i < |txts| && 0 <= j < |TermsOf(txts[i])|
  {
    TermsOf(txts[i])[j]
  }

  /** Live, with no live redirect before it. */
  ghost predicate ReachedTerm(txts: seq<Txt>, i: int, j: int) {
    && LiveTerm(txts, i, j)
    && forall i2, j2 :: LiveTerm(txts, i2, j2) && Earlier(i2, j2, i, j) ==> !Redirects(TermAt(txts, i2, j2))
  }

  ghost predicate FirstRedirect(txts: seq<Txt>, i: int, j: int) {
    ReachedTerm(txts, i, j) && Redirects(TermAt(txts, i, j))
  }

  ghost predicate NoRedirect(txts: seq<Txt>) {
    forall i, j :: LiveTerm(txts, i, j) ==> !Redirects(TermAt(txts, i, j))
  }

  lemma TxtsAreRead(zone: Zone, p: Policies, domain: string)
    requires Publishes(zone, p)
    ensures var records, txts := Records(zone, domain), TxtsOf(p, domain);
            && |records| == |txts|
            && forall i :: 0 <= i < |txts| ==>
                 WellFormedTxt(txts[i]) && records[i] == JudgeAll(zone, domain, PrintAll(TermsOf(txts[i])))
  {
    var txts := TxtsOf(p, domain);
    RecordsByTxt(zone, domain);
    forall i | 0 <= i < |txts|
      ensures WellFormedTxt(txts[i]) && Records(zone, domain)[i] == JudgeAll(zone, domain, PrintAll(TermsOf(txts[i])))
    {
      assert PrintedAs(zone.txt[domain], p[domain]);
      RecordIsRead(zone, domain, txts[i]);
    }
  }

  /** The verdict at a position is that of the term there. */
  lemma PositionMeans(zone: Zone, p: Policies, domain: string, i: int, j: int)
    requires Publishes(zone, p)
    ensures var records, txts := Records(zone, domain), TxtsOf(p, domain);
            && (0 <= i < |records| && 0 <= j < |records[i]| <==> 0 <= i < |txts| && 0 <= j < |TermsOf(txts[i])|)
            && (0 <= i < |records| && 0 <= j < |records[i]| ==>
                  && WellFormed(TermAt(txts, i, j))
                  && records[i][j] == Judge(zone, domain, Print(TermAt(txts, i, j)))
                  && (records[i][j].Stop? <==> Stops(TermAt(txts, i, j))))
  {
    var txts := TxtsOf(p, domain);
    TxtsAreRead(zone, p, domain);
    if 0 <= i < |txts| && 0 <= j < |TermsOf(txts[i])| {
      assert TermAt(txts, i, j) in txts[i].terms;
      JudgeMeans(zone, domain, TermAt(txts, i, j));
    }
  }

  lemma LiveAlike(zone: Zone, p: Policies, domain: string, i: int, j: int)
    requires Publishes(zone, p)
    ensures LiveAt(Records(zone, domain), i, j) <==> LiveTerm(TxtsOf(p, domain), i, j)
  {
    var txts := TxtsOf(p, domain);
    PositionMeans(zone, p, domain, i, j);
    if 0 <= i < |txts| && 0 <= j < |TermsOf(txts[i])| {
      forall k | 0 <= k <= j ensures Records(zone, domain)[i][k].Stop? <==> Stops(TermsOf(txts[i])[k]) {
        PositionMeans(zone, p, domain, i, k);
      }
    }
  }

  /** What the verdict on a term that does not stop says. */
  predicate VerdictOf(zone: Zone, domain: string, t: Term, v: Verdict) {
    && (v.RedirectTo? <==> Redirects(t))
    && (Redirects(t) ==> v == RedirectTo(t.value))
    && (v.Do? <==> t.Mechanism?)
    && (t.Mechanism? ==> v == Do(ActionOf(zone, domain, Print(t))))
  }

  /** Live positions are the same, and what stands there. */
  lemma LiveMeans(zone: Zone, p: Policies, domain: string, i: int, j: int)
    requires Publishes(zone, p)
    ensures LiveAt(Records(zone, domain), i, j) <==> LiveTerm(TxtsOf(p, domain), i, j)
    ensures LiveAt(Records(zone, domain), i, j) ==>
              var t := TermAt(TxtsOf(p, domain), i, j);
              WellFormed(t) && !Stops(t) && VerdictOf(zone, domain, t, Records(zone, domain)[i][j])
  {
    LiveAlike(zone, p, domain, i, j);
    if LiveTerm(TxtsOf(p, domain), i, j) {
      PositionMeans(zone, p, domain, i, j);
      JudgeMeans(zone, domain, TermAt(TxtsOf(p, domain), i, j));
    }
  }

  lemma ReachedMeans(zone: Zone, p: Policies, domain: string, i: int, j: int)
    requires Publishes(zone, p)
    ensures ReachedAt(Records(zone, domain), i, j) <==> ReachedTerm(TxtsOf(p, domain), i, j)
  {
    LiveMeans(zone, p, domain, i, j);
    forall i2, j2
      ensures LiveAt(Records(zone, domain), i2, j2) <==> LiveTerm(TxtsOf(p, domain), i2, j2)
      ensures LiveAt(Records(zone, domain), i2, j2) ==>
                (Records(zone, domain)[i2][j2].RedirectTo? <==> Redirects(TermAt(TxtsOf(p, domain), i2, j2)))
    {
      LiveMeans(zone, p, domain, i2, j2);
    }
  }

  // ---- plans ----

  ghost predicate ReachedAction(zone: Zone, p: Policies, domain: string, action: Action) {
    exists i, j :: ReachedTerm(TxtsOf(p, domain), i, j) && TermAt(TxtsOf(p, domain), i, j).Mechanism? &&
      ActionOf(zone, domain, Print(TermAt(TxtsOf(p, domain), i, j))) == action
  }

  /** The mechanisms evaluated are those reached. */
  lemma ActionsMean(zone: Zone, p: Policies, domain: string, action: Action)
    requires Publishes(zone, p)
    ensures action in NetOf(zone).plan(domain).actions <==> ReachedAction(zone, p, domain, action)
  {
    var records, txts := Records(zone, domain), TxtsOf(p, domain);
    PlanOfRecords(zone, domain);
    ReachedIsPositional(records, action);
    if i, j :| ReachedAt(records, i, j) && records[i][j] == Do(action) {
      ReachedMeans(zone, p, domain, i, j);
      LiveMeans(zone, p, domain, i, j);
      assert TermAt(txts, i, j).Mechanism?;
    }
    if i, j :| ReachedTerm(txts, i, j) && TermAt(txts, i, j).Mechanism? &&
               ActionOf(zone, domain, Print(TermAt(txts, i, j))) == action {
      ReachedMeans(zone, p, domain, i, j);
      LiveMeans(zone, p, domain, i, j);
      assert ReachedVerdict(records, Do(action));
    }
  }

  /** The redirect followed is the first live one. */
  lemma RedirectMeans(zone: Zone, p: Policies, domain: string, i: int, j: int)
    requires Publishes(zone, p) && FirstRedirect(TxtsOf(p, domain), i, j)
    ensures NetOf(zone).plan(domain).redirect == Some(TermAt(TxtsOf(p, domain), i, j).value)
  {
    var records := Records(zone, domain);
    PlanOfRecords(zone, domain);
    ReachedMeans(zone, p, domain, i, j);
    LiveMeans(zone, p, domain, i, j);
    PlanIsPositional(records, Give([], ""));
    assert LiveVerdict(records, RedirectTo(TermAt(TxtsOf(p, domain), i, j).value));
    var i2, j2 := RedirectIsFirst(records);
    assert !Earlier(i, j, i2, j2) && !Earlier(i2, j2, i, j);
  }

  lemma RedirectExists(zone: Zone, p: Policies, domain: string) returns (i: int, j: int)
    requires Publishes(zone, p) && NetOf(zone).plan(domain).redirect.Some?
    ensures FirstRedirect(TxtsOf(p, domain), i, j)
    ensures NetOf(zone).plan(domain).redirect == Some(TermAt(TxtsOf(p, domain), i, j).value)
  {
    PlanOfRecords(zone, domain);
    i, j := RedirectIsFirst(Records(zone, domain));
    ReachedMeans(zone, p, domain, i, j);
    LiveMeans(zone, p, domain, i, j);
  }

  lemma NoRedirectMeans(zone: Zone, p: Policies, domain: string)
    requires Publishes(zone, p)
    ensures NetOf(zone).plan(domain).redirect.None? <==> NoRedirect(TxtsOf(p, domain))
  {
    var records := Records(zone, domain);
    PlanOfRecords(zone, domain);
    PlanIsPositional(records, Give([], ""));
    if NetOf(zone).plan(domain).redirect.Some? {
      var i, j := RedirectExists(zone, p, domain);
    } else {
      forall i, j | LiveTerm(TxtsOf(p, domain), i, j) ensures !Redirects(TermAt(TxtsOf(p, domain), i, j)) {
        LiveMeans(zone, p, domain, i, j);
        assert LiveVerdict(records, records[i][j]);
      }
    }
  }

  // ---- what a policy allows ----

  /** A finite account of why a host is allowed, by positions of terms. */
  datatype Proof =
    | Listed(i: int, j: int, named: string)
    | Included(i: int, j: int, named: string, sub: Proof)
    | Redirected(i: int, j: int, sub: Proof)

  /** The host with the length of the term that gives it. */
  function WithLength(t: Term, named: string): string
    requires t.Mechanism?
  {
    if t.target.Some? && t.cidr.Some? && t.cidr.value != "" then named + "/" + t.cidr.value else named
  }

  /** An address without a length is spelled out where that is asked for and possible. */
  function Spelled(zone: Zone, text: string, expandIpv6: bool): string {
    if !expandIpv6 || '/' in text || zone.explode(text).None? then text else zone.explode(text).value
  }

  /** A domain with a live redirect allows what the target of the first one allows, addresses spelled out, and nothing
      else. Any other domain allows the hosts its live mechanisms name and those of the domains they include. */
  ghost predicate Proves(zone: Zone, p: Policies, domain: string, expandIpv6: bool, proof: Proof, host: string)
    decreases proof
  {
    var txts := TxtsOf(p, domain);
    match proof
    case Redirected(i, j, sub) =>
      FirstRedirect(txts, i, j) && Proves(zone, p, TermAt(txts, i, j).value, true, sub, host)
    case Listed(i, j, named) =>
      && NoRedirect(txts) && LiveTerm(txts, i, j) && TermAt(txts, i, j).Mechanism?
      && NamesHost(zone, domain, TermAt(txts, i, j), named)
      && host == Spelled(zone, WithLength(TermAt(txts, i, j), named), expandIpv6)
    case Included(i, j, named, sub) =>
      && NoRedirect(txts) && LiveTerm(txts, i, j) && Includes(TermAt(txts, i, j), domain)
      && Proves(zone, p, TermAt(txts, i, j).target.value, false, sub, named)
      && host == Spelled(zone, WithLength(TermAt(txts, i, j), named), expandIpv6)
  }

  ghost predicate Allows(zone: Zone, p: Policies, domain: string, expandIpv6: bool, host: string) {
    exists proof :: Proves(zone, p, domain, expandIpv6, proof, host)
  }

  lemma SpelledAlike(zone: Zone, t: Term, named: string, expandIpv6: bool)
    requires t.Mechanism?
    ensures NetOf(zone).spell(Suffixed(named, Length(t)), expandIpv6) ==
            Spelled(zone, WithLength(t, named), expandIpv6)
  {
    SpellOf(zone, Suffixed(named, Length(t)), expandIpv6);
  }

  lemma LiveIsReached(zone: Zone, p: Policies, domain: string, i: int, j: int)
    requires Publishes(zone, p) && NoRedirect(TxtsOf(p, domain)) && LiveTerm(TxtsOf(p, domain), i, j)
    requires TermAt(TxtsOf(p, domain), i, j).Mechanism?
    ensures ActionOf(zone, domain, Print(TermAt(TxtsOf(p, domain), i, j))) in NetOf(zone).plan(domain).actions
    ensures NetOf(zone).plan(domain).redirect.None?
    ensures WellFormed(TermAt(TxtsOf(p, domain), i, j)) && !Stops(TermAt(TxtsOf(p, domain), i, j))
  {
    LiveMeans(zone, p, domain, i, j);
    NoRedirectMeans(zone, p, domain);
    assert ReachedTerm(TxtsOf(p, domain), i, j);
    ActionsMean(zone, p, domain, ActionOf(zone, domain, Print(TermAt(TxtsOf(p, domain), i, j))));
  }

  lemma ListedChain(zone: Zone, domain: string, expandIpv6: bool, t: Term, named: string) returns (chain: Chain)
    requires t.Mechanism? && WellFormed(t) && !Stops(t) && NamesHost(zone, domain, t, named)
    requires ActionOf(zone, domain, Print(t)) in NetOf(zone).plan(domain).actions
    requires NetOf(zone).plan(domain).redirect.None?
    ensures Derives(NetOf(zone), domain, expandIpv6, chain, Spelled(zone, WithLength(t, named), expandIpv6))
  {
    ActionMeans(zone, domain, t);
    SpelledAlike(zone, t, named, expandIpv6);
    chain := Direct(ActionOf(zone, domain, Print(t)), named);
  }

  lemma IncludedChain(zone: Zone, domain: string, expandIpv6: bool, t: Term, named: string, sub: Chain)
      returns (chain: Chain)
    requires WellFormed(t) && !Stops(t) && Includes(t, domain)
    requires ActionOf(zone, domain, Print(t)) in NetOf(zone).plan(domain).actions
    requires NetOf(zone).plan(domain).redirect.None?
    requires Derives(NetOf(zone), t.target.value, false, sub, named)
    ensures Derives(NetOf(zone), domain, expandIpv6, chain, Spelled(zone, WithLength(t, named), expandIpv6))
  {
    ActionMeans(zone, domain, t);
    SpelledAlike(zone, t, named, expandIpv6);
    chain := Chain.Include(ActionOf(zone, domain, Print(t)), named, sub);
  }

  lemma {:induction false} ProofHasChain(zone: Zone, p: Policies, domain: string, expandIpv6: bool, proof: Proof,
        host: string) returns (chain: Chain)
    requires Publishes(zone, p) && Proves(zone, p, domain, expandIpv6, proof, host)
    ensures Derives(NetOf(zone), domain, expandIpv6, chain, host)
    decreases proof
  {
    var txts := TxtsOf(p, domain);
    var t := TermAt(txts, proof.i, proof.j);
    if proof.Redirected? {
      RedirectMeans(zone, p, domain, proof.i, proof.j);
      var sub := ProofHasChain(zone, p, t.value, true, proof.sub, host);
      chain := Redirect(sub);
    } else {
      LiveIsReached(zone, p, domain, proof.i, proof.j);
      if proof.Listed? {
        chain := ListedChain(zone, domain, expandIpv6, t, proof.named);
      } else {
        var sub := ProofHasChain(zone, p, t.target.value, false, proof.sub, proof.named);
        chain := IncludedChain(zone, domain, expandIpv6, t, proof.named, sub);
      }
    }
  }

  lemma {:induction false} ChainHasProof(zone: Zone, p: Policies, domain: string, expandIpv6: bool, chain: Chain,
        host: string) returns (proof: Proof)
    requires Publishes(zone, p) && Derives(NetOf(zone), domain, expandIpv6, chain, host)
    ensures Proves(zone, p, domain, expandIpv6, proof, host)
    decreases chain
  {
    var txts := TxtsOf(p, domain);
    if chain.Redirect? {
      var i, j := RedirectExists(zone, p, domain);
      var sub := ChainHasProof(zone, p, TermAt(txts, i, j).value, true, chain.sub, host);
      proof := Redirected(i, j, sub);
    } else {
      NoRedirectMeans(zone, p, domain);
      ActionsMean(zone, p, domain, chain.action);
      var i, j :| ReachedTerm(txts, i, j) && TermAt(txts, i, j).Mechanism? &&
                  ActionOf(zone, domain, Print(TermAt(txts, i, j))) == chain.action;
      var t := TermAt(txts, i, j);
      LiveIsReached(zone, p, domain, i, j);
      ActionMeans(zone, domain, t);
      SpelledAlike(zone, t, chain.host, expandIpv6);
      if chain.Direct? {
        proof := Listed(i, j, chain.host);
      } else {
        var sub := ChainHasProof(zone, p, t.target.value, false, chain.sub, chain.host);
        proof := Included(i, j, chain.host, sub);
      }
    }
  }

  // ---- termination ----

  /** Evaluating the domain evaluates the target: a mechanism reached includes it, or the first live redirect leads
      there. */
  ghost predicate LeadsTo(p: Policies, domain: string, target: string) {
    var txts := TxtsOf(p, domain);
    exists i, j :: ReachedTerm(txts, i, j) && TermLeadsTo(TermAt(txts, i, j), domain, target)
  }

  predicate TermLeadsTo(t: Term, domain: string, target: string) {
    if t.Mechanism? then Includes(t, domain) && t.target.value == target else t.name == "redirect" && t.value == target
  }

  lemma EdgeMeans(zone: Zone, p: Policies, domain: string, target: string)
    requires Publishes(zone, p)
    ensures Edge(NetOf(zone), domain, target) <==> LeadsTo(p, domain, target)
  {
    var txts := TxtsOf(p, domain);
    if action :| action in NetOf(zone).plan(domain).actions && action.Follow? && action.target == target {
      ActionsMean(zone, p, domain, action);
      var i, j :| ReachedTerm(txts, i, j) && TermAt(txts, i, j).Mechanism? &&
                  ActionOf(zone, domain, Print(TermAt(txts, i, j))) == action;
      LiveMeans(zone, p, domain, i, j);
      ActionMeans(zone, domain, TermAt(txts, i, j));
      assert TermLeadsTo(TermAt(txts, i, j), domain, target);
    }
    if NetOf(zone).plan(domain).redirect == Some(target) {
      var i, j := RedirectExists(zone, p, domain);
      assert TermLeadsTo(TermAt(txts, i, j), domain, target);
    }
    if i, j :| ReachedTerm(txts, i, j) && TermLeadsTo(TermAt(txts, i, j), domain, target) {
      TermIsEdge(zone, p, domain, target, i, j);
    }
  }

  lemma TermIsEdge(zone: Zone, p: Policies, domain: string, target: string, i: int, j: int)
    requires Publishes(zone, p) && ReachedTerm(TxtsOf(p, domain), i, j)
    requires TermLeadsTo(TermAt(TxtsOf(p, domain), i, j), domain, target)
    ensures Edge(NetOf(zone), domain, target)
  {
    var t := TermAt(TxtsOf(p, domain), i, j);
    LiveMeans(zone, p, domain, i, j);
    if t.Mechanism? {
      ActionMeans(zone, domain, t);
      ActionsMean(zone, p, domain, ActionOf(zone, domain, Print(t)));
    } else {
      RedirectMeans(zone, p, domain, i, j);
    }
  }

  ghost predicate PathOf(p: Policies, path: seq<string>) {
    path != [] && forall i, j :: 0 <= i < |path| - 1 && j == i + 1 ==> LeadsTo(p, path[i], path[j])
  }

  /** No chain of includes and redirects from the domain comes back to a domain it has visited. */
  ghost predicate NeverReturns(p: Policies, domain: string) {
    forall path :: PathOf(p, path) && path[0] == domain ==> NoRepeats(path)
  }

  lemma PathMeans(zone: Zone, p: Policies, path: seq<string>)
    requires Publishes(zone, p)
    ensures IsPath(NetOf(zone), path) <==> PathOf(p, path)
  {
    forall i, j | 0 <= i < |path| - 1 && j == i + 1
      ensures Edge(NetOf(zone), path[i], path[j]) <==> LeadsTo(p, path[i], path[j])
    {
      EdgeMeans(zone, p, path[i], path[j]);
    }
  }

  /** Evaluation of published policies ends exactly when their includes and redirects never return, and then it returns
      exactly the hosts the policies allow. */
  lemma PoliciesAreExact(zone: Zone, p: Policies, domain: string, expandIpv6: bool, depth: nat, host: string)
    requires Publishes(zone, p)
    ensures (exists n :: Allowed(NetOf(zone), domain, expandIpv6, n).Some?) <==> NeverReturns(p, domain)
    ensures Allowed(NetOf(zone), domain, expandIpv6, depth).Some? ==>
              (host in Allowed(NetOf(zone), domain, expandIpv6, depth).value <==>
               Allows(zone, p, domain, expandIpv6, host))
  {
    EvaluationIsExact(zone, domain, expandIpv6, depth, host);
    forall path ensures IsPath(NetOf(zone), path) <==> PathOf(p, path) {
      PathMeans(zone, p, path);
    }
    if chain :| Derives(NetOf(zone), domain, expandIpv6, chain, host) {
      var proof := ChainHasProof(zone, p, domain, expandIpv6, chain, host);
    }
    if proof :| Proves(zone, p, domain, expandIpv6, proof, host) {
      var chain := ProofHasChain(zone, p, domain, expandIpv6, proof, host);
    }
  }
}
