/** What the rows of the tables mean to an expansion: an address's own alias comes before its domain's catch-all, the
    catch-all before the alias domain, and only the recipient ever uses a catch-all. */
module AliasPrecedence {
  import opened Text
  import opened AliasExpansion

  /** A valid address with one `@`, in a managed domain. */
  predicate IsAddress(s: Snapshot, local: string, domain: string) {
    && s.isEmail(local + "@" + domain) && '@' !in local && '@' !in domain
    && domain in s.domainMap && s.domainMap[domain] != ""
  }

  /** The active alias row of an address lists exactly these gotos. */
  predicate HasGotos(s: Snapshot, address: string, gotos: seq<string>) {
    && address in s.aliases && s.aliases[address].active
    && gotos != [] && (forall g :: g in gotos ==> ',' !in g) && gotos != [""]
    && s.aliases[address].goto == Join(gotos, ',')
  }

  /** No alias row of the address counts: none there, inactive, or without a goto. */
  predicate ListsNothing(s: Snapshot, address: string) {
    address in s.aliases ==> !s.aliases[address].active || s.aliases[address].goto == ""
  }

  predicate LeadsTo(s: Snapshot, domain: string, target: string) {
    target != "" && domain in s.aliasDomains && s.aliasDomains[domain] == AliasDomain(target, true)
  }

  predicate LeadsNowhere(s: Snapshot, domain: string) {
    domain in s.aliasDomains ==> !s.aliasDomains[domain].active || s.aliasDomains[domain].target == ""
  }

  lemma SplitAddress(local: string, domain: string)
    requires '@' !in local && '@' !in domain
    ensures Split(local + "@" + domain, '@') == [local, domain]
  {
    SplitJoin([local, domain], '@');
    assert Join([local, domain], '@') == local + ['@'] + domain;
  }

  lemma JoinIsEmpty(gotos: seq<string>)
    requires gotos != []
    ensures Join(gotos, ',') == "" <==> gotos == [""]
  {
    if |gotos| > 1 {
      assert Join(gotos, ',')[|gotos[0]|] == ',';
    }
  }

  lemma GotoListed(s: Snapshot, address: string, gotos: seq<string>)
    requires HasGotos(s, address, gotos)
    ensures s.GotoOf(address) != "" && Split(s.GotoOf(address), ',') == gotos
  {
    JoinIsEmpty(gotos);
    SplitJoin(gotos, ',');
  }

  // ---- the recipient ----

  /** An address with an alias of its own starts from the gotos of that row, whatever catch-all and alias domain there
      are. */
  lemma OwnAliasFirst(s: Snapshot, local: string, domain: string, gotos: seq<string>)
    requires IsAddress(s, local, domain) && HasGotos(s, local + "@" + domain, gotos)
    ensures s.InitialGotos(local + "@" + domain) == Success(gotos)
  {
    SplitAddress(local, domain);
    GotoListed(s, local + "@" + domain, gotos);
  }

  /** Without one it starts from the gotos of the domain's catch-all, whatever alias domain there is. */
  lemma CatchAllSecond(s: Snapshot, local: string, domain: string, gotos: seq<string>)
    requires IsAddress(s, local, domain) && ListsNothing(s, local + "@" + domain) && HasGotos(s, "@" + domain, gotos)
    ensures s.InitialGotos(local + "@" + domain) == Success(gotos)
  {
    SplitAddress(local, domain);
    GotoListed(s, "@" + domain, gotos);
  }

  /** Without either it starts from the same local part at the target of the alias domain, or from nowhere. */
  lemma AliasDomainThird(s: Snapshot, local: string, domain: string, target: string)
    requires IsAddress(s, local, domain)
    requires ListsNothing(s, local + "@" + domain) && ListsNothing(s, "@" + domain)
    ensures LeadsTo(s, domain, target) ==> s.InitialGotos(local + "@" + domain) == Success([local + "@" + target])
    ensures LeadsNowhere(s, domain) ==> s.InitialGotos(local + "@" + domain) == Success([])
  {
    SplitAddress(local, domain);
  }

  /** The lookup raises for what is no valid address, and for one in a domain that is not managed. */
  lemma LookupErrors(s: Snapshot, local: string, domain: string)
    requires '@' !in local && '@' !in domain
    ensures var email := local + "@" + domain;
            s.InitialGotos(email).Failure? ==>
            s.InitialGotos(email) == Failure(if s.isEmail(email) then DomainNotFound(domain) else InvalidEmail(email))
  {
    SplitAddress(local, domain);
  }

  ghost predicate AddressOf(s: Snapshot, email: string, local: string, domain: string) {
    email == local + "@" + domain && IsAddress(s, local, domain)
  }

  /** It succeeds exactly for valid addresses with one `@` in a managed domain. */
  lemma LookupSucceedsIff(s: Snapshot, email: string)
    ensures s.InitialGotos(email).Success? <==> exists local, domain :: AddressOf(s, email, local, domain)
    ensures !s.isEmail(email) ==> s.InitialGotos(email) == Failure(InvalidEmail(email))
  {
    if local, domain :| AddressOf(s, email, local, domain) {
      SplitAddress(local, domain);
    }
    if s.InitialGotos(email).Success? {
      var parts := Split(email, '@');
      assert parts == [parts[0], parts[1]] && Join(parts, '@') == parts[0] + "@" + parts[1];
      assert parts[0] in parts && parts[1] in parts;
      assert AddressOf(s, email, parts[0], parts[1]);
    }
  }

  // ---- the gotos met on the way ----

  /** A goto with an alias of its own leads to the gotos of that row; without one, to the same local part at the target
      of its alias domain, or nowhere. */
  lemma GotoLeadsOn(s: Snapshot, local: string, domain: string, gotos: seq<string>, target: string)
    requires IsAddress(s, local, domain)
    ensures HasGotos(s, local + "@" + domain, gotos) ==> s.Expand(local + "@" + domain) == Success(gotos)
    ensures ListsNothing(s, local + "@" + domain) && LeadsTo(s, domain, target) ==>
              s.Expand(local + "@" + domain) == Success([local + "@" + target])
    ensures ListsNothing(s, local + "@" + domain) && LeadsNowhere(s, domain) ==>
              s.Expand(local + "@" + domain) == Success([])
  {
    SplitAddress(local, domain);
    if HasGotos(s, local + "@" + domain, gotos) {
      GotoListed(s, local + "@" + domain, gotos);
    }
  }

  /** A goto that is no valid address, or in a domain that is not managed, leads nowhere; only one with another number
      of `@` raises. */
  lemma GotoLeadsNowhere(s: Snapshot, goto: string)
    ensures !s.isEmail(goto) ==> s.Expand(goto) == Success([])
    ensures s.isEmail(goto) && |Split(goto, '@')| == 2 && !s.IsManaged(Split(goto, '@')[1]) ==>
              s.Expand(goto) == Success([])
    ensures s.Expand(goto).Failure? <==> s.isEmail(goto) && |Split(goto, '@')| != 2
  {
  }

  /** The search ends at the usernames of active mailboxes. */
  lemma EndsAtActiveMailboxes(s: Snapshot, x: string)
    ensures s.GotoGraph().isMailbox(x) <==> x != "" && x in s.mailboxes && s.mailboxes[x] == true
  {
  }

  // ---- independence, up to the answer ----

  predicate IsCatchAll(address: string) {
    address != "" && address[0] == '@'
  }

  function RowOf(s: Snapshot, address: string): Option<Alias> {
    if address in s.aliases then Some(s.aliases[address]) else None
  }

  /** Two snapshots that differ at most in the catch-all rows. */
  ghost predicate SameButCatchAlls(s1: Snapshot, s2: Snapshot) {
    && s1.(aliases := s2.aliases) == s2
    && forall a :: !IsCatchAll(a) ==> RowOf(s1, a) == RowOf(s2, a)
  }

  /** No valid address has an empty local part. */
  ghost predicate NeedsLocalPart(s: Snapshot) {
    forall x :: IsCatchAll(x) ==> !s.isEmail(x)
  }

  /** The gotos met on the way never use a catch-all. */
  lemma CatchAllIsForRecipients(s1: Snapshot, s2: Snapshot, goto: string)
    requires SameButCatchAlls(s1, s2) && NeedsLocalPart(s1)
    ensures s1.Expand(goto) == s2.Expand(goto)
  {
    if s1.isEmail(goto) {
      assert RowOf(s1, goto) == RowOf(s2, goto);
    }
  }

  lemma SameGraphs(s1: Snapshot, s2: Snapshot)
    requires SameButCatchAlls(s1, s2) && NeedsLocalPart(s1)
    ensures s1.GotoGraph().SameUpToOrder(s2.GotoGraph())
  {
    var g1, g2 := s1.GotoGraph(), s2.GotoGraph();
    forall x
      ensures (g1.isMailbox(x) <==> g2.isMailbox(x)) && (g1.Breaks(x) <==> g2.Breaks(x)) && g1.SameMembers(g2, x)
    {
      CatchAllIsForRecipients(s1, s2, x);
    }
  }

  /** The answer for an address with an alias of its own does not depend on any catch-all. */
  lemma OwnAliasDecides(s1: Snapshot, s2: Snapshot, local: string, domain: string, gotos: seq<string>, n: int,
        r1: Result<string>, r2: Result<string>)
    requires SameButCatchAlls(s1, s2) && NeedsLocalPart(s1)
    requires IsAddress(s1, local, domain) && HasGotos(s1, local + "@" + domain, gotos)
    requires s1.GotoGraph().IsAnswer(s1.GotoGraph().Within(gotos, n), r1)
    requires s2.GotoGraph().IsAnswer(s2.GotoGraph().Within(gotos, n), r2)
    ensures s1.InitialGotos(local + "@" + domain) == s2.InitialGotos(local + "@" + domain) == Success(gotos)
    ensures r1 == r2 || (r1.Failure? && r2.Failure?)
  {
    var email := local + "@" + domain;
    var parts := [local, domain];
    SplitAddress(local, domain);
    assert !IsCatchAll(email);
    assert RowOf(s1, email) == RowOf(s2, email);
    OwnAliasFirst(s1, local, domain, gotos);
    OwnAliasFirst(s2, local, domain, gotos);
    SameGraphs(s1, s2);
    s1.GotoGraph().RowOrderIsIrrelevant(s2.GotoGraph(), gotos, n, r1, r2);
  }
}
