/** From which tables no run of accepted transactions can ever exceed a domain's quota. */
module QuotaBudget {
  import opened Text
  import opened Quotas
  import opened QuotaSafety

  ghost predicate FitsAll(t: Tables) {
    forall d :: d in t.domains ==> Fits(t.mailboxes, d, t.domains[d])
  }

  /** Consistent tables, but for the sign of the mailboxes' quotas and usage. */
  ghost predicate Settled(t: Tables) {
    && UniqueUsers(t.mailboxes)
    && (forall row :: row in t.mailboxes ==> row.domain in t.domains)
    && (forall d :: d in t.domains ==> SoundDomain(t.domains[d]))
    && FitsAll(t)
  }

  /** The bare quota an update compares with is one the query can return. */
  ghost predicate Realistic(t: Tables, x: Transaction) {
    x.EditDomain? ==> IsBareQuota(t.mailboxes, x.name, x.bare)
  }

  ghost predicate RealisticRun(t: Tables, xs: seq<Transaction>)
    decreases |xs|
  {
    xs == [] || (Realistic(t, xs[0]) && RealisticRun(Step(t, xs[0]), xs[1..]))
  }

  /** Every run without negative amounts leaves every domain's mailboxes within its limits. */
  ghost predicate AlwaysFits(t: Tables) {
    forall xs :: AllSane(xs) && RealisticRun(t, xs) ==> FitsAll(Run(t, xs))
  }

  lemma FitsLater(t: Tables, x: Transaction)
    requires AlwaysFits(t) && SaneInput(x) && Realistic(t, x)
    ensures AlwaysFits(Step(t, x))
  {
    forall xs | AllSane(xs) && RealisticRun(Step(t, x), xs) ensures FitsAll(Run(Step(t, x), xs)) {
      var longer := [x] + xs;
      assert longer[1..] == xs;
      assert AllSane(longer) && RealisticRun(t, longer);
      assert FitsAll(Run(t, longer));
    }
  }

  lemma FitsNow(t: Tables)
    requires AlwaysFits(t)
    ensures FitsAll(t)
  {
    assert AllSane([]) && RealisticRun(t, []);
    assert FitsAll(Run(t, []));
  }

  // ---- a mailbox of negative quota makes some run exceed the quota ----

  /** The domain holds exactly its quota, and the mailbox goes. */
  lemma DropOverruns(t: Tables, i: nat)
    requires AlwaysFits(t) && UniqueUsers(t.mailboxes) && i < |t.mailboxes|
    requires var row := t.mailboxes[i];
             row.domain in t.domains && QuotaIn(t.mailboxes, row.domain) == t.domains[row.domain].quota
    ensures t.mailboxes[i].quota >= 0
  {
    var row := t.mailboxes[i];
    var x := DropMailbox(row.username);
    DeletionReleases(t.mailboxes, i, row.domain);
    FitsLater(t, x);
    FitsNow(Step(t, x));
    assert Fits(Step(t, x).mailboxes, row.domain, t.domains[row.domain]);
  }

  function Limits(aliases: int, mailboxes: int, max: int, quota: int): DomainUpdate {
    DomainUpdate(Some(aliases), Some(mailboxes), Some(1), Some(max), Some(quota), None, None, None)
  }

  /** An update to limits that cover what the domain holds is accepted: the picked row can be the negative one. */
  lemma LimitsAccepted(t: Tables, row: Mailbox, aliases: int, mailboxes: int, max: int, quota: int)
      returns (x: Transaction, after: Tables)
    requires row in t.mailboxes && row.quota < 0 && row.domain in t.domains && row.domain !in t.targets
    requires 1 <= max <= quota && QuotaIn(t.mailboxes, row.domain) <= quota
    requires CountIn(t.mailboxes, row.domain) <= mailboxes
    requires AliasesIn(t.mailboxes, t.aliases, row.domain) <= aliases
    ensures x == EditDomain(row.domain, Limits(aliases, mailboxes, max, quota), row.quota)
    ensures SaneInput(x) && Realistic(t, x) && after == Step(t, x)
    ensures after.mailboxes == t.mailboxes && after.aliases == t.aliases && after.targets == t.targets
    ensures row.domain in after.domains
    ensures var d := after.domains[row.domain]; d.mailboxes == mailboxes && d.maxquota == max && d.quota == quota
  {
    x := EditDomain(row.domain, Limits(aliases, mailboxes, max, quota), row.quota);
    BareOfRow(t.mailboxes, row.domain, row);
    after := Step(t, x);
  }

  /** The domain holds something, and its quota is lowered to that. */
  lemma LowerOverruns(t: Tables, i: nat)
    requires AlwaysFits(t) && UniqueUsers(t.mailboxes) && i < |t.mailboxes|
    requires var row := t.mailboxes[i];
             row.domain in t.domains && row.domain !in t.targets && QuotaIn(t.mailboxes, row.domain) > 0
    ensures t.mailboxes[i].quota >= 0
  {
    var row := t.mailboxes[i];
    if row.quota < 0 {
      var x, after := LimitsAccepted(t, row, AliasesIn(t.mailboxes, t.aliases, row.domain),
        CountIn(t.mailboxes, row.domain), 1, QuotaIn(t.mailboxes, row.domain));
      FitsLater(t, x);
      DropOverruns(after, i);
    }
  }

  /** A mailbox with a new name. */
  lemma OneNew(t: Tables, d: string, given: Option<int>, quota: int) returns (r: MailboxCreate, after: Tables)
    requires UniqueUsers(t.mailboxes) && d in t.domains && t.aliases == []
    requires CountIn(t.mailboxes, d) < t.domains[d].mailboxes && quota <= t.domains[d].maxquota
    requires QuotaIn(t.mailboxes, d) + quota <= t.domains[d].quota
    requires quota == if given.Some? && given.value != 0 then given.value else t.domains[d].defquota
    ensures r.quota == given && after == Step(t, NewMailbox(r)) && UniqueUsers(after.mailboxes)
    ensures exists row :: after.mailboxes == t.mailboxes + [row] && row.domain == d && row.quota == quota
    ensures after.domains == t.domains && after.targets == t.targets
    ensures QuotaIn(after.mailboxes, d) == QuotaIn(t.mailboxes, d) + quota
  {
    var local := FreshName(t.mailboxes);
    r := MailboxCreate(local, d, given, true, true);
    var row := Mailbox(Username(r), d, quota, 0, true);
    forall other | other in t.mailboxes ensures other.username != row.username {
      assert |other.username| < |row.username|;
    }
    after := OneMore(t, r, row);
  }

  function Max(a: int, b: int): int {
    if a >= b then a else b
  }

  /** The domain's limits are raised and a mailbox is created that makes its sum positive. */
  lemma RaiseOverruns(t: Tables, i: nat)
    requires AlwaysFits(t) && UniqueUsers(t.mailboxes) && i < |t.mailboxes|
    requires t.mailboxes[i].domain in t.domains && t.aliases == [] && t.targets == map[]
    ensures t.mailboxes[i].quota >= 0
  {
    var row, sum := t.mailboxes[i], QuotaIn(t.mailboxes, t.mailboxes[i].domain);
    if row.quota < 0 {
      var size := if sum <= 0 then 1 - sum else 1;
      var x, raised := LimitsAccepted(t, row, 0, CountIn(t.mailboxes, row.domain) + 1, size, size + Max(sum, 0));
      FitsLater(t, x);
      var r, after := OneNew(raised, row.domain, Some(size), size);
      FitsLater(raised, NewMailbox(r));
      assert after.mailboxes[i] == row;
      LowerOverruns(after, i);
    }
  }

  lemma NegativeOverruns(t: Tables, i: nat)
    requires AlwaysFits(t) && UniqueUsers(t.mailboxes) && i < |t.mailboxes| && t.mailboxes[i].domain in t.domains
    ensures t.mailboxes[i].quota >= 0
  {
    var x := Aliases([], map[]);
    FitsLater(t, x);
    RaiseOverruns(Step(t, x), i);
  }

  /** A negative usage lets an edit make the quota negative. */
  lemma UsageOverruns(t: Tables, i: nat)
    requires Settled(t) && AlwaysFits(t) && i < |t.mailboxes|
    ensures t.mailboxes[i].used >= 0
  {
    var row := t.mailboxes[i];
    assert row in t.mailboxes;
    NegativeOverruns(t, i);
    if row.used < 0 {
      var x := EditMailbox(row.username, MailboxUpdate(Some(-1), None, None));
      UserAtFinds(t.mailboxes, row.username);
      assert Fits(t.mailboxes, row.domain, t.domains[row.domain]) && SoundDomain(t.domains[row.domain]);
      FitsLater(t, x);
      NegativeOverruns(Step(t, x), i);
    }
  }

  /** No run of transactions without negative amounts takes a domain over its limits, exactly when no mailbox has a
      negative quota or usage to begin with. */
  lemma BudgetHoldsIff(t: Tables)
    requires Settled(t)
    ensures AlwaysFits(t) <==> NoneNegative(t.mailboxes)
  {
    if AlwaysFits(t) {
      forall row | row in t.mailboxes ensures row.quota >= 0 && row.used >= 0 {
        var i :| 0 <= i < |t.mailboxes| && t.mailboxes[i] == row;
        NegativeOverruns(t, i);
        UsageOverruns(t, i);
      }
    }
    if NoneNegative(t.mailboxes) {
      assert Consistent(t);
      forall xs | AllSane(xs) && RealisticRun(t, xs) ensures FitsAll(Run(t, xs)) {
        EveryRunFits(t, xs);
      }
    }
  }

  // ---- a negative amount, once accepted, makes some later run exceed a limit ----

  /** A negative default quota: a place is made, and a mailbox takes the default. */
  lemma DefaultOverruns(t: Tables, name: string, bare: int)
    requires AlwaysFits(t) && UniqueUsers(t.mailboxes) && name in t.domains && t.aliases == [] && t.targets == map[]
    requires IsBareQuota(t.mailboxes, name, bare)
    ensures t.domains[name].defquota >= 0
  {
    var size := Max(1, Max(bare, QuotaIn(t.mailboxes, name)));
    var places := CountIn(t.mailboxes, name) + 1;
    var u := DomainUpdate(Some(0), Some(places), None, Some(size), Some(size), None, None, None);
    if t.domains[name].defquota < 0 {
      var x := EditDomain(name, u, bare);
      FitsLater(t, x);
      var r, after := OneNew(Step(t, x), name, None, t.domains[name].defquota);
      FitsLater(Step(t, x), NewMailbox(r));
      NegativeOverruns(after, |t.mailboxes|);
    }
  }

  lemma SomeBare(rows: seq<Mailbox>, name: string) returns (bare: int)
    ensures IsBareQuota(rows, name, bare)
  {
    EmptyDomainSums(rows, name);
    if CountIn(rows, name) == 0 {
      bare := 0;
    } else {
      var row :| row in rows && row.domain == name;
      BareOfRow(rows, name, row);
      bare := row.quota;
    }
  }

  lemma NegativeDomainOverruns(t: Tables, name: string)
    requires AlwaysFits(t) && UniqueUsers(t.mailboxes) && name in t.domains
    ensures t.domains[name].defquota >= 0 && t.domains[name].mailboxes >= 0
  {
    FitsNow(t);
    assert Fits(t.mailboxes, name, t.domains[name]);
    var bare := SomeBare(t.mailboxes, name);
    FitsLater(t, Aliases([], map[]));
    DefaultOverruns(Step(t, Aliases([], map[])), name, bare);
  }

  lemma NegativeStepOverruns(t: Tables, x: Transaction)
    requires Consistent(t) && ErrorOf(t, x) == None && AlwaysFits(Step(t, x))
    ensures SaneInput(x)
  {
    var after := Step(t, x);
    if x.NewMailbox? {
      UserAtFinds(t.mailboxes, Username(x.create));
      NegativeOverruns(after, |t.mailboxes|);
    } else if x.NewDomain? {
      NegativeDomainOverruns(after, x.name);
    } else if x.EditDomain? {
      NegativeDomainOverruns(after, x.name);
    }
  }

  /** After a transaction on consistent tables no later run without negative amounts takes a domain over its limits,
      exactly when the transaction was refused or its amounts are not negative. */
  lemma StepKeepsBudgetIff(t: Tables, x: Transaction)
    requires Consistent(t)
    ensures AlwaysFits(Step(t, x)) <==> ErrorOf(t, x).Some? || SaneInput(x)
  {
    if ErrorOf(t, x).Some? || SaneInput(x) {
      StepKeepsIff(t, x);
      BudgetHoldsIff(Step(t, x));
    } else if AlwaysFits(Step(t, x)) {
      NegativeStepOverruns(t, x);
    }
  }

  ghost predicate BudgetThroughout(t: Tables, xs: seq<Transaction>)
    decreases |xs|
  {
    AlwaysFits(t) && (xs == [] || BudgetThroughout(Step(t, xs[0]), xs[1..]))
  }

  /** At every point of a run the budget is safe from then on, exactly when every accepted amount is not negative. */
  lemma {:induction false} RunKeepsBudgetIff(t: Tables, xs: seq<Transaction>)
    requires Consistent(t)
    ensures BudgetThroughout(t, xs) <==> AcceptedAreSane(t, xs)
    decreases |xs|
  {
    BudgetHoldsIff(t);
    if xs != [] {
      StepKeepsBudgetIff(t, xs[0]);
      if AlwaysFits(Step(t, xs[0])) {
        StepKeepsIff(t, xs[0]);
        RunKeepsBudgetIff(Step(t, xs[0]), xs[1..]);
      } else {
        assert !BudgetThroughout(Step(t, xs[0]), xs[1..]);
      }
    }
  }
}
