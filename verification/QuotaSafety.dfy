/** What every run of transactions keeps, and what the advertised limits and deletions mean. */
module QuotaSafety {
  import opened Text
  import opened Gotos
  import opened Quotas

  // ---- sums ----

  lemma {:induction false} AppendSums(rows: seq<Mailbox>, row: Mailbox, d: string)
    ensures CountIn(rows + [row], d) == CountIn(rows, d) + if row.domain == d then 1 else 0
    ensures QuotaIn(rows + [row], d) == QuotaIn(rows, d) + if row.domain == d then row.quota else 0
  {
    if rows == [] {
      assert rows + [row] == [row] && [row][1..] == [];
    } else {
      assert (rows + [row])[1..] == rows[1..] + [row];
      AppendSums(rows[1..], row, d);
    }
  }

  lemma {:induction false} ReplaceSums(rows: seq<Mailbox>, i: nat, row: Mailbox, d: string)
    requires i < |rows| && row.domain == rows[i].domain
    ensures CountIn(rows[i := row], d) == CountIn(rows, d)
    ensures QuotaIn(rows[i := row], d) == QuotaIn(rows, d) + if row.domain == d then row.quota - rows[i].quota else 0
  {
    if i == 0 {
      assert rows[i := row][1..] == rows[1..];
    } else {
      assert rows[i := row][1..] == rows[1..][i - 1 := row];
      ReplaceSums(rows[1..], i - 1, row, d);
    }
  }

  ghost predicate NoneNegative(rows: seq<Mailbox>) {
    forall row :: row in rows ==> row.quota >= 0 && row.used >= 0
  }

  lemma {:induction false} RemoveSums(rows: seq<Mailbox>, username: string, d: string)
    requires NoneNegative(rows)
    ensures CountIn(WithoutUser(rows, username), d) <= CountIn(rows, d)
    ensures QuotaIn(WithoutUser(rows, username), d) <= QuotaIn(rows, d)
  {
    if rows != [] {
      assert forall row :: row in rows[1..] ==> row in rows;
      assert rows[0] in rows;
      RemoveSums(rows[1..], username, d);
      var rest := WithoutUser(rows[1..], username);
      assert ([rows[0]] + rest)[1..] == rest && [] + rest == rest;
    }
  }

  lemma {:induction false} RemoveMembers(rows: seq<Mailbox>, username: string)
    ensures forall row :: row in WithoutUser(rows, username) <==> row in rows && row.username != username
  {
    if rows != [] {
      RemoveMembers(rows[1..], username);
      assert forall row :: row in rows <==> row == rows[0] || row in rows[1..];
    }
  }

  lemma {:induction false} EmptyDomainSums(rows: seq<Mailbox>, d: string)
    ensures CountIn(rows, d) == 0 <==> forall row :: row in rows ==> row.domain != d
    ensures CountIn(rows, d) == 0 ==> QuotaIn(rows, d) == 0
  {
    if rows != [] {
      EmptyDomainSums(rows[1..], d);
      assert forall row :: row in rows <==> row == rows[0] || row in rows[1..];
    }
  }

  // ---- the invariant ----

  /** The limits and flags `_validate_domain_model` leaves behind. */
  predicate SoundDomain(d: Domain) {
    && 0 < d.defquota <= d.maxquota <= d.quota && d.mailboxes >= 0
    && (d.relayAllRecipients ==> d.backupmx) && (d.relayUnknownOnly ==> d.relayAllRecipients)
  }

  predicate Fits(rows: seq<Mailbox>, name: string, d: Domain) {
    QuotaIn(rows, name) <= d.quota && CountIn(rows, name) <= d.mailboxes
  }

  ghost predicate UniqueUsers(rows: seq<Mailbox>) {
    forall i, j :: 0 <= i < j < |rows| ==> rows[i].username != rows[j].username
  }

  /** Usernames are unique, no mailbox is without a domain, and every domain's mailboxes fit its limits. */
  ghost predicate Consistent(t: Tables) {
    && UniqueUsers(t.mailboxes)
    && NoneNegative(t.mailboxes)
    && (forall row :: row in t.mailboxes ==> row.domain in t.domains)
    && (forall d :: d in t.domains ==> SoundDomain(t.domains[d]) && Fits(t.mailboxes, d, t.domains[d]))
  }

  lemma {:induction false} RemoveKeepsUnique(rows: seq<Mailbox>, username: string)
    requires UniqueUsers(rows)
    ensures UniqueUsers(WithoutUser(rows, username))
  {
    if rows != [] {
      var rest := WithoutUser(rows[1..], username);
      RemoveKeepsUnique(rows[1..], username);
      RemoveMembers(rows[1..], username);
      forall row | row in rest ensures row.username != rows[0].username {
        var k :| 0 <= k < |rows[1..]| && rows[1..][k] == row;
        assert rows[k + 1] == row;
      }
      assert UniqueUsers([rows[0]] + rest);
      assert [] + rest == rest;
    }
  }

  lemma CreateMailboxKeeps(t: Tables, r: MailboxCreate)
    requires Consistent(t) && NotNegative(r.quota) && CreateMailboxError(t, r) == None
    ensures Consistent(CreateMailbox(t, r))
  {
    var after := CreateMailbox(t, r);
    var row := after.mailboxes[|t.mailboxes|];
    UserAtFinds(t.mailboxes, Username(r));
    assert SoundDomain(t.domains[r.domain]);
    forall d | d in after.domains ensures Fits(after.mailboxes, d, after.domains[d]) {
      AppendSums(t.mailboxes, row, d);
      assert Fits(t.mailboxes, d, t.domains[d]);
    }
  }

  lemma ReplaceKeeps(t: Tables, i: nat, row: Mailbox, aliases: seq<Alias>)
    requires Consistent(t) && i < |t.mailboxes|
    requires row.username == t.mailboxes[i].username && row.domain == t.mailboxes[i].domain && row.quota >= 0 &&
             row.used >= 0
    requires row.quota <= t.mailboxes[i].quota ||
             QuotaIn(t.mailboxes, row.domain) - t.mailboxes[i].quota + row.quota <= t.domains[row.domain].quota
    ensures Consistent(t.(mailboxes := t.mailboxes[i := row], aliases := aliases))
  {
    var rows := t.mailboxes[i := row];
    assert t.mailboxes[i] in t.mailboxes;
    forall d | d in t.domains ensures Fits(rows, d, t.domains[d]) {
      ReplaceSums(t.mailboxes, i, row, d);
      assert Fits(t.mailboxes, d, t.domains[d]);
    }
    forall r | r in rows ensures r.quota >= 0 && r.used >= 0 && r.domain in t.domains {
      if r != row {
        assert r in t.mailboxes;
      }
    }
  }

  lemma UpdateMailboxKeeps(t: Tables, username: string, u: MailboxUpdate)
    requires Consistent(t) && UpdateMailboxError(t, username, u) == None
    ensures Consistent(UpdateMailbox(t, username, u))
  {
    UserAtFinds(t.mailboxes, username);
    var i := UserAt(t.mailboxes, username).value;
    var row := t.mailboxes[i];
    assert row in t.mailboxes;
    ReplaceKeeps(t, i, row.(quota := Or(u.quota, row.quota), active := Or(u.active, row.active)),
        UpdateMailbox(t, username, u).aliases);
  }

  lemma DeleteMailboxKeeps(t: Tables, username: string)
    requires Consistent(t)
    ensures Consistent(DeleteMailbox(t, username))
  {
    RemoveMembers(t.mailboxes, username);
    RemoveKeepsUnique(t.mailboxes, username);
    forall d | d in t.domains ensures Fits(WithoutUser(t.mailboxes, username), d, t.domains[d]) {
      RemoveSums(t.mailboxes, username, d);
      assert Fits(t.mailboxes, d, t.domains[d]);
    }
  }

  lemma CreateDomainKeeps(t: Tables, name: string, d: Domain)
    requires Consistent(t) && d.mailboxes >= 0 && d.defquota >= 0 && CreateDomainError(t, name, d) == None
    ensures Consistent(CreateDomain(t, name, d))
  {
    EmptyDomainSums(t.mailboxes, name);
    assert Fits(t.mailboxes, name, WithFlags(d));
  }

  lemma UpdateDomainKeeps(t: Tables, name: string, u: DomainUpdate, bare: int)
    requires Consistent(t) && NotNegative(u.defquota) && UpdateDomainError(t, name, u, bare) == None
    ensures Consistent(UpdateDomain(t, name, u))
  {
    var after := UpdateDomain(t, name, u);
    assert SoundDomain(t.domains[Origin(t, name)]);
    assert Fits(after.mailboxes, name, after.domains[name]);
  }

  lemma DeleteDomainKeeps(t: Tables, name: string)
    requires Consistent(t) && CountIn(t.mailboxes, name) == 0
    ensures Consistent(DeleteDomain(t, name))
  {
    EmptyDomainSums(t.mailboxes, name);
  }

  lemma UsageKeeps(t: Tables, username: string, used: nat)
    requires Consistent(t) && HasUser(t.mailboxes, username)
    ensures Consistent(Step(t, Usage(username, used)))
  {
    UserAtFinds(t.mailboxes, username);
    var i := UserAt(t.mailboxes, username).value;
    assert t.mailboxes[i] in t.mailboxes;
    ReplaceKeeps(t, i, t.mailboxes[i].(used := used), t.aliases);
  }

  lemma SaneStepKeeps(t: Tables, x: Transaction)
    requires Consistent(t) && SaneInput(x)
    ensures Consistent(Step(t, x))
  {
    if ErrorOf(t, x) == None {
      match x
      case NewMailbox(r) => CreateMailboxKeeps(t, r);
      case EditMailbox(user, u) => UpdateMailboxKeeps(t, user, u);
      case DropMailbox(user) => DeleteMailboxKeeps(t, user);
      case NewDomain(name, d) => CreateDomainKeeps(t, name, d);
      case EditDomain(name, u, bare) => UpdateDomainKeeps(t, name, u, bare);
      case DropDomain(name) => DeleteDomainKeeps(t, name);
      case Usage(user, used) => UsageKeeps(t, user, used);
      case Aliases(_, _) =>
    }
  }

  /** An accepted negative amount is stored. */
  lemma NegativeStepBreaks(t: Tables, x: Transaction)
    requires Consistent(t) && ErrorOf(t, x) == None && !SaneInput(x)
    ensures !Consistent(Step(t, x))
  {
    var after := Step(t, x);
    if x.NewMailbox? {
      var row := after.mailboxes[|t.mailboxes|];
      assert row in after.mailboxes && row.quota < 0;
    } else if x.NewDomain? {
      assert !SoundDomain(after.domains[x.name]);
    } else if x.EditDomain? {
      assert !SoundDomain(after.domains[x.name]);
    }
  }

  /** Exactly when a transaction keeps the tables consistent: when it is refused or its amounts are not negative. */
  lemma StepKeepsIff(t: Tables, x: Transaction)
    requires Consistent(t)
    ensures Consistent(Step(t, x)) <==> ErrorOf(t, x).Some? || SaneInput(x)
  {
    if SaneInput(x) {
      SaneStepKeeps(t, x);
    } else if ErrorOf(t, x) == None {
      NegativeStepBreaks(t, x);
    }
  }

  ghost predicate ConsistentThroughout(t: Tables, xs: seq<Transaction>)
    decreases |xs|
  {
    Consistent(t) && (xs == [] || ConsistentThroughout(Step(t, xs[0]), xs[1..]))
  }

  /** No transaction of the run with a negative amount is accepted. */
  predicate AcceptedAreSane(t: Tables, xs: seq<Transaction>)
    decreases |xs|
  {
    xs == [] || ((ErrorOf(t, xs[0]).Some? || SaneInput(xs[0])) && AcceptedAreSane(Step(t, xs[0]), xs[1..]))
  }

  /** The tables are consistent at every point of a run exactly when every accepted amount is not negative. */
  lemma {:induction false} RunFitsIff(t: Tables, xs: seq<Transaction>)
    requires Consistent(t)
    ensures ConsistentThroughout(t, xs) <==> AcceptedAreSane(t, xs)
    decreases |xs|
  {
    if xs != [] {
      StepKeepsIff(t, xs[0]);
      if Consistent(Step(t, xs[0])) {
        RunFitsIff(Step(t, xs[0]), xs[1..]);
      }
    }
  }

  /** In every state reached by any transactions, failing ones included: each domain's mailbox quotas sum to at most
      its quota, its mailboxes are at most its limit, and every mailbox's domain exists. */
  lemma {:induction false} EveryRunFits(t: Tables, xs: seq<Transaction>)
    requires Consistent(t) && AllSane(xs)
    ensures Consistent(Run(t, xs))
    decreases |xs|
  {
    if xs != [] {
      SaneStepKeeps(t, xs[0]);
      EveryRunFits(Step(t, xs[0]), xs[1..]);
    }
  }

  lemma StartIsConsistent(aliases: seq<Alias>, targets: map<string, string>)
    ensures Consistent(Tables(map[], [], aliases, targets))
  {
  }

  // ---- what deletion gives back ----

  /** Deleting a mailbox gives its domain back exactly its quota and one place. */
  lemma {:induction false} DeletionReleases(rows: seq<Mailbox>, i: nat, d: string)
    requires UniqueUsers(rows) && i < |rows|
    ensures var left := WithoutUser(rows, rows[i].username);
            && QuotaIn(left, d) == QuotaIn(rows, d) - (if rows[i].domain == d then rows[i].quota else 0)
            && CountIn(left, d) == CountIn(rows, d) - (if rows[i].domain == d then 1 else 0)
  {
    var rest := WithoutUser(rows[1..], rows[i].username);
    if i == 0 {
      UnknownIsKept(rows[1..], rows[0].username);
      assert [] + rest == rest;
    } else {
      assert rows[1..][i - 1] == rows[i];
      DeletionReleases(rows[1..], i - 1, d);
      assert ([rows[0]] + rest)[1..] == rest;
    }
  }

  lemma {:induction false} UnknownIsKept(rows: seq<Mailbox>, username: string)
    requires forall row :: row in rows ==> row.username != username
    ensures WithoutUser(rows, username) == rows
  {
    if rows != [] {
      assert forall row :: row in rows[1..] ==> row in rows;
      assert rows[0] in rows;
      UnknownIsKept(rows[1..], username);
    }
  }

  /** A run of accepted requests that overruns a domain's quota: a negative quota makes room for others, and goes. */
  lemma NegativeQuotaCounterexample(start: Tables, ra: MailboxCreate, rb: MailboxCreate, rc: MailboxCreate)
    requires start == Tables(map["x.org" := Domain(0, 3, 1, 10, 10, false, false, false)], [], [], map[])
    requires ra == MailboxCreate("a", "x.org", Some(-5), true, true) &&
             rb == MailboxCreate("b", "x.org", Some(10), true, true)
    requires rc == MailboxCreate("c", "x.org", Some(5), true, true)
    ensures Consistent(start)
    ensures var after := Run(start, [NewMailbox(ra), NewMailbox(rb), NewMailbox(rc), DropMailbox("a@x.org")]);
            after.domains == start.domains && QuotaIn(after.mailboxes, "x.org") == 15 > start.domains["x.org"].quota
  {
    var t := ThreeMailboxes(start, ra, rb, rc);
    RunOfFour(start, NewMailbox(ra), NewMailbox(rb), NewMailbox(rc), DropMailbox("a@x.org"));
    FirstGoes(t, "a@x.org");
  }

  lemma FirstGoes(t: Tables, username: string)
    requires UniqueUsers(t.mailboxes) && t.mailboxes != [] && t.mailboxes[0].username == username
    ensures var after := Step(t, DropMailbox(username));
            && after.domains == t.domains
            && QuotaIn(after.mailboxes, t.mailboxes[0].domain) ==
               QuotaIn(t.mailboxes, t.mailboxes[0].domain) - t.mailboxes[0].quota
  {
    DeletionReleases(t.mailboxes, 0, t.mailboxes[0].domain);
  }

  lemma ThreeMailboxes(t: Tables, ra: MailboxCreate, rb: MailboxCreate, rc: MailboxCreate) returns (after: Tables)
    requires t == Tables(map["x.org" := Domain(0, 3, 1, 10, 10, false, false, false)], [], [], map[])
    requires ra == MailboxCreate("a", "x.org", Some(-5), true, true) &&
             rb == MailboxCreate("b", "x.org", Some(10), true, true)
    requires rc == MailboxCreate("c", "x.org", Some(5), true, true)
    ensures after == Step(Step(Step(t, NewMailbox(ra)), NewMailbox(rb)), NewMailbox(rc)) && after.domains == t.domains
    ensures UniqueUsers(after.mailboxes) && |after.mailboxes| == 3 && QuotaIn(after.mailboxes, "x.org") == 10
    ensures after.mailboxes[0] == Mailbox("a@x.org", "x.org", -5, 0, true)
  {
    var a, b, c := Mailbox(Username(ra), "x.org", -5, 0, true), Mailbox(Username(rb), "x.org", 10, 0, true),
                   Mailbox(Username(rc), "x.org", 5, 0, true);
    DistinctNames(ra, rb, rc);
    assert a.username == "a@x.org";
    var t1 := OneMore(t, ra, a);
    assert t1.mailboxes == [a];
    var t2 := OneMore(t1, rb, b);
    assert t2.mailboxes == [a, b];
    after := OneMore(t2, rc, c);
    assert after.mailboxes == [a, b, c];
  }

  lemma DistinctNames(ra: MailboxCreate, rb: MailboxCreate, rc: MailboxCreate)
    requires ra.localPart == "a" && rb.localPart == "b" && rc.localPart == "c"
    ensures Username(ra) != Username(rb) && Username(ra) != Username(rc) && Username(rb) != Username(rc)
  {
    assert Username(ra)[0] == 'a' && Username(rb)[0] == 'b' && Username(rc)[0] == 'c';
  }

  lemma RunOfFour(t: Tables, x1: Transaction, x2: Transaction, x3: Transaction, x4: Transaction)
    ensures Run(t, [x1, x2, x3, x4]) == Step(Step(Step(Step(t, x1), x2), x3), x4)
  {
    var t2 := Step(Step(t, x1), x2);
    var t3 := Step(t2, x3);
    assert [x1, x2, x3, x4][1..] == [x2, x3, x4] && [x2, x3, x4][1..] == [x3, x4] && [x3, x4][1..] == [x4] &&
           [x4][1..] == [];
    assert Run(t3, [x4]) == Step(t3, x4);
    assert Run(t2, [x3, x4]) == Run(t3, [x4]);
  }

  /** A mailbox with a new name that fits is accepted and counted. */
  lemma OneMore(t: Tables, r: MailboxCreate, row: Mailbox) returns (after: Tables)
    requires r.domain in t.domains && r.passwordOk
    requires row == Mailbox(Username(r), r.domain, NewQuota(r, t.domains[r.domain]), 0, r.active)
    requires forall other :: other in t.mailboxes ==> other.username != row.username
    requires forall alias :: alias in t.aliases ==> alias.address != row.username
    requires CountIn(t.mailboxes, r.domain) < t.domains[r.domain].mailboxes && row.quota <= t.domains[r.domain].maxquota
    requires QuotaIn(t.mailboxes, r.domain) + row.quota <= t.domains[r.domain].quota
    ensures after == Step(t, NewMailbox(r)) && after.domains == t.domains
    ensures after.mailboxes == t.mailboxes + [row] &&
            after.aliases == t.aliases + [Alias(row.username, row.username, r.domain, r.active)]
    ensures CountIn(after.mailboxes, r.domain) == CountIn(t.mailboxes, r.domain) + 1
    ensures QuotaIn(after.mailboxes, r.domain) == QuotaIn(t.mailboxes, r.domain) + row.quota
  {
    UserAtFinds(t.mailboxes, row.username);
    NoAddress(t.aliases, row.username);
    after := Step(t, NewMailbox(r));
    AppendSums(t.mailboxes, row, r.domain);
  }

  lemma {:induction false} NoAddress(rows: seq<Alias>, address: string)
    requires forall alias :: alias in rows ==> alias.address != address
    ensures !HasAddress(rows, address)
  {
    if rows != [] {
      assert rows[0] in rows && forall alias :: alias in rows[1..] ==> alias in rows;
      NoAddress(rows[1..], address);
    }
  }

  // ---- advertised limits ----

  /** A mailbox limit refuses the mailbox. */
  predicate LimitRefuses(t: Tables, r: MailboxCreate) {
    var error := CreateMailboxError(t, r);
    error.Some? && (error.value.MaxMailboxExceeded? || error.value.QuotaExceedsLimit? || error.value.NotEnoughQuota?)
  }

  /** A mailbox of this quota is within the figures advertised. */
  predicate Offered(details: Details, quota: int) {
    details.mailboxesLeft > 0 && quota <= details.maxNewMailboxQuota
  }

  /** What is advertised under a name are the limits that a mailbox of its origin is checked against: of the domain
      itself, or of the target when the name is an alias domain. */
  lemma LimitsAreAdvertised(t: Tables, name: string, r: MailboxCreate)
    requires r.domain == Origin(t, name) && r.domain in t.domains && !HasUser(t.mailboxes, Username(r))
    ensures LimitRefuses(t, r) <==> !Offered(DomainDetails(t, name).value, NewQuota(r, t.domains[r.domain]))
  {
  }

  /** A name longer than all of them. */
  lemma {:induction false} FreshName(rows: seq<Mailbox>) returns (local: string)
    ensures forall row :: row in rows ==> |row.username| <= |local|
  {
    if rows == [] {
      local := "";
    } else {
      var rest := FreshName(rows[1..]);
      local := rest + rows[0].username;
      assert forall row :: row in rows <==> row == rows[0] || row in rows[1..];
    }
  }

  /** The figures of the domain itself. */
  function OwnDetails(t: Tables, name: string): Details
    requires name in t.domains
  {
    DomainDetails(t.(targets := map[]), name).value
  }

  /** Every mailbox of the domain is refused by a limit exactly when it is not within what is advertised. */
  ghost predicate AdvertisedApply(t: Tables, name: string)
    requires name in t.domains && Origin(t, name) in t.domains
  {
    forall r: MailboxCreate :: r.domain == name && !HasUser(t.mailboxes, Username(r)) ==>
      (LimitRefuses(t, r) <==> !Offered(DomainDetails(t, name).value, NewQuota(r, t.domains[name])))
  }

  lemma SameOffer(t: Tables, name: string)
    requires Consistent(t) && name in t.domains && Origin(t, name) in t.domains && AdvertisedApply(t, name)
    ensures var own, shown := OwnDetails(t, name), DomainDetails(t, name).value;
            && (own.mailboxesLeft > 0 <==> shown.mailboxesLeft > 0)
            && (own.mailboxesLeft > 0 ==> own.maxNewMailboxQuota == shown.maxNewMailboxQuota)
  {
    var own, shown := OwnDetails(t, name), DomainDetails(t, name).value;
    var local := FreshName(t.mailboxes);
    var big := if own.maxNewMailboxQuota >= shown.maxNewMailboxQuota then own.maxNewMailboxQuota
               else shown.maxNewMailboxQuota;
    forall q: int | q != 0
      ensures Offered(own, q) <==> Offered(shown, q)
    {
      var r := MailboxCreate(local, name, Some(q), true, true);
      UserAtFinds(t.mailboxes, Username(r));
      assert |Username(r)| > |local|;
      LimitsAreAdvertised(t.(targets := map[]), name, r);
    }
    assert Offered(own, -1) <==> Offered(shown, -1);
    assert SoundDomain(t.domains[name]) && SoundDomain(t.domains[Origin(t, name)]);
    assert Fits(t.mailboxes, name, t.domains[name]);
    assert Fits(t.mailboxes, Origin(t, name), t.domains[Origin(t, name)]);
    if big > 0 {
      assert Offered(own, big) <==> Offered(shown, big);
    }
  }

  /** Mailboxes of a domain are checked against its own figures, while under the name of an alias domain those of the
      target are advertised. The two agree exactly when both or neither have a place left and, if they do, the same
      maximum. */
  lemma AdvertisedApplyIff(t: Tables, name: string)
    requires Consistent(t) && name in t.domains && Origin(t, name) in t.domains
    ensures var own, shown := OwnDetails(t, name), DomainDetails(t, name).value;
            AdvertisedApply(t, name) <==>
            && (own.mailboxesLeft > 0 <==> shown.mailboxesLeft > 0)
            && (own.mailboxesLeft > 0 ==> own.maxNewMailboxQuota == shown.maxNewMailboxQuota)
  {
    if AdvertisedApply(t, name) {
      SameOffer(t, name);
    } else {
      var r: MailboxCreate :| r.domain == name && !HasUser(t.mailboxes, Username(r)) &&
        (LimitRefuses(t, r) <==> Offered(DomainDetails(t, name).value, NewQuota(r, t.domains[name])));
      LimitsAreAdvertised(t.(targets := map[]), name, r);
    }
  }

  /** A quota change is accepted exactly from the mailbox's usage up to what the domain allows one mailbox and has
      left. */
  lemma UpdateLimits(t: Tables, i: nat, quota: int)
    requires Consistent(t) && i < |t.mailboxes|
    ensures var row := t.mailboxes[i]; var d := t.domains[row.domain];
            UpdateMailboxError(t, row.username, MailboxUpdate(Some(quota), None, None)) == None <==>
            row.used <= quota <= Min(d.maxquota, d.quota - QuotaIn(t.mailboxes, row.domain) + row.quota)
  {
    assert t.mailboxes[i] in t.mailboxes;
    UserAtFinds(t.mailboxes, t.mailboxes[i].username);
  }

  /** In a consistent state the advertised figures are never negative, and with a place left a mailbox of the
      advertised default quota can be created unless that default is zero. */
  lemma AdvertisedDefaultIsAccepted(t: Tables, name: string, r: MailboxCreate)
    requires Consistent(t) && r.domain == Origin(t, name) && r.domain in t.domains
    requires r.quota == Some(DomainDetails(t, name).value.defNewMailboxQuota)
    requires r.passwordOk && !HasUser(t.mailboxes, Username(r)) && !HasAddress(t.aliases, Username(r))
    ensures var details := DomainDetails(t, name).value;
            && details.maxNewMailboxQuota >= 0 && details.mailboxesLeft >= 0
            && (details.defNewMailboxQuota > 0 && details.mailboxesLeft > 0 ==> CreateMailboxError(t, r) == None)
  {
    assert SoundDomain(t.domains[r.domain]);
  }

  // ---- each mailbox against the per-mailbox maximum ----

  /** The largest quota in a domain, or zero. */
  function Biggest(rows: seq<Mailbox>, d: string): int {
    if rows == [] then 0
    else
      var rest := Biggest(rows[1..], d);
      if rows[0].domain == d && rows[0].quota > rest then rows[0].quota else rest
  }

  lemma {:induction false} BiggestIsMaximum(rows: seq<Mailbox>, d: string)
    ensures forall row :: row in rows && row.domain == d ==> row.quota <= Biggest(rows, d)
    ensures Biggest(rows, d) == 0 || exists row :: row in rows && row.domain == d && row.quota == Biggest(rows, d)
  {
    if rows != [] {
      BiggestIsMaximum(rows[1..], d);
      assert forall row :: row in rows <==> row == rows[0] || row in rows[1..];
      if row :| row in rows[1..] && row.domain == d && row.quota == Biggest(rows[1..], d) {
        assert row in rows;
      }
      assert rows[0] in rows;
    }
  }

  ghost predicate EachUnderMax(t: Tables, d: string)
    requires d in t.domains
  {
    forall row :: row in t.mailboxes && row.domain == d ==> row.quota <= t.domains[d].maxquota
  }

  /** The row an update would store, before its flags are completed. */
  function Proposed(t: Tables, name: string, u: DomainUpdate): Domain
    requires name in t.domains && Origin(t, name) in t.domains
  {
    Overlaid(t.domains[name], t.domains[Origin(t, name)], u)
  }

  /** The update is refused whatever row the query picks: by validation or by another limit. */
  predicate RefusedAnyway(t: Tables, name: string, u: DomainUpdate)
    requires name in t.domains && Origin(t, name) in t.domains
  {
    var d := Proposed(t, name, u);
    ValidationError(d).Some? || UseError(t.mailboxes, t.aliases, name, d, d.maxquota).Some?
  }

  ghost predicate AnyOver(rows: seq<Mailbox>, name: string, max: int) {
    exists row :: row in rows && row.domain == name && row.quota > max
  }

  ghost predicate AnyWithin(rows: seq<Mailbox>, name: string, max: int) {
    exists row :: row in rows && row.domain == name && row.quota <= max
  }

  /** Whatever row the query picks, an update that passes leaves no mailbox over the new maximum. */
  ghost predicate GuardSuffices(t: Tables, name: string, u: DomainUpdate)
    requires name in t.domains && Origin(t, name) in t.domains
  {
    forall bare :: IsBareQuota(t.mailboxes, name, bare) && UpdateDomainError(t, name, u, bare) == None ==>
      EachUnderMax(UpdateDomain(t, name, u), name)
  }

  lemma BareOfRow(rows: seq<Mailbox>, name: string, row: Mailbox)
    requires row in rows && row.domain == name
    ensures IsBareQuota(rows, name, row.quota)
  {
    EmptyDomainSums(rows, name);
    var i :| 0 <= i < |rows| && rows[i] == row;
  }

  lemma RowOfBare(rows: seq<Mailbox>, name: string, bare: int) returns (row: Mailbox)
    requires IsBareQuota(rows, name, bare) && CountIn(rows, name) > 0
    ensures row in rows && row.domain == name && row.quota == bare
  {
    var i :| 0 <= i < |rows| && rows[i].domain == name && rows[i].quota == bare;
    row := rows[i];
  }

  /** The check compares the new maximum with the quota of one row, whichever the database picks. It is enough exactly
      when the domain does not hold both a mailbox over and a mailbox within the new maximum, or the update is refused
      anyway. */
  lemma GuardSufficesIff(t: Tables, name: string, u: DomainUpdate)
    requires name in t.domains && Origin(t, name) in t.domains
    ensures var max := Proposed(t, name, u).maxquota;
            GuardSuffices(t, name, u) <==>
            !(AnyOver(t.mailboxes, name, max) && AnyWithin(t.mailboxes, name, max)) || RefusedAnyway(t, name, u)
  {
    var rows, max := t.mailboxes, Proposed(t, name, u).maxquota;
    if AnyOver(rows, name, max) && AnyWithin(rows, name, max) && !RefusedAnyway(t, name, u) {
      var row :| row in rows && row.domain == name && row.quota <= max;
      BareOfRow(rows, name, row);
      assert UpdateDomainError(t, name, u, row.quota) == None;
      assert !EachUnderMax(UpdateDomain(t, name, u), name);
    } else {
      forall bare | IsBareQuota(rows, name, bare) && UpdateDomainError(t, name, u, bare) == None
        ensures EachUnderMax(UpdateDomain(t, name, u), name)
      {
        EmptyDomainSums(rows, name);
        if CountIn(rows, name) > 0 {
          var row := RowOfBare(rows, name, bare);
          assert AnyWithin(rows, name, max);
        }
      }
    }
  }

  /** With the largest quota in place of an arbitrary one, the check refuses exactly the updates that would leave a
      mailbox over the new maximum. */
  lemma MaximumWouldDo(t: Tables, name: string, u: DomainUpdate)
    requires Consistent(t) && name in t.domains && Origin(t, name) in t.domains && !RefusedAnyway(t, name, u)
    requires NotNegative(u.defquota)
    ensures UpdateDomainError(t, name, u, Biggest(t.mailboxes, name)) == None <==>
            EachUnderMax(UpdateDomain(t, name, u), name)
  {
    BiggestIsMaximum(t.mailboxes, name);
    assert SoundDomain(t.domains[Origin(t, name)]);
  }

  /** An update that passes although a mailbox exceeds the new maximum: the row picked is another one. */
  lemma BareQuotaCounterexample()
    ensures var rows := [Mailbox("a@x.org", "x.org", 1, 0, true), Mailbox("b@x.org", "x.org", 9, 0, true)];
            var t := Tables(map["x.org" := Domain(0, 2, 1, 9, 10, false, false, false)], rows, [], map[]);
            var lower := DomainUpdate(None, None, None, Some(5), None, None, None, None);
            && Consistent(t) && EachUnderMax(t, "x.org")
            && IsBareQuota(rows, "x.org", 1) && UpdateDomainError(t, "x.org", lower, 1) == None
            && !EachUnderMax(UpdateDomain(t, "x.org", lower), "x.org")
  {
    var a, b := Mailbox("a@x.org", "x.org", 1, 0, true), Mailbox("b@x.org", "x.org", 9, 0, true);
    assert a.username[0] != b.username[0];
    assert [a, b][1..] == [b] && [b][1..] == [];
    assert CountIn([b], "x.org") == 1 && QuotaIn([b], "x.org") == 9;
    assert CountIn([a, b], "x.org") == 2 && QuotaIn([a, b], "x.org") == 10;
    assert [a, b][0].quota == 1;
    assert b in [a, b];
  }

  /** An update that gives no field changes nothing, whatever the checks say: limits are read from the domain itself
      when it is no alias domain, and the stored flags are already complete. */
  lemma EmptyUpdateIsIdentity(t: Tables, name: string)
    requires Consistent(t) && name in t.domains && name !in t.targets
    ensures UpdateDomain(t, name, DomainUpdate(None, None, None, None, None, None, None, None)) == t
    ensures ValidationError(t.domains[name]) == None
  {
    var d := t.domains[name];
    assert SoundDomain(d) && WithFlags(d) == d;
    assert t.domains[name := d] == t.domains;
  }

  /** Under an alias name that is also a domain, an update that gives no field copies the four limits of the target. */
  lemma EmptyUpdateOfAlias(t: Tables, name: string)
    requires Consistent(t) && name in t.domains && Origin(t, name) in t.domains
    ensures var after := UpdateDomain(t, name,
            DomainUpdate(None, None, None, None, None, None, None, None)).domains[name];
            var target := t.domains[Origin(t, name)];
            after == t.domains[name].(mailboxes := target.mailboxes, defquota := target.defquota,
                                      maxquota := target.maxquota, quota := target.quota)
  {
    assert SoundDomain(t.domains[name]);
  }

  // ---- what a mailbox update touches ----

  lemma {:induction false} ActivatedRows(rows: seq<Alias>, address: string, active: bool)
    ensures |Activated(rows, address, active)| == |rows|
    ensures forall j :: 0 <= j < |rows| ==>
              Activated(rows, address, active)[j] ==
              if rows[j].address == address then rows[j].(active := active) else rows[j]
  {
    if rows != [] {
      ActivatedRows(rows[1..], address, active);
    }
  }

  /** Exactly the mailbox takes the quota and the flag given; a flag given is also taken by exactly the aliases at its
      address; every other row and every domain stays. */
  lemma UpdateTouches(t: Tables, username: string, u: MailboxUpdate, j: nat)
    requires UniqueUsers(t.mailboxes) && HasUser(t.mailboxes, username)
    ensures var after := UpdateMailbox(t, username, u);
            && after.domains == t.domains && after.targets == t.targets
            && |after.mailboxes| == |t.mailboxes| && |after.aliases| == |t.aliases|
            && (j < |t.mailboxes| && t.mailboxes[j].username != username ==> after.mailboxes[j] == t.mailboxes[j])
            && (j < |t.mailboxes| && t.mailboxes[j].username == username ==>
                  var row := t.mailboxes[j];
                  && after.mailboxes[j].username == username && after.mailboxes[j].domain == row.domain
                  && after.mailboxes[j].used == row.used
                  && after.mailboxes[j].quota == (if u.quota.Some? then u.quota.value else row.quota)
                  && after.mailboxes[j].active == (if u.active.Some? then u.active.value else row.active))
            && (j < |t.aliases| && (u.active.None? || t.aliases[j].address != username) ==>
                  after.aliases[j] == t.aliases[j])
            && (j < |t.aliases| && u.active.Some? && t.aliases[j].address == username ==>
                  after.aliases[j] == Alias(username, t.aliases[j].goto, t.aliases[j].domain, u.active.value))
  {
    UserAtFinds(t.mailboxes, username);
    if u.active.Some? {
      ActivatedRows(t.aliases, username, u.active.value);
    }
  }

  // ---- deletion ----

  /** After a mailbox is deleted it is gone, no alias leads to it, and every alias left is an old one that differs at
      most in having lost it. */
  lemma {:induction false} DeletedIsUnlisted(rows: seq<Alias>, u: string, alias: Alias)
    requires u != "" && alias in WithoutGoto(rows, u)
    ensures u !in Split(alias.goto, ',')
    ensures exists was :: was in rows && was.goto != u && alias == was.(goto := Without(was.goto, u))
  {
    if rows[0].goto != u && alias == rows[0].(goto := Without(rows[0].goto, u)) {
      RewritingRemovesOnly(rows[0].goto, u);
      assert rows[0] in rows;
    } else {
      DeletedIsUnlisted(rows[1..], u, alias);
      var was :| was in rows[1..] && was.goto != u && alias == was.(goto := Without(was.goto, u));
      assert was in rows;
    }
  }

  /** An alias that never listed the mailbox is kept as it was, unless its whole goto is the address: possible for an
      address with a comma, which no list can hold but the delete statement compares with. Only a direct call of the
      manager passes one. */
  lemma {:induction false} UnlistedIsKeptIff(rows: seq<Alias>, u: string, alias: Alias)
    requires u != "" && alias in rows && u !in Split(alias.goto, ',')
    ensures alias in WithoutGoto(rows, u) <==> alias.goto != u
  {
    if alias.goto == u {
      if alias in WithoutGoto(rows, u) {
        NoneLeadsThere(rows, u, alias);
      }
    } else if alias == rows[0] {
      RewritingRemovesOnly(alias.goto, u);
    } else {
      UnlistedIsKeptIff(rows[1..], u, alias);
    }
  }

  /** For an address without a comma, as the API's e-mail type admits it: an alias is kept as it was exactly when it
      never listed the mailbox. */
  lemma KeptIffUnlisted(rows: seq<Alias>, u: string, alias: Alias)
    requires u != "" && ',' !in u && alias in rows
    ensures alias in WithoutGoto(rows, u) <==> u !in Split(alias.goto, ',')
  {
    assert Split(u, ',') == [u];
    if u !in Split(alias.goto, ',') {
      UnlistedIsKeptIff(rows, u, alias);
    } else if alias in WithoutGoto(rows, u) {
      DeletedIsUnlisted(rows, u, alias);
    }
  }

  /** Called with an address that contains a comma, the deletion takes an alias that never listed it. */
  lemma CommaCounterexample(u: string, alias: Alias)
    requires u == "a,b@x.org" && alias == Alias("list@x.org", u, "x.org", true)
    ensures u !in Split(alias.goto, ',') && WithoutGoto([alias], u) == []
  {
    assert u[1] == ',';
    assert [alias][1..] == [];
  }

  /** No alias left has the address as its whole goto. */
  lemma NoneLeadsThere(rows: seq<Alias>, u: string, alias: Alias)
    requires u != "" && alias in WithoutGoto(rows, u)
    ensures alias.goto != u
  {
    DeletedIsUnlisted(rows, u, alias);
    var was :| was in rows && was.goto != u && alias == was.(goto := Without(was.goto, u));
    if ',' in u {
      RewritingRemovesOnly(was.goto, u);
    } else {
      assert Split(u, ',') == [u];
    }
  }

  lemma {:induction false} OwnAliasGoes(rows: seq<Alias>, own: Alias)
    ensures WithoutGoto(rows + [own], own.goto) == WithoutGoto(rows, own.goto)
  {
    if rows == [] {
      assert rows + [own] == [own];
    } else {
      assert (rows + [own])[1..] == rows[1..] + [own];
      OwnAliasGoes(rows[1..], own);
    }
  }

  lemma {:induction false} OwnRowGoes(rows: seq<Mailbox>, own: Mailbox)
    requires forall row :: row in rows ==> row.username != own.username
    ensures WithoutUser(rows + [own], own.username) == rows
  {
    if rows == [] {
      assert rows + [own] == [own];
    } else {
      assert forall row :: row in rows[1..] ==> row in rows;
      assert rows[0] in rows;
      assert (rows + [own])[1..] == rows[1..] + [own];
      OwnRowGoes(rows[1..], own);
    }
  }

  /** No alias lists the address, and none has it as its whole goto. */
  ghost predicate NobodyLeadsTo(rows: seq<Alias>, u: string) {
    forall alias :: alias in rows ==> u !in Split(alias.goto, ',') && alias.goto != u
  }

  lemma {:induction false} UnlistedIsKept(rows: seq<Alias>, u: string)
    requires u != "" && NobodyLeadsTo(rows, u)
    ensures WithoutGoto(rows, u) == rows
  {
    if rows != [] {
      assert rows[0] in rows && forall alias :: alias in rows[1..] ==> alias in rows;
      UnlistedIsKept(rows[1..], u);
      RewritingRemovesOnly(rows[0].goto, u);
    }
  }

  /** Creating a mailbox and deleting it again restores the tables exactly when no alias led to it before. */
  lemma CreateThenDelete(t: Tables, r: MailboxCreate)
    requires CreateMailboxError(t, r) == None
    ensures DeleteMailbox(CreateMailbox(t, r), Username(r)) == t <==> NobodyLeadsTo(t.aliases, Username(r))
  {
    var u := Username(r);
    assert u[|r.localPart|] == '@';
    var created := CreateMailbox(t, r);
    UserAtFinds(t.mailboxes, u);
    OwnRowGoes(t.mailboxes, created.mailboxes[|t.mailboxes|]);
    OwnAliasGoes(t.aliases, created.aliases[|t.aliases|]);
    if NobodyLeadsTo(t.aliases, u) {
      UnlistedIsKept(t.aliases, u);
    }
    if WithoutGoto(t.aliases, u) == t.aliases {
      forall alias | alias in t.aliases ensures u !in Split(alias.goto, ',') && alias.goto != u {
        DeletedIsUnlisted(t.aliases, u, alias);
        NoneLeadsThere(t.aliases, u, alias);
      }
    }
  }
}
