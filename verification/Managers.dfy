/** The mailbox and domain managers over one database session, and the transaction around each request. */
module Managers {
  import opened Text
  import opened Gotos
  import opened Quotas

  /** The rows as the current transaction sees them, and as last committed. */
  class Database {
    var domains: map<string, Domain>
    var mailboxes: seq<Mailbox>
    var aliases: seq<Alias>
    var targets: map<string, string>
    var saved: Tables

    ghost function Now(): Tables reads this {
      Tables(domains, mailboxes, aliases, targets)
    }

    ghost predicate Clean() reads this {
      Now() == saved
    }

    constructor (t: Tables)
      ensures Clean() && saved == t
    {
      domains, mailboxes, aliases, targets, saved := t.domains, t.mailboxes, t.aliases, t.targets, t;
    }

    method Commit()
      modifies this`saved
      ensures Clean()
    {
      saved := Tables(domains, mailboxes, aliases, targets);
    }

    method Rollback()
      modifies this`domains, this`mailboxes, this`aliases, this`targets
      ensures Clean()
    {
      domains, mailboxes, aliases, targets := saved.domains, saved.mailboxes, saved.aliases, saved.targets;
    }
  }

  class MailboxManager {
    const db: Database

    constructor (db: Database)
      ensures this.db == db
    {
      this.db := db;
    }

    method Create(r: MailboxCreate) returns (error: Option<Error>)
      modifies db
      ensures db.saved == old(db.saved)
      ensures error == CreateMailboxError(old(db.Now()), r)
      ensures error == None ==> r.domain in old(db.domains) && db.Now() == CreateMailbox(old(db.Now()), r)
    {
      var username := Username(r);
      if HasUser(db.mailboxes, username) {
        return Some(AlreadyExists);
      }
      if r.domain !in db.domains {
        return Some(NoResult);
      }
      var domain := db.domains[r.domain];
      var quota := NewQuota(r, domain);
      var count, inUse := CountIn(db.mailboxes, r.domain), QuotaIn(db.mailboxes, r.domain);
      if count >= domain.mailboxes {
        return Some(MaxMailboxExceeded(domain.mailboxes));
      }
      if quota > domain.maxquota {
        return Some(QuotaExceedsLimit(domain.maxquota));
      }
      if inUse + quota > domain.quota {
        return Some(NotEnoughQuota(domain.quota - inUse));
      }
      if !r.passwordOk {
        return Some(PasswordRejected);
      }
      db.mailboxes := db.mailboxes + [Mailbox(username, r.domain, quota, 0, r.active)];
      // The unique index on alias addresses, checked when the commit flushes the new rows.
      if HasAddress(db.aliases, username) {
        return Some(IntegrityViolated);
      }
      db.aliases := db.aliases + [Alias(username, username, r.domain, r.active)];
      error := None;
    }

    method Update(username: string, u: MailboxUpdate) returns (error: Option<Error>)
      modifies db
      ensures db.saved == old(db.saved)
      ensures error == UpdateMailboxError(old(db.Now()), username, u)
      ensures error == None ==>
                HasUser(old(db.mailboxes), username) && db.Now() == UpdateMailbox(old(db.Now()), username, u)
    {
      var at := UserAt(db.mailboxes, username);
      if at == None {
        return Some(NotFound);
      }
      UserAtFinds(db.mailboxes, username);
      var i := at.value;
      var details := db.mailboxes[i];
      if u.active.Some? {
        if !HasAddress(db.aliases, username) {
          return Some(NoResult);
        }
        db.aliases := Activated(db.aliases, username, u.active.value);
        db.mailboxes := db.mailboxes[i := db.mailboxes[i].(active := u.active.value)];
        ReplaceKeepsSums(old(db.mailboxes), i, db.mailboxes[i], details.domain);
      }
      if u.passwordOk == Some(false) {
        return Some(PasswordRejected);
      }
      if u.quota.Some? {
        var quota := u.quota.value;
        if quota < details.used {
          return Some(BelowUsage(details.used));
        }
        if details.domain !in db.domains {
          return Some(NoResult);
        }
        var domain := db.domains[details.domain];
        if quota > domain.maxquota {
          return Some(QuotaExceedsLimit(domain.maxquota));
        }
        var available := domain.quota - (QuotaIn(db.mailboxes, details.domain) - details.quota);
        if quota > available {
          return Some(NotEnoughQuota(available));
        }
        db.mailboxes := db.mailboxes[i := db.mailboxes[i].(quota := quota)];
      }
      error := None;
    }

    method Delete(username: string)
      modifies db
      ensures db.saved == old(db.saved) && db.Now() == DeleteMailbox(old(db.Now()), username)
    {
      db.aliases := NotLeadingTo(db.aliases, username);
      db.mailboxes := WithoutUser(db.mailboxes, username);
      RewriteAliases(username);
      DeletionInTwoSteps(old(db.aliases), username);
    }

    /** Rewrites, in place, the goto of every alias the database search finds. */
    method RewriteAliases(username: string)
      modifies db`aliases
      ensures db.aliases == AllWithout(old(db.aliases), username)
    {
      ghost var rows := db.aliases;
      var i := 0;
      while i < |db.aliases|
        invariant 0 <= i <= |db.aliases| == |rows|
        invariant forall k :: 0 <= k < i ==> db.aliases[k] == rows[k].(goto := Without(rows[k].goto, username))
        invariant forall k :: i <= k < |rows| ==> db.aliases[k] == rows[k]
      {
        var alias := db.aliases[i];
        var goto := Rewrite(alias.goto, username);
        db.aliases := db.aliases[i := alias.(goto := goto)];
        i := i + 1;
      }
    }
  }

  /** One goto list: rewritten when the search pattern is found in it. */
  method Rewrite(goto: string, u: string) returns (rewritten: string)
    ensures rewritten == Without(goto, u)
  {
    ReadListedPattern(u);
    var pattern := ReadPieces(ListedPattern(u)).value;
    if Search(pattern, goto) {
      var kept := FilterOut(Split(goto, ','), u);
      return Join(kept, ',');
    }
    PatternFindsListed(u, goto);
    OthersKeepsOthers(Split(goto, ','), u);
    rewritten := goto;
  }

  /** The list comprehension of `delete_mailbox`. */
  method FilterOut(fields: seq<string>, u: string) returns (kept: seq<string>)
    ensures kept == Others(fields, u)
  {
    kept := [];
    assert fields[0..] == fields;
    for i := 0 to |fields|
      invariant kept + Others(fields[i..], u) == Others(fields, u)
    {
      assert fields[i..][1..] == fields[i + 1..];
      if fields[i] != u {
        kept := kept + [fields[i]];
      }
    }
  }

  function NotLeadingTo(rows: seq<Alias>, u: string): seq<Alias> {
    if rows == [] then [] else (if rows[0].goto == u then [] else [rows[0]]) + NotLeadingTo(rows[1..], u)
  }

  function AllWithout(rows: seq<Alias>, u: string): seq<Alias> {
    seq(|rows|, i requires 0 <= i < |rows| => rows[i].(goto := Without(rows[i].goto, u)))
  }

  lemma AllWithoutMore(first: Alias, rest: seq<Alias>, u: string)
    ensures AllWithout([first] + rest, u) == [first.(goto := Without(first.goto, u))] + AllWithout(rest, u)
  {
    var rows := [first] + rest;
    assert forall i :: 0 < i < |rows| ==> rows[i] == rest[i - 1];
  }

  lemma {:induction false} DeletionInTwoSteps(rows: seq<Alias>, u: string)
    ensures AllWithout(NotLeadingTo(rows, u), u) == WithoutGoto(rows, u)
  {
    if rows != [] {
      var rest := NotLeadingTo(rows[1..], u);
      DeletionInTwoSteps(rows[1..], u);
      if rows[0].goto == u {
        assert NotLeadingTo(rows, u) == rest;
        assert WithoutGoto(rows, u) == WithoutGoto(rows[1..], u);
      } else {
        AllWithoutMore(rows[0], rest, u);
      }
    }
  }

  /** Changing a row's other columns leaves every sum as it was. */
  lemma {:induction false} ReplaceKeepsSums(rows: seq<Mailbox>, i: nat, row: Mailbox, d: string)
    requires i < |rows| && row.domain == rows[i].domain && row.quota == rows[i].quota
    ensures QuotaIn(rows[i := row], d) == QuotaIn(rows, d)
  {
    if i == 0 {
      assert rows[i := row][1..] == rows[1..];
    } else {
      assert rows[i := row][1..] == rows[1..][i - 1 := row];
      ReplaceKeepsSums(rows[1..], i - 1, row, d);
    }
  }

  class DomainManager {
    const db: Database

    constructor (db: Database)
      ensures this.db == db
    {
      this.db := db;
    }

    /** Rejects unsound limits; otherwise returns the row with its relaying flags completed. */
    method Validate(d: Domain) returns (error: Option<Error>, model: Domain)
      ensures error == ValidationError(d) && model == if error == None then WithFlags(d) else d
    {
      error, model := None, d;
      if d.defquota == 0 {
        return Some(DefaultQuotaEmpty), d;
      }
      if d.defquota > d.maxquota {
        return Some(DefaultExceedsMax), d;
      }
      if d.maxquota == 0 {
        return Some(MaxQuotaEmpty), d;
      }
      if d.maxquota > d.quota {
        return Some(MaxExceedsDomain), d;
      }
      if model.relayAllRecipients {
        model := model.(backupmx := true);
      }
      if model.relayUnknownOnly {
        model := model.(backupmx := true);
        model := model.(relayAllRecipients := true);
      }
    }

    method Create(name: string, d: Domain) returns (error: Option<Error>)
      modifies db
      ensures db.saved == old(db.saved)
      ensures error == CreateDomainError(old(db.Now()), name, d)
      ensures error == None ==> db.Now() == CreateDomain(old(db.Now()), name, d)
    {
      var invalid, model := Validate(d);
      if invalid.Some? {
        return invalid;
      }
      if name in db.domains {
        return Some(AlreadyExists);
      }
      db.domains := db.domains[name := model];
      error := None;
    }

    /** Some row of the domain, as a bare column next to aggregates selects. */
    method PickQuota(rows: seq<Mailbox>, domain: string) returns (quota: int)
      ensures IsBareQuota(rows, domain, quota)
    {
      quota := 0;
      var found := false;
      for i := 0 to |rows|
        invariant !found ==> quota == 0 && forall j :: 0 <= j < i ==> rows[j].domain != domain
        invariant found ==> exists j :: 0 <= j < i && rows[j].domain == domain && rows[j].quota == quota
      {
        var take: bool := *;
        if rows[i].domain == domain && (!found || take) {
          quota, found := rows[i].quota, true;
        }
      }
      NoneCounted(rows, domain);
    }

    /** The row with the limits of its origin domain, then with the fields given. */
    method Overlay(own: Domain, limits: Domain, u: DomainUpdate) returns (model: Domain)
      ensures model == Overlaid(own, limits, u)
    {
      model := own;
      model := model.(mailboxes := limits.mailboxes);
      model := model.(defquota := limits.defquota);
      model := model.(maxquota := limits.maxquota);
      model := model.(quota := limits.quota);
      model := model.(aliases := Or(u.aliases, model.aliases), mailboxes := Or(u.mailboxes, model.mailboxes));
      model := model.(defquota := Or(u.defquota, model.defquota), maxquota := Or(u.maxquota, model.maxquota));
      model := model.(quota := Or(u.quota, model.quota), backupmx := Or(u.backupmx, model.backupmx));
      model := model.(relayAllRecipients := Or(u.relayAllRecipients, model.relayAllRecipients));
      model := model.(relayUnknownOnly := Or(u.relayUnknownOnly, model.relayUnknownOnly));
    }

    method Update(name: string, u: DomainUpdate) returns (error: Option<Error>, ghost bare: int)
      modifies db
      ensures db.saved == old(db.saved)
      ensures IsBareQuota(old(db.mailboxes), name, bare)
      ensures error == UpdateDomainError(old(db.Now()), name, u, bare)
      ensures error == None ==> name in old(db.domains) && Origin(old(db.Now()), name) in old(db.domains)
                                && db.Now() == UpdateDomain(old(db.Now()), name, u)
    {
      var biggest := PickQuota(db.mailboxes, name);
      bare := biggest;
      var details := DomainDetails(Tables(db.domains, db.mailboxes, db.aliases, db.targets), name);
      if details == None {
        return Some(NotFound), bare;
      }
      if name !in db.domains {
        return Some(NoResult), bare;
      }
      var model := Overlay(db.domains[name], details.value.limits, u);
      var invalid, validated := Validate(model);
      if invalid.Some? {
        return invalid, bare;
      }
      db.domains := db.domains[name := validated];
      error := CheckUse(name, validated, biggest);
    }

    /** The new limits against what the domain already holds. */
    method CheckUse(name: string, model: Domain, biggest: int) returns (error: Option<Error>)
      ensures error == UseError(db.mailboxes, db.aliases, name, model, biggest)
    {
      var inUse, count := QuotaIn(db.mailboxes, name), CountIn(db.mailboxes, name);
      var aliases := AliasesIn(db.mailboxes, db.aliases, name);
      if biggest > model.maxquota {
        return Some(BiggestMailbox(biggest));
      }
      if inUse > model.quota {
        return Some(QuotaBelowUse(inUse));
      }
      if count > model.mailboxes {
        return Some(MailboxesBelowUse(count));
      }
      if aliases > model.aliases {
        return Some(AliasesBelowUse(aliases));
      }
      error := None;
    }

    method Delete(name: string) returns (error: Option<Error>)
      modifies db
      ensures db.saved == old(db.saved)
      ensures error == if CountIn(old(db.mailboxes), name) > 0 then Some(DomainNotEmpty) else None
      ensures error == None ==> db.Now() == DeleteDomain(old(db.Now()), name)
    {
      if CountIn(db.mailboxes, name) > 0 {
        return Some(DomainNotEmpty);
      }
      db.domains := db.domains - {name};
      db.aliases := OutsideDomain(db.aliases, name);
      db.targets := map d | d in db.targets && db.targets[d] != name :: db.targets[d];
      error := None;
    }
  }

  lemma {:induction false} NoneCounted(rows: seq<Mailbox>, domain: string)
    ensures CountIn(rows, domain) == 0 <==> forall i :: 0 <= i < |rows| ==> rows[i].domain != domain
  {
    if rows != [] {
      NoneCounted(rows[1..], domain);
      assert forall i :: 0 < i < |rows| ==> rows[i] == rows[1..][i - 1];
      assert forall i :: 0 <= i < |rows[1..]| ==> rows[1..][i] == rows[i + 1];
    }
  }

  /** The transaction as it happened: a domain update with the row its query picked. */
  function Happened(x: Transaction, bare: int): Transaction {
    if x.EditDomain? then x.(bare := bare) else x
  }

  /** One request: committed when it succeeds, rolled back when it raises. */
  method Transact(db: Database, x: Transaction) returns (error: Option<Error>, ghost bare: int)
    requires db.Clean()
    modifies db
    ensures db.Clean() && db.saved == Step(old(db.saved), Happened(x, bare))
    ensures error == ErrorOf(old(db.saved), Happened(x, bare))
  {
    var mailboxes := new MailboxManager(db);
    var domains := new DomainManager(db);
    error, bare := None, 0;
    match x {
      case NewMailbox(r) => error := mailboxes.Create(r);
      case EditMailbox(user, u) => error := mailboxes.Update(user, u);
      case DropMailbox(user) => mailboxes.Delete(user);
      case NewDomain(name, d) => error := domains.Create(name, d);
      case EditDomain(name, u, _) => error, bare := domains.Update(name, u);
      case DropDomain(name) => error := domains.Delete(name);
      case Usage(user, used) =>
        var at := UserAt(db.mailboxes, user);
        if at == None {
          error := Some(NotFound);
        } else {
          UserAtFinds(db.mailboxes, user);
          db.mailboxes := db.mailboxes[at.value := db.mailboxes[at.value].(used := used)];
        }
      case Aliases(aliases, targets) => db.aliases, db.targets := aliases, targets;
    }
    if error == None {
      db.Commit();
    } else {
      db.Rollback();
    }
  }
}
