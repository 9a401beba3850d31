/** Domains, mailboxes and aliases under create, update and delete transactions, and the quota budget they share. */
module Quotas {
  import opened Text
  import opened Gotos

  datatype Domain = Domain(aliases: int, mailboxes: int, defquota: int, maxquota: int, quota: int,
                           backupmx: bool, relayAllRecipients: bool, relayUnknownOnly: bool)

  /** A mailbox row; `used` is the usage Dovecot reports for it. */
  datatype Mailbox = Mailbox(username: string, domain: string, quota: int, used: int, active: bool)

  datatype Alias = Alias(address: string, goto: string, domain: string, active: bool)

  /** The rows that decide the checks; `targets` maps an alias domain to its target domain. */
  datatype Tables = Tables(
    domains: map<string, Domain>, mailboxes: seq<Mailbox>, aliases: seq<Alias>, targets: map<string, string>)

  datatype Error =
    | AlreadyExists | NotFound | NoResult | IntegrityViolated | PasswordRejected
    | MaxMailboxExceeded(limit: int) | QuotaExceedsLimit(limit: int) | NotEnoughQuota(left: int) | BelowUsage(used: int)
    | DefaultQuotaEmpty | DefaultExceedsMax | MaxQuotaEmpty | MaxExceedsDomain
    | BiggestMailbox(quota: int) | QuotaBelowUse(quota: int) | MailboxesBelowUse(count: int)
        | AliasesBelowUse(count: int)
    | DomainNotEmpty

  datatype MailboxCreate = MailboxCreate(
    localPart: string, domain: string, quota: Option<int>, active: bool, passwordOk: bool)

  /** `passwordOk` is None when no password is given, else whether the policy accepts it. */
  datatype MailboxUpdate = MailboxUpdate(quota: Option<int>, active: Option<bool>, passwordOk: Option<bool>)

  datatype DomainUpdate = DomainUpdate(
    aliases: Option<int>, mailboxes: Option<int>, defquota: Option<int>, maxquota: Option<int>, quota: Option<int>,
    backupmx: Option<bool>, relayAllRecipients: Option<bool>, relayUnknownOnly: Option<bool>)

  function Or<T>(o: Option<T>, otherwise: T): T {
    if o.Some? then o.value else otherwise
  }

  // ---- queries ----

  function CountIn(rows: seq<Mailbox>, domain: string): nat {
    if rows == [] then 0 else (if rows[0].domain == domain then 1 else 0) + CountIn(rows[1..], domain)
  }

  function QuotaIn(rows: seq<Mailbox>, domain: string): int {
    if rows == [] then 0 else (if rows[0].domain == domain then rows[0].quota else 0) + QuotaIn(rows[1..], domain)
  }

  function UserAt(rows: seq<Mailbox>, username: string): Option<nat> {
    if rows == [] then None
    else if rows[0].username == username then Some(0)
    else
      var rest := UserAt(rows[1..], username);
      if rest == None then None else Some(rest.value + 1)
  }

  predicate HasUser(rows: seq<Mailbox>, username: string) {
    UserAt(rows, username).Some?
  }

  predicate HasAddress(rows: seq<Alias>, address: string) {
    rows != [] && (rows[0].address == address || HasAddress(rows[1..], address))
  }

  /** Aliases of a domain whose address is not a mailbox. */
  function AliasesIn(mailboxes: seq<Mailbox>, rows: seq<Alias>, domain: string): nat {
    if rows == [] then 0
    else
      var counts := rows[0].domain == domain && !HasUser(mailboxes, rows[0].address);
      (if counts then 1 else 0) + AliasesIn(mailboxes, rows[1..], domain)
  }

  /** `coalesce(quota, 0)` next to aggregates and without GROUP BY: the quota of some row of the domain. */
  ghost predicate IsBareQuota(rows: seq<Mailbox>, domain: string, quota: int) {
    if CountIn(rows, domain) == 0 then quota == 0
    else exists i :: 0 <= i < |rows| && rows[i].domain == domain && rows[i].quota == quota
  }

  function Origin(t: Tables, domain: string): string {
    if domain in t.targets then t.targets[domain] else domain
  }

  datatype Details = Details(
    maxNewMailboxQuota: int, defNewMailboxQuota: int, quotaInUse: int, mailboxesIn: int, mailboxesLeft: int,
    limits: Domain)

  function Min(a: int, b: int): int {
    if a <= b then a else b
  }

  function DomainDetails(t: Tables, name: string): Option<Details> {
    var domain := Origin(t, name);
    if domain !in t.domains then None
    else
      var model := t.domains[domain];
      var inUse, count := QuotaIn(t.mailboxes, domain), CountIn(t.mailboxes, domain);
      var maxNew := Min(model.quota - inUse, model.maxquota);
      Some(Details(maxNew, Min(maxNew, model.defquota), inUse, count, model.mailboxes - count, model))
  }

  // ---- mailbox transactions: the error, or None, and the tables after success ----

  function Username(r: MailboxCreate): string {
    r.localPart + "@" + r.domain
  }

  /** `quota or defquota`: a missing quota and a quota of zero both take the default. */
  function NewQuota(r: MailboxCreate, domain: Domain): int {
    if r.quota.Some? && r.quota.value != 0 then r.quota.value else domain.defquota
  }

  function CreateMailboxError(t: Tables, r: MailboxCreate): Option<Error> {
    if HasUser(t.mailboxes, Username(r)) then Some(AlreadyExists)
    else if r.domain !in t.domains then Some(NoResult)
    else
      var domain := t.domains[r.domain];
      var quota, inUse := NewQuota(r, domain), QuotaIn(t.mailboxes, r.domain);
      if CountIn(t.mailboxes, r.domain) >= domain.mailboxes then Some(MaxMailboxExceeded(domain.mailboxes))
      else if quota > domain.maxquota then Some(QuotaExceedsLimit(domain.maxquota))
      else if inUse + quota > domain.quota then Some(NotEnoughQuota(domain.quota - inUse))
      else if !r.passwordOk then Some(PasswordRejected)
      else if HasAddress(t.aliases, Username(r)) then Some(IntegrityViolated)
      else None
  }

  function CreateMailbox(t: Tables, r: MailboxCreate): Tables
    requires r.domain in t.domains
  {
    var row := Mailbox(Username(r), r.domain, NewQuota(r, t.domains[r.domain]), 0, r.active);
    t.(mailboxes := t.mailboxes + [row], aliases := t.aliases + [Alias(Username(r), Username(r), r.domain, r.active)])
  }

  function UpdateMailboxError(t: Tables, username: string, u: MailboxUpdate): Option<Error> {
    var at := UserAt(t.mailboxes, username);
    if at == None then Some(NotFound)
    else if u.active.Some? && !HasAddress(t.aliases, username) then Some(NoResult)
    else if u.passwordOk == Some(false) then Some(PasswordRejected)
    else if u.quota == None then None
    else
      UserAtFinds(t.mailboxes, username);
      var row := t.mailboxes[at.value];
      if u.quota.value < row.used then Some(BelowUsage(row.used))
      else if row.domain !in t.domains then Some(NoResult)
      else
        var domain := t.domains[row.domain];
        var available := domain.quota - (QuotaIn(t.mailboxes, row.domain) - row.quota);
        if u.quota.value > domain.maxquota then Some(QuotaExceedsLimit(domain.maxquota))
        else if u.quota.value > available then Some(NotEnoughQuota(available))
        else None
  }

  function Activated(rows: seq<Alias>, address: string, active: bool): seq<Alias> {
    if rows == [] then []
    else
      var row := if rows[0].address == address then rows[0].(active := active) else rows[0];
      [row] + Activated(rows[1..], address, active)
  }

  function UpdateMailbox(t: Tables, username: string, u: MailboxUpdate): Tables
    requires HasUser(t.mailboxes, username)
  {
    UserAtFinds(t.mailboxes, username);
    var i := UserAt(t.mailboxes, username).value;
    var row := t.mailboxes[i];
    t.(mailboxes := t.mailboxes[i := row.(quota := Or(u.quota, row.quota), active := Or(u.active, row.active))],
       aliases := if u.active.Some? then Activated(t.aliases, username, u.active.value) else t.aliases)
  }

  function WithoutUser(rows: seq<Mailbox>, username: string): seq<Mailbox> {
    if rows == [] then []
    else (if rows[0].username == username then [] else [rows[0]]) + WithoutUser(rows[1..], username)
  }

  /** Aliases after a mailbox is gone: those that led to it alone are deleted, the others no longer list it. */
  function WithoutGoto(rows: seq<Alias>, username: string): seq<Alias> {
    if rows == [] then []
    else
      var left := if rows[0].goto == username then [] else [rows[0].(goto := Without(rows[0].goto, username))];
      left + WithoutGoto(rows[1..], username)
  }

  function DeleteMailbox(t: Tables, username: string): Tables {
    t.(mailboxes := WithoutUser(t.mailboxes, username), aliases := WithoutGoto(t.aliases, username))
  }

  // ---- domain transactions ----

  function ValidationError(d: Domain): Option<Error> {
    if d.defquota == 0 then Some(DefaultQuotaEmpty)
    else if d.defquota > d.maxquota then Some(DefaultExceedsMax)
    else if d.maxquota == 0 then Some(MaxQuotaEmpty)
    else if d.maxquota > d.quota then Some(MaxExceedsDomain)
    else None
  }

  /** Relaying flags imply one another. */
  function WithFlags(d: Domain): Domain {
    d.(backupmx := d.backupmx || d.relayAllRecipients || d.relayUnknownOnly,
       relayAllRecipients := d.relayAllRecipients || d.relayUnknownOnly)
  }

  function CreateDomainError(t: Tables, name: string, d: Domain): Option<Error> {
    if ValidationError(d).Some? then ValidationError(d)
    else if name in t.domains then Some(AlreadyExists)
    else None
  }

  function CreateDomain(t: Tables, name: string, d: Domain): Tables {
    t.(domains := t.domains[name := WithFlags(d)])
  }

  /** The row `update_domain` validates: the limits of the origin domain, then the fields given. */
  function Overlaid(own: Domain, origin: Domain, u: DomainUpdate): Domain {
    Domain(Or(u.aliases, own.aliases), Or(u.mailboxes, origin.mailboxes), Or(u.defquota, origin.defquota),
           Or(u.maxquota, origin.maxquota), Or(u.quota, origin.quota), Or(u.backupmx, own.backupmx),
           Or(u.relayAllRecipients, own.relayAllRecipients), Or(u.relayUnknownOnly, own.relayUnknownOnly))
  }

  /** New limits below what the domain already holds. */
  function UseError(mailboxes: seq<Mailbox>, aliases: seq<Alias>, name: string, d: Domain, bare: int): Option<Error> {
    if bare > d.maxquota then Some(BiggestMailbox(bare))
    else if QuotaIn(mailboxes, name) > d.quota then Some(QuotaBelowUse(QuotaIn(mailboxes, name)))
    else if CountIn(mailboxes, name) > d.mailboxes then Some(MailboxesBelowUse(CountIn(mailboxes, name)))
    else if AliasesIn(mailboxes, aliases, name) > d.aliases then
      Some(AliasesBelowUse(AliasesIn(mailboxes, aliases, name)))
    else None
  }

  function UpdateDomainError(t: Tables, name: string, u: DomainUpdate, bare: int): Option<Error> {
    var origin := Origin(t, name);
    if origin !in t.domains then Some(NotFound)
    else if name !in t.domains then Some(NoResult)
    else
      var d := Overlaid(t.domains[name], t.domains[origin], u);
      if ValidationError(d).Some? then ValidationError(d) else UseError(t.mailboxes, t.aliases, name, d, bare)
  }

  function UpdateDomain(t: Tables, name: string, u: DomainUpdate): Tables
    requires name in t.domains && Origin(t, name) in t.domains
  {
    t.(domains := t.domains[name := WithFlags(Overlaid(t.domains[name], t.domains[Origin(t, name)], u))])
  }

  function OutsideDomain(rows: seq<Alias>, domain: string): seq<Alias> {
    if rows == [] then []
    else (if rows[0].domain == domain then [] else [rows[0]]) + OutsideDomain(rows[1..], domain)
  }

  function DeleteDomain(t: Tables, name: string): Tables {
    t.(domains := t.domains - {name}, aliases := OutsideDomain(t.aliases, name),
       targets := map d | d in t.targets && t.targets[d] != name :: t.targets[d])
  }

  // ---- runs ----

  /** A transaction, or a change from outside: usage reported by Dovecot, aliases and alias domains edited. */
  datatype Transaction =
    | NewMailbox(create: MailboxCreate)
    | EditMailbox(username: string, edit: MailboxUpdate)
    | DropMailbox(username: string)
    | NewDomain(name: string, model: Domain)
    | EditDomain(name: string, change: DomainUpdate, bare: int)
    | DropDomain(name: string)
    | Usage(username: string, used: nat)
    | Aliases(aliases: seq<Alias>, targets: map<string, string>)

  function ErrorOf(t: Tables, x: Transaction): Option<Error> {
    match x
    case NewMailbox(r) => CreateMailboxError(t, r)
    case EditMailbox(user, u) => UpdateMailboxError(t, user, u)
    case DropMailbox(_) => None
    case NewDomain(name, d) => CreateDomainError(t, name, d)
    case EditDomain(name, u, bare) => UpdateDomainError(t, name, u, bare)
    case DropDomain(name) => if CountIn(t.mailboxes, name) > 0 then Some(DomainNotEmpty) else None
    case Usage(user, _) => if HasUser(t.mailboxes, user) then None else Some(NotFound)
    case Aliases(_, _) => None
  }

  /** The tables after a transaction: unchanged when it raises. */
  function Step(t: Tables, x: Transaction): Tables {
    if ErrorOf(t, x).Some? then t
    else
      match x
      case NewMailbox(r) => CreateMailbox(t, r)
      case EditMailbox(user, u) => UpdateMailbox(t, user, u)
      case DropMailbox(user) => DeleteMailbox(t, user)
      case NewDomain(name, d) => CreateDomain(t, name, d)
      case EditDomain(name, u, _) => UpdateDomain(t, name, u)
      case DropDomain(name) => DeleteDomain(t, name)
      case Usage(user, used) =>
        UserAtFinds(t.mailboxes, user);
        var i := UserAt(t.mailboxes, user).value;
        t.(mailboxes := t.mailboxes[i := t.mailboxes[i].(used := used)])
      case Aliases(aliases, targets) => t.(aliases := aliases, targets := targets)
  }

  function Run(t: Tables, xs: seq<Transaction>): Tables
    decreases |xs|
  {
    if xs == [] then t else Run(Step(t, xs[0]), xs[1..])
  }

  predicate NotNegative(o: Option<int>) {
    o.Some? ==> o.value >= 0
  }

  /** Amounts typed in are not negative; everything else is left to the checks. */
  predicate SaneInput(x: Transaction) {
    match x
    case NewMailbox(r) => NotNegative(r.quota)
    case NewDomain(_, d) => d.mailboxes >= 0 && d.defquota >= 0
    case EditDomain(_, u, _) => NotNegative(u.defquota)
    case _ => true
  }

  predicate AllSane(xs: seq<Transaction>) {
    forall i :: 0 <= i < |xs| ==> SaneInput(xs[i])
  }

  /** The row with this username, at its position. */
  lemma {:induction false} UserAtFinds(rows: seq<Mailbox>, username: string)
    ensures var at := UserAt(rows, username);
            if at.Some? then at.value < |rows| && rows[at.value].username == username
            else forall i :: 0 <= i < |rows| ==> rows[i].username != username
  {
    if rows != [] && rows[0].username != username {
      UserAtFinds(rows[1..], username);
      assert UserAt(rows, username) == None ==> forall i :: 0 < i < |rows| ==> rows[i] == rows[1..][i - 1];
    }
  }
}
