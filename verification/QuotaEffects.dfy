/** When the quota transactions are accepted, and exactly what they write. */
module QuotaEffects {
  import opened Text
  import opened Gotos
  import opened Quotas
  import opened QuotaSafety

  ghost predicate KnownUser(t: Tables, username: string) {
    exists i :: 0 <= i < |t.mailboxes| && t.mailboxes[i].username == username
  }

  ghost predicate KnownAddress(rows: seq<Alias>, address: string) {
    exists i :: 0 <= i < |rows| && rows[i].address == address
  }

  lemma HasUserIff(t: Tables, username: string)
    ensures HasUser(t.mailboxes, username) <==> KnownUser(t, username)
  {
    UserAtFinds(t.mailboxes, username);
  }

  lemma {:induction false} HasAddressIff(rows: seq<Alias>, address: string)
    ensures HasAddress(rows, address) <==> KnownAddress(rows, address)
  {
    if rows != [] {
      HasAddressIff(rows[1..], address);
      if i :| 0 <= i < |rows[1..]| && rows[1..][i].address == address {
        assert rows[i + 1].address == address;
      }
      if i :| 0 < i < |rows| && rows[i].address == address {
        assert rows[1..][i - 1].address == address;
      }
    }
  }

  // ---- mailboxes ----

  /** The quota asked for; a quota missing or zero asks for the domain's default. */
  predicate AsksFor(r: MailboxCreate, d: Domain, quota: int) {
    (r.quota == Some(quota) && quota != 0) || ((r.quota == None || r.quota == Some(0)) && quota == d.defquota)
  }

  /** The domain has a place and room for the quota. */
  ghost predicate HasRoom(t: Tables, domain: string, quota: int) {
    && domain in t.domains && CountIn(t.mailboxes, domain) < t.domains[domain].mailboxes
    && quota <= t.domains[domain].maxquota
    && QuotaIn(t.mailboxes, domain) + quota <= t.domains[domain].quota
  }

  lemma NewQuotaIff(r: MailboxCreate, d: Domain, quota: int)
    ensures NewQuota(r, d) == quota <==> AsksFor(r, d, quota)
  {
  }

  /** A mailbox is created exactly when its name is new, its domain exists and has room, its password is accepted and no
      alias has its address. */
  lemma CreateAcceptedIff(t: Tables, r: MailboxCreate)
    ensures CreateMailboxError(t, r) == None <==>
            && !KnownUser(t, r.localPart + "@" + r.domain) && r.domain in t.domains
            && HasRoom(t, r.domain, NewQuota(r, t.domains[r.domain]))
            && r.passwordOk && !KnownAddress(t.aliases, r.localPart + "@" + r.domain)
  {
    HasUserIff(t, Username(r));
    HasAddressIff(t.aliases, Username(r));
  }

  /** Every refusal gives a true reason, with its figure; an existing name is reported first, an alias at the address
      only when nothing else is wrong. */
  lemma CreateRefusals(t: Tables, r: MailboxCreate, e: Error)
    requires CreateMailboxError(t, r) == Some(e)
    ensures e.AlreadyExists? <==> KnownUser(t, r.localPart + "@" + r.domain)
    ensures e.NoResult? <==> !e.AlreadyExists? && r.domain !in t.domains
    ensures e.MaxMailboxExceeded? ==> e.limit == t.domains[r.domain].mailboxes <= CountIn(t.mailboxes, r.domain)
    ensures e.QuotaExceedsLimit? ==>
              e.limit == t.domains[r.domain].maxquota < NewQuota(r, t.domains[r.domain])
    ensures e.NotEnoughQuota? ==>
              e.left == t.domains[r.domain].quota - QuotaIn(t.mailboxes, r.domain) < NewQuota(r, t.domains[r.domain])
    ensures e.PasswordRejected? ==> !r.passwordOk
    ensures e.IntegrityViolated? ==>
              && HasRoom(t, r.domain, NewQuota(r, t.domains[r.domain])) && r.passwordOk
              && KnownAddress(t.aliases, r.localPart + "@" + r.domain)
  {
    HasUserIff(t, Username(r));
    HasAddressIff(t.aliases, Username(r));
  }

  /** It adds one mailbox, unused, and one alias that leads to it, and nothing else. */
  lemma CreateWrites(t: Tables, r: MailboxCreate, quota: int)
    requires r.domain in t.domains && AsksFor(r, t.domains[r.domain], quota)
    ensures var username := r.localPart + "@" + r.domain;
            CreateMailbox(t, r) ==
            Tables(t.domains, t.mailboxes + [Mailbox(username, r.domain, quota, 0, r.active)],
                   t.aliases + [Alias(username, username, r.domain, r.active)], t.targets)
  {
    NewQuotaIff(r, t.domains[r.domain], quota);
  }

  /** An update of a mailbox is accepted exactly when a flag given finds an alias at the address, a password given is
      accepted, and a quota given lies between usage and what the domain allows and has left. */
  lemma UpdateAcceptedIff(t: Tables, i: nat, u: MailboxUpdate)
    requires Consistent(t) && i < |t.mailboxes|
    ensures var row := t.mailboxes[i];
            UpdateMailboxError(t, row.username, u) == None <==>
            && (u.active.Some? ==> KnownAddress(t.aliases, row.username))
            && u.passwordOk != Some(false)
            && (u.quota.Some? ==>
                  && row.used <= u.quota.value <= t.domains[row.domain].maxquota
                  && QuotaIn(t.mailboxes, row.domain) - row.quota + u.quota.value <= t.domains[row.domain].quota)
  {
    assert t.mailboxes[i] in t.mailboxes;
    UserAtFinds(t.mailboxes, t.mailboxes[i].username);
    HasAddressIff(t.aliases, t.mailboxes[i].username);
  }

  lemma UpdateOfUnknown(t: Tables, username: string, u: MailboxUpdate)
    ensures UpdateMailboxError(t, username, u) == Some(NotFound) <==> !KnownUser(t, username)
  {
    HasUserIff(t, username);
  }

  // ---- domains ----

  /** Default above zero and at most the maximum, the maximum not zero and at most the domain's quota. */
  lemma ValidatedIff(d: Domain)
    ensures ValidationError(d) == None <==> d.defquota != 0 && d.maxquota != 0 && d.defquota <= d.maxquota <= d.quota
  {
  }

  /** The flags stored are the least ones that hold those given and what they imply. */
  lemma FlagsAreLeast(d: Domain, other: Domain)
    requires (d.backupmx ==> other.backupmx) && (d.relayAllRecipients ==> other.relayAllRecipients) &&
             (d.relayUnknownOnly ==> other.relayUnknownOnly)
    requires (other.relayUnknownOnly ==> other.relayAllRecipients) && (other.relayAllRecipients ==> other.backupmx)
    ensures var stored := WithFlags(d);
            && (stored.relayUnknownOnly <==> d.relayUnknownOnly)
            && (stored.relayUnknownOnly ==> stored.relayAllRecipients)
            && (stored.relayAllRecipients ==> stored.backupmx)
            && (d.relayAllRecipients ==> stored.relayAllRecipients) && (d.backupmx ==> stored.backupmx)
            && (stored.relayAllRecipients ==> other.relayAllRecipients) && (stored.backupmx ==> other.backupmx)
  {
  }

  /** A domain is created exactly when it validates and is new, and is stored with its limits. */
  lemma CreateDomainEffect(t: Tables, name: string, d: Domain)
    ensures CreateDomainError(t, name, d) == None <==> ValidationError(d) == None && name !in t.domains
    ensures var stored := CreateDomain(t, name, d).domains[name];
            && CreateDomain(t, name, d) == t.(domains := t.domains[name := stored])
            && stored.(backupmx := d.backupmx, relayAllRecipients := d.relayAllRecipients) == d
  {
  }

  /** The rows of a domain's aliases whose address is no mailbox. */
  ghost function OwnAliases(t: Tables, domain: string): set<int> {
    set i | 0 <= i < |t.aliases| && t.aliases[i].domain == domain && !KnownUser(t, t.aliases[i].address)
  }

  ghost function OwnBelow(t: Tables, rows: seq<Alias>, domain: string): set<int> {
    set i | 0 <= i < |rows| && rows[i].domain == domain && !KnownUser(t, rows[i].address)
  }

  lemma {:induction false} OneAliasMore(mailboxes: seq<Mailbox>, rows: seq<Alias>, row: Alias, domain: string)
    ensures AliasesIn(mailboxes, rows + [row], domain) ==
            AliasesIn(mailboxes, rows, domain) +
            if row.domain == domain && !HasUser(mailboxes, row.address) then 1 else 0
  {
    if rows == [] {
      assert rows + [row] == [row];
    } else {
      assert (rows + [row])[1..] == rows[1..] + [row];
      OneAliasMore(mailboxes, rows[1..], row, domain);
    }
  }

  lemma {:induction false} AliasesAreCounted(t: Tables, rows: seq<Alias>, domain: string)
    ensures AliasesIn(t.mailboxes, rows, domain) == |OwnBelow(t, rows, domain)|
  {
    if rows == [] {
      assert OwnBelow(t, rows, domain) == {};
    } else {
      var front, last := rows[..|rows| - 1], rows[|rows| - 1];
      assert rows == front + [last];
      AliasesAreCounted(t, front, domain);
      OneAliasMore(t.mailboxes, front, last, domain);
      HasUserIff(t, last.address);
      var more := if last.domain == domain && !KnownUser(t, last.address) then {|front|} else {};
      assert OwnBelow(t, rows, domain) == OwnBelow(t, front, domain) + more;
    }
  }

  /** An update is accepted exactly when both the domain and its origin exist, the proposed row validates, and it leaves
      room for what the domain holds: the quotas, the mailboxes, its aliases, and the quota of the row picked. */
  lemma UpdateDomainAcceptedIff(t: Tables, name: string, u: DomainUpdate, bare: int)
    ensures UpdateDomainError(t, name, u, bare) == None <==>
            && name in t.domains && Origin(t, name) in t.domains
            && var d := Proposed(t, name, u);
               && ValidationError(d) == None && bare <= d.maxquota
               && QuotaIn(t.mailboxes, name) <= d.quota && CountIn(t.mailboxes, name) <= d.mailboxes
               && |OwnAliases(t, name)| <= d.aliases
  {
    AliasesAreCounted(t, t.aliases, name);
    assert OwnAliases(t, name) == OwnBelow(t, t.aliases, name);
  }

  /** Each limit given is taken, a limit not given is that of the origin; the number of aliases and the flags, when not
      given, are the domain's own. */
  lemma ProposedTakesGiven(t: Tables, name: string, u: DomainUpdate)
    requires name in t.domains && Origin(t, name) in t.domains
    ensures var own, origin, d := t.domains[name], t.domains[Origin(t, name)], Proposed(t, name, u);
            && d.aliases == (if u.aliases.Some? then u.aliases.value else own.aliases)
            && d.mailboxes == (if u.mailboxes.Some? then u.mailboxes.value else origin.mailboxes)
            && d.defquota == (if u.defquota.Some? then u.defquota.value else origin.defquota)
            && d.maxquota == (if u.maxquota.Some? then u.maxquota.value else origin.maxquota)
            && d.quota == (if u.quota.Some? then u.quota.value else origin.quota)
            && d.backupmx == (if u.backupmx.Some? then u.backupmx.value else own.backupmx)
            && d.relayAllRecipients ==
                 (if u.relayAllRecipients.Some? then u.relayAllRecipients.value else own.relayAllRecipients)
            && d.relayUnknownOnly ==
                 (if u.relayUnknownOnly.Some? then u.relayUnknownOnly.value else own.relayUnknownOnly)
    ensures UpdateDomain(t, name, u) == t.(domains := t.domains[name := WithFlags(Proposed(t, name, u))])
  {
  }

  lemma {:induction false} OutsideMembers(rows: seq<Alias>, domain: string)
    ensures forall row :: row in OutsideDomain(rows, domain) <==> row in rows && row.domain != domain
  {
    if rows != [] {
      OutsideMembers(rows[1..], domain);
      assert forall row :: row in rows <==> row == rows[0] || row in rows[1..];
    }
  }

  /** Deleting a domain takes away the domain, exactly the aliases in it and exactly the alias domains that lead to
      it. */
  lemma DeleteDomainEffect(t: Tables, name: string, other: string, row: Alias)
    ensures var after := DeleteDomain(t, name);
            && after.mailboxes == t.mailboxes
            && name !in after.domains
            && (other != name ==> (other in after.domains <==> other in t.domains))
            && (other != name && other in t.domains ==> after.domains[other] == t.domains[other])
            && (row in after.aliases <==> row in t.aliases && row.domain != name)
            && (other in after.targets <==> other in t.targets && t.targets[other] != name)
            && (other in after.targets ==> after.targets[other] == t.targets[other])
  {
    OutsideMembers(t.aliases, name);
  }
}
