# Verified models of the mail back end

A Dafny model of the decision-making parts of the back end: alias expansion and pattern building for rspamd, SPF
evaluation, the fail2ban service and its nftables chains, the key/value stores, DMARC report ingestion, the quota budget
shared by domains and mailboxes, outgoing transports, and the socketmap protocol. `dafny verify dfyconfig.toml` checks
everything.

Where the program changes state in place, a class with the same fields and methods does so here, and each method is proved
to take the step that a function on values describes; what the program promises is then proved about those functions, for
every input, every run or every reachable state.

| file | what it holds |
|---|---|
| `Text.dfy`, `Regex.dfy`, `Utf8.dfy` | splitting and joining, the generated fragment of regular expressions, UTF-8 |
| `AliasExpansion.dfy`, `AliasPrecedence.dfy`, `Patterns.dfy` | the bounded search over gotos; which rows it uses; glob compilation and the allowed-domain pattern |
| `SpfEval.dfy`, `SpfRecords.dfy`, `Spf.dfy`, `SpfTerms.dfy`, `SpfPolicies.dfy` | recursion and its meaning; which terms are live; the resolver itself; what a term means by its text; whole published policies |
| `Nftables.dfy`, `NetfilterTables.dfy`, `TableRuns.dfy` | rule lists and their algebra; the kernel object and the table commands; whole runs of them |
| `Fail2ban.dfy`, `Fail2banSafety.dfy`, `Fail2banCounts.dfy`, `Fail2banPurge.dfy`, `Fail2banCover.dfy`, `Fail2banWhitelist.dfy`, `Netfilter.dfy`, `NetfilterService.dfy` | the ban machine; what every run keeps; exact rule counts; what a purge lifts; when the blacklist stays enforced; who is not heard; the service object; its life from start-up to shutdown |
| `Stores.dfy`, `StoreLaws.dfy`, `Json.dfy`, `StoreObjects.dfy` | both stores as values; what their operations mean; the JSON texts; both stores as objects |
| `Dmarc.dfy`, `DmarcService.dfy` | deduplicated tables and counters; the session and the processing loops |
| `Gotos.dfy`, `Quotas.dfy`, `QuotaSafety.dfy`, `QuotaBudget.dfy`, `QuotaEffects.dfy`, `Managers.dfy` | goto rewriting; transactions; what every run keeps; from where the budget is safe for ever; when each is accepted and what it writes; the managers |
| `Transports.dfy`, `TransportManager.dfy` | the table and its invariant; the manager |
| `Netstrings.dfy`, `SocketMap.dfy` | framing and replies; the stream objects and the request loop |

Some promises turn out to hold only under a condition. Each of these is stated as an equivalence or with a concrete
counterexample:

- DMARC counters equal the sums of the non-negative counts exactly when no stored report has a positive count after a
  negative one, because a negative count raises in the middle of the loop (`Dmarc.CountersAreSumsIff`); redelivery is
  without effect exactly when the first delivery did not stop on a negative count with a later report still to be stored
  (`Dmarc.RedeliveryIsNoopIff`).
- SPF evaluation terminates exactly on acyclic includes and redirects (`SpfEval.TerminatesIffAcyclic`). The code departs
  from RFC 7208 and the model follows the code: a live `redirect=` discards what was collected and wins over later
  mechanisms (RFC 7208, section 6.1, ignores it when an `all` mechanism is present and applies it only when no mechanism
  matches), and there is no lookup limit (section 4.6.4). A length
  without a domain, as in `a/24` (section 5.3), is not understood, and the term names no host (`SpfTerms.ActionMeans`).
- Negative amounts are accepted. The invariant of the quota tables, of which non-negative quotas and sound limits are part,
  holds throughout a run exactly when every accepted amount is not negative (`QuotaSafety.RunFitsIff`). The budget itself,
  that a domain's mailboxes fit its limits, is safe in every later run of non-negative amounts exactly when no mailbox has
  a negative quota or usage now (`QuotaBudget.BudgetHoldsIff`), which one transaction keeps exactly when it is refused or
  its amounts are not negative (`QuotaBudget.StepKeepsBudgetIff`). A run with a negative quota overruns the budget
  (`QuotaSafety.NegativeQuotaCounterexample`).
- Under the name of an alias domain the figures of the target are advertised, while mailboxes of a domain of that name are
  checked against its own. Both agree exactly when both or neither have a place left and, if so, the same maximum
  (`QuotaSafety.AdvertisedApplyIff`).
- Bans and blacklist entries share their drop rules. A blacklisted network keeps one rule per entry throughout a run
  exactly when no ban of it is lifted while it has no rule beyond those (`Fail2banCover.FreshRunIsCoveredIff`). One attempt,
  a listing and a queued unban leave it without any, and a list that stays the same never adds one again
  (`Fail2banCover.UncoveredCounterexample`).
- `update_domain` compares the new per-mailbox maximum with one arbitrary mailbox. That check is enough exactly when the
  domain does not hold both a mailbox over and a mailbox within the new maximum, or the update is refused anyway
  (`QuotaSafety.GuardSufficesIff`).
- While the two stores correspond, setting a plain value leaves them indistinguishable exactly when it is not a JSON
  document (`Stores.PlainIsExact`).
- A transport moved to another nexthop keeps its stored credentials: sessions have `autoflush=False`, so the bulk update
  runs on rows as stored and misses it, while the pending username and password of the object, which the statement
  matches in memory, are expired. Credentials stay consistent per nexthop throughout a run exactly when each accepted
  update lands: the row is reached, or where it moves to nobody has other credentials than its stored ones
  (`Transports.RunIsConsistentIff`, `Transports.MovedRowCounterexample`). With a flush first, every run is consistent
  (`Transports.FlushedRunsAreConsistent`).
- Transport passwords are synchronised for equal nexthops only. Across spellings with and without brackets they stay equal
  throughout a run exactly when each accepted create and update gives its row the password that the other spellings have
  (`Transports.RunKeepsSpellingsIff`, `Transports.CreateKeepsSpellingsIff`, `Transports.UpdateKeepsSpellingsIff`).
- Deleting a mailbox keeps exactly the aliases that never listed it as they were, for every address without a comma
  (`QuotaSafety.KeptIffUnlisted`). The API's e-mail type admits no others (`backend/taramail/api.py:282`); a direct call of
  the manager with a comma in the address also deletes an alias whose goto is that text, though it never listed the address
  (`QuotaSafety.UnlistedIsKeptIff`, `QuotaSafety.CommaCounterexample`).
- With no domain at all the allowed-domain pattern is `()`, which accepts the empty string (`Patterns.AllowedDomainsExact`).

## Model

| member | source | states |
|---|---|---|
| AliasExpansion.RspamdAliasexp.ExpandAlias | backend/taramail/rspamd.py:300-348 | The answer is the sole active mailbox reached from the starting gotos by at most `max_loops` expansions, "" when there is none or several; lookup errors come first |
| AliasPrecedence.OwnAliasFirst | backend/taramail/rspamd.py:330-334 | An address with an active, non-empty alias row starts from that row's gotos, whatever catch-all and alias domain there are |
| AliasPrecedence.CatchAllSecond | backend/taramail/rspamd.py:336-340 | Without one it starts from the gotos of the domain's catch-all, whatever alias domain there is |
| AliasPrecedence.AliasDomainThird | backend/taramail/rspamd.py:342-348 | Without either it starts from the same local part at the target of the alias domain, or from nowhere |
| AliasPrecedence.LookupErrors | backend/taramail/rspamd.py:326-328 | The lookup raises for an invalid address and for one in a domain that is not managed |
| AliasPrecedence.LookupSucceedsIff | backend/taramail/rspamd.py:326-328 | It succeeds exactly for valid addresses with one `@` in a managed domain |
| AliasPrecedence.GotoLeadsOn | backend/taramail/rspamd.py:370-388 | A goto met on the way leads to the gotos of its own alias, else to its local part at the target of its alias domain, else nowhere |
| AliasPrecedence.GotoLeadsNowhere | backend/taramail/rspamd.py:362-368 | An invalid goto or one in an unmanaged domain leads nowhere; only one with another number of `@` raises |
| AliasPrecedence.EndsAtActiveMailboxes | backend/taramail/rspamd.py:350-358 | The search ends at the usernames of active mailboxes |
| AliasPrecedence.CatchAllIsForRecipients | backend/taramail/rspamd.py:360-388 | The gotos met on the way never use a catch-all |
| AliasPrecedence.OwnAliasDecides | backend/taramail/rspamd.py:300-388 | The whole answer for an address with an alias of its own does not depend on any catch-all |
| AliasExpansion.RspamdAliasexp.Search | backend/taramail/rspamd.py:306-322 | The while loop computes that answer over an arbitrary goto graph, cycles included, whatever order sets are listed in |
| AliasExpansion.RspamdAliasexp.Round | backend/taramail/rspamd.py:311-315 | One round finds exactly the mailboxes among the gotos and exactly the branches of the others, or stops at a goto that raises |
| AliasExpansion.RspamdAliasexp.Deduplicate | backend/taramail/rspamd.py:317 | The next frontier has the same members, in any order |
| AliasExpansion.Graph.BoundSuffices | backend/taramail/rspamd.py:297-317 | With at most `max_loops` reachable non-mailbox addresses the bounded search reaches all that is reachable at all |
| AliasExpansion.Graph.CutCycles | backend/taramail/rspamd.py:306-317 | Every walk shortens to one without repeats: the pigeonhole step behind the bound |
| AliasExpansion.Graph.WithinIsSeen | backend/taramail/rspamd.py:306-317 | The frontiers of the first rounds are together what that many expansions reach |
| AliasExpansion.Graph.AnswerFromFinals | backend/taramail/rspamd.py:319-322 | Exactly one final mailbox is the answer; otherwise "" |
| AliasExpansion.Graph.AnswerIsUnique | backend/taramail/rspamd.py:300-322 | The reached set determines the answer, up to which of several raising gotos is reported |
| AliasExpansion.Graph.OrderIsIrrelevant | backend/taramail/rspamd.py:300-348 | Order and repetition of the starting gotos do not change the answer |
| AliasExpansion.Graph.RowOrderIsIrrelevant | backend/taramail/rspamd.py:311-388 | Order and repetition inside the alias rows met on the way do not change what is reached, nor the answer |
| AliasExpansion.TagIsStripped | backend/taramail/email.py:35-37 | `local+tag@domain` becomes `local@domain`, whatever the tag contains |
| AliasExpansion.UntaggedIsKept | backend/taramail/email.py:35-37 | An address without a `+` before an `@` is kept |
| Regex.EscapeMatchesOnlyItself | backend/taramail/rspamd.py:130 | An escaped text, read as a pattern, matches that text and nothing else |
| Regex.ReadEscaped | backend/taramail/rspamd.py:260-279 | An escaped text is read back as its literal characters, also inside an alternation |
| Patterns.CompilePreservesMeaning | backend/taramail/rspamd.py:260-279 | Every list entry compiles to a readable pattern that full-matches a text exactly when the entry, as a glob, does |
| Patterns.ReadCompiled | backend/taramail/rspamd.py:260-279 | The compiled entry is read back item by item: `.*` for each star, a literal for everything else, backslashes included |
| Patterns.AllowedDomainsExact | backend/taramail/rspamd.py:118-130 | The alternation accepts the allowed names and nothing else; with none it accepts "" |
| Spf.SPFResolver.GetSpfAllowedHosts | backend/taramail/spf.py:122-150 | The nested loops compute the evaluation of the zone's net, recursion included |
| Spf.SPFResolver.ProcessRecord | backend/taramail/spf.py:135-148 | The loop over the terms of one record: stop at `-` or `~`, return at a redirect, skip other modifiers, else collect |
| Spf.SPFResolver.ProcessAll | backend/taramail/spf.py:130-148 | The loop over TXT records, in order, until one returns |
| Spf.SPFResolver.ProcessTxt | backend/taramail/spf.py:131-133 | A record that is not v=spf1 contributes nothing |
| Spf.SPFResolver.ParseMechanism | backend/taramail/spf.py:59-84 | Hosts of one mechanism: a, mx, ip4, ip6, include of another domain, with the cidr appended |
| Spf.SPFResolver.GetMxHosts | backend/taramail/spf.py:115-120 | Addresses of all mail exchangers, first occurrences in order |
| Spf.SPFResolver.DeduplicateHosts | backend/taramail/spf.py:87-102 | First occurrences in order, each spelled out |
| Spf.EvaluationIsExact | backend/taramail/spf.py:122-150 | For every zone: termination exactly on acyclic includes and redirects, and then exactly the derivable hosts |
| SpfPolicies.PoliciesAreExact | backend/taramail/spf.py:59-150 | For zones whose records are printed from terms: evaluation ends exactly when includes and redirects never return, and then gives exactly the hosts that the terms' meaning allows, lengths and spelling included |
| SpfPolicies.RecordIsRead | backend/taramail/spf.py:130-133 | A printed v=spf1 record is read back term by term, and any other record has no terms |
| Text.SpacesListed | backend/taramail/spf.py:131 | The white space at which a record is split |
| SpfPolicies.ActionsMean | backend/taramail/spf.py:135-148 | The mechanisms evaluated are exactly those before any stop of their record and any live redirect |
| SpfPolicies.RedirectMeans | backend/taramail/spf.py:143-146 | The redirect followed is the first live `redirect=` term |
| SpfPolicies.EdgeMeans | backend/taramail/spf.py:72-73 | A domain leads to exactly the domains its evaluated includes name and that of its first live redirect |
| SpfTerms.JudgeMeans | backend/taramail/spf.py:135-148 | Every printed term stops its record (`-`, `~`), redirects, is skipped, or acts as its mechanism |
| SpfTerms.ActionMeans | backend/taramail/spf.py:59-84 | A mechanism follows the other domain it includes, or gives exactly the hosts it names: addresses for `a`, addresses of exchangers for `mx`, the text for `ip4` and `ip6`, with its length appended |
| SpfTerms.MechanismIsRead | backend/taramail/spf.py:64-70 | A mechanism is read into name, target and length at the first colon and the last slash |
| SpfTerms.MxHostsMean | backend/taramail/spf.py:115-120 | A host is given by `mx` exactly when some exchanger of the domain has that address |
| SpfEval.ReturnsExactlyDerivable | backend/taramail/spf.py:122-150 | A host is returned if and only if a finite chain of live terms derives it |
| SpfEval.ReturnedIsDerivable | backend/taramail/spf.py:72-84 | Soundness half: a returned host has a chain |
| SpfEval.DerivedIsReturned | backend/taramail/spf.py:72-84 | Completeness half: every chain's host is returned |
| SpfEval.TerminatesIffAcyclic | backend/taramail/spf.py:72-73 | Some recursion limit suffices if and only if no path of includes and redirects visits a domain twice |
| SpfEval.LimitIsIrrelevant | backend/taramail/spf.py:72-73 | The recursion limit decides only whether evaluation ends: all limits that suffice give the same list |
| SpfEval.DistinctKeepsOne | backend/taramail/spf.py:91-94 | Deduplication keeps every host and repeats none |
| SpfEval.DistinctKeepsOrder | backend/taramail/spf.py:91-94 | What is kept stands in the order of first occurrences |
| SpfEval.CollectInOrder | backend/taramail/spf.py:147-148 | Hosts are collected in the order of the terms |
| SpfRecords.RecordsFollowPlan | backend/taramail/spf.py:130-150 | The record loops compute the outcome of the plan made of the live terms |
| SpfRecords.LiveIsPositional | backend/taramail/spf.py:135-138 | Live terms are exactly those before the first `-` or `~` term of their record |
| SpfRecords.RedirectIsFirst | backend/taramail/spf.py:143-146 | The redirect followed is the one at the earliest live position |
| SpfRecords.PlanIsPositional | backend/taramail/spf.py:135-148 | With a live redirect only the first one counts; without one, exactly the live mechanisms count |
| SpfRecords.ReachedIsPositional | backend/taramail/spf.py:135-148 | With or without a redirect, the mechanisms evaluated are the live ones with no live redirect before them |
| Nftables.ShutdownUndoesStartup | backend/taramail/netfilter.py:124-271 | From chains without a trace of the mail tables: start-up, anything confined to the mail chain, then clear, gives back the original chains and rules in order |
| TableRuns.EveryRunShutsDown | backend/taramail/netfilter.py:124-271 | Start-up on a clean ruleset, any run of bans, unbans and isolation rules, then clear: exactly the original chains and rules, in order |
| TableRuns.EveryRunJumpsFirst | backend/taramail/netfilter.py:124-271 | From any ruleset: after clear and start-up, at every point of every run, the jump is at position 0 of both base chains |
| TableRuns.RunOnlyMail | backend/taramail/netfilter.py:214-253 | No run of table commands changes anything but the mail chain's rules |
| Nftables.StartupInstalls | backend/taramail/netfilter.py:124-163 | Start-up puts a jump at the head of both base chains and adds the mail chain |
| Nftables.StaysInstalled | backend/taramail/netfilter.py:214-253 | Changes of the mail chain's rules keep the tables installed over the same base |
| Nftables.ClearUninstalls | backend/taramail/netfilter.py:255-271 | Clearing installed tables gives back the base, rule for rule |
| Nftables.ClearCleans | backend/taramail/netfilter.py:255-271 | Clearing leaves no trace, whatever the ruleset was |
| Nftables.JumpStaysFirst | backend/taramail/netfilter.py:124-212 | From any ruleset: after clear and start-up the jump is at position 0 of both base chains and stays there while only the mail chain changes |
| Nftables.InstalledJumpsFirst | backend/taramail/netfilter.py:165-212 | While the tables are installed the jump is at position 0 |
| Nftables.DeletingCommented | backend/taramail/netfilter.py:214-221 | Deleting by handle the rules with a comment deletes exactly those rules |
| Nftables.DeletingFirst | backend/taramail/netfilter.py:465-493 | Deleting by handle the rule found deletes exactly the first drop rule of the network |
| Nftables.WithoutFirstCounts | backend/taramail/netfilter.py:465-493 | In a mail chain an unban takes one rule of its network if there is one, and leaves every other network, the isolation rules and the order |
| Nftables.IsolatedReplaces | backend/taramail/netfilter.py:214-253 | Afterwards one isolation rule heads the chain and the other rules follow in order |
| Nftables.CommentPositionIsFirst | backend/taramail/netfilter.py:198-212 | The position found is that of the first rule with the comment, or there is none |
| Nftables.HookedOnce | backend/taramail/netfilter.py:124-144 | A base chain that already has the jump does not get another one |
| NetfilterTables.NetfilterTables.InitChains | backend/taramail/netfilter.py:107-122 | The base chain of a hook is the first among those of lowest priority; "" when there is none |
| NetfilterTables.BaseChainsAreFound | backend/taramail/netfilter.py:107-122 | What it finds exists and is not the same chain twice |
| NetfilterTables.NetfilterTables.InsertMailChains | backend/taramail/netfilter.py:124-144 | Adds the mail chain and the missing jumps, nothing else |
| NetfilterTables.NetfilterTables.InsertMailRule | backend/taramail/netfilter.py:146-163 | Inserts the commented jump at the head of a chain |
| NetfilterTables.NetfilterTables.FindComment | backend/taramail/netfilter.py:132-138 | Finds whether a chain has a rule with the comment |
| NetfilterTables.NetfilterTables.Check | backend/taramail/netfilter.py:198-212 | Position of the first commented rule, -1 without one, none without a base chain |
| NetfilterTables.NetfilterTables.CheckChainOrder | backend/taramail/netfilter.py:165-196 | Raises exactly when a base chain does not start with the jump |
| NetfilterTables.NetfilterTables.CreateIsolationRule | backend/taramail/netfilter.py:214-253 | Replaces all isolation rules by one at the head of the mail chain |
| NetfilterTables.NetfilterTables.DeleteCommented | backend/taramail/netfilter.py:267-268 | The deletion loop removes exactly the commented rules of one chain |
| NetfilterTables.NetfilterTables.Clear | backend/taramail/netfilter.py:255-271 | Flushes the mail chain, removes the jumps and the chain |
| NetfilterTables.NetfilterTables.Ban | backend/taramail/netfilter.py:432-463 | Inserts one drop rule at the head of the mail chain |
| NetfilterTables.NetfilterTables.Unban | backend/taramail/netfilter.py:465-493 | Deletes the first drop rule of the network; raises when a rule before it does not start with a match |
| Fail2ban.BanTimeIsMonotone | backend/taramail/netfilter.py:632-638 | Ban time is within 1800 and 10000 s and monotone in the counter |
| Fail2ban.RoundIsNearest | backend/taramail/netfilter.py:684 | The end of a ban is rounded to the nearest second, halves to even |
| Fail2ban.RunKeepsHistory | backend/taramail/netfilter.py:640-734 | In every run `attempts` is the longest suffix of non-whitelisted attempts since the last unban with gaps within the retry window; last attempt and counter agree with history |
| Fail2ban.AttemptBansOnStreak | backend/taramail/netfilter.py:673-700 | An attempt inserts a rule, and sets the ban's end, exactly when it is not whitelisted and its streak reaches the threshold |
| Fail2ban.StreakIsLongest | backend/taramail/netfilter.py:676-678 | The counted suffix is maximal: every longer one has a gap beyond the window |
| Fail2ban.StreakIsUnique | backend/taramail/netfilter.py:676-678 | The streak length is determined by the times |
| Fail2banSafety.EveryRunIsSafe | backend/taramail/netfilter.py:640-803 | From a fresh start, in every run: faithful counters, enforcement, blacklist conservation, untouched isolation rules |
| Fail2banSafety.RunEnforces | backend/taramail/netfilter.py:683-734 | A network no blacklist entry denotes, over the threshold, has at least attempts - 9 drop rules and is listed in F2B_ACTIVE_BANS |
| Fail2banCounts.EveryRunCountsExactly | backend/taramail/netfilter.py:683-803 | In every run from a fresh start every network has exactly the drop rules of its history: one more per attempt over the threshold and per entry blacklisted, one less, if any, per unban and per entry removed |
| Fail2banCounts.TenTriesBan | backend/taramail/netfilter.py:673-700 | From a fresh start an address outside the whitelist that keeps trying, ten minutes apart at most, has no drop rule up to nine attempts and one more for each from the tenth on |
| Fail2banCounts.PauseStartsOver | backend/taramail/netfilter.py:676-678 | An attempt after more than ten minutes is the first of a new series |
| Fail2banWhitelist.OverlapsIff | backend/taramail/netfilter.py:656-658 | Two networks overlap exactly when some address lies in both |
| Fail2banWhitelist.AttemptIsHeardIff | backend/taramail/netfilter.py:653-668 | An attempt changes nothing exactly when its address lies inside a whitelisted network; otherwise it is recorded |
| Fail2banWhitelist.UnheardChangesNothing | backend/taramail/netfilter.py:653-668 | Leaving out the attempts from inside the whitelist of their time changes no state of any run |
| Fail2banWhitelist.InsideIsNeverBanned | backend/taramail/netfilter.py:653-700 | In no run is an address that stays inside the whitelist recorded or listed as banned |
| Fail2banCounts.StreakLengthIsStreak | backend/taramail/netfilter.py:676-680 | The streak as computed from the times is the longest suffix within the window |
| Fail2banSafety.RunConserves | backend/taramail/netfilter.py:736-803 | A network without a ban record has as many drop rules as blacklist entries that denote it |
| Fail2banSafety.StepKeepsIsolation | backend/taramail/netfilter.py:465-493 | No step deletes, adds or reorders an isolation rule, and no unban can raise |
| Fail2banPurge.PurgeLiftsExactlyTheDue | backend/taramail/netfilter.py:769-780 | After a purge nothing is expired; what was queued or expired is lifted exactly once; all else is unchanged |
| Fail2banPurge.PurgeKeepsOtherRules | backend/taramail/netfilter.py:769-780 | A purge leaves the drop rules of networks neither queued nor expired |
| Fail2banPurge.QuietIsNotBanned | backend/taramail/netfilter.py:775-780 | After a purge no network quiet for over 10000 s counts as banned |
| Fail2banPurge.BanLasts | backend/taramail/netfilter.py:632-638 | A ban that is not queued is lifted exactly when the attempts have stopped for longer than 1800, 3600, 7200 and then 10000 s |
| Fail2banPurge.UnbanDequeues | backend/taramail/netfilter.py:711-734 | An unban takes exactly its network out of the queue |
| Fail2banPurge.PurgeEmptiesQueue | backend/taramail/netfilter.py:769-774 | A purge empties the queue of unbans |
| Fail2banPurge.QueuedUnbanLiftsOnce | backend/taramail/netfilter.py:769-780 | A queued unban lifts its network once: unless queued again, a later purge lifts it only when a ban has run out |
| Fail2banCover.PurgeTakesOneRule | backend/taramail/netfilter.py:769-780 | A purge takes exactly one drop rule, if there is one, from each recorded network that is queued or expired |
| Fail2banCover.StepKeepsCoveredIff | backend/taramail/netfilter.py:711-803 | A step leaves a blacklisted network a rule per entry exactly when it does not lift a ban of it while it has no rule beyond those |
| Fail2banCover.FreshRunIsCoveredIff | backend/taramail/netfilter.py:711-803 | The same throughout every run from a fresh start |
| Fail2banCover.UncoveredCounterexample | backend/taramail/netfilter.py:711-803 | A run after which a network is blacklisted, has no drop rule, and gets none from an unchanged list |
| Netfilter.Netfilter.constructor | backend/taramail/netfilter.py:610-616 | A new service over started tables is a fresh start |
| Netfilter.Netfilter.BanAddress | backend/taramail/netfilter.py:640-709 | One failed login is one attempt step; a private address changes nothing; a text that is no address raises |
| Netfilter.Netfilter.CountAttempt | backend/taramail/netfilter.py:673-681 | Counts the attempt, starting over after the retry window |
| Netfilter.Netfilter.IsWhitelisted | backend/taramail/netfilter.py:656-667 | Whether some whitelist network overlaps the address |
| Netfilter.Netfilter.PunishIfDue | backend/taramail/netfilter.py:683-700 | Bans and lists the network when the threshold is reached |
| Netfilter.Netfilter.UnbanNet | backend/taramail/netfilter.py:711-734 | One unban is one unban step; an unknown network only leaves the queue |
| Netfilter.Netfilter.PermBanEntry | backend/taramail/netfilter.py:736-750 | A blacklist entry is banned or unbanned in the table of its family |
| Netfilter.Netfilter.Autopurge | backend/taramail/netfilter.py:769-780 | The two loops do the queued unbans, then the expired ones, each network once |
| Netfilter.Netfilter.UpdateBlacklist | backend/taramail/netfilter.py:787-803 | Bans the added entries and unbans the removed ones; nothing when the list is the same |
| Netfilter.Netfilter.UpdateWhitelist | backend/taramail/netfilter.py:805-816 | Only the whitelist changes |
| Netfilter.Netfilter.Clear | backend/taramail/netfilter.py:818-829 | Every ban is lifted, the active list emptied, and both kernels are back at the chains before start-up |
| Netfilter.Netfilter.ChainOrder | backend/taramail/netfilter.py:782-785 | Never raises while the tables are installed |
| Netfilter.Netfilter.Start | backend/taramail/netfilter.py:960-970 | Clear, insert and isolate install the tables over clean base chains, with at most the isolation rule in the mail chain |
| Netfilter.Netfilter.LiftAll | backend/taramail/netfilter.py:820-821 | The shutdown loop lifts every recorded ban once and leaves the tables installed |
| NetfilterService.Handle | backend/taramail/netfilter.py:864-930 | One wake-up of a service task is at most one step of the machine and leaves the tables installed; it stops the service exactly on a log line whose text is no address |
| NetfilterService.Serve | backend/taramail/netfilter.py:864-930 | Any requests in any order, up to the first that stops the service, are a run of the machine |
| NetfilterService.ServeFresh | backend/taramail/netfilter.py:864-930 | From a fresh start that run is safe: faithful counters, enforcement, exact rule counts, blacklist conservation, untouched isolation rules |
| NetfilterService.FreshRunIsSafe | backend/taramail/netfilter.py:640-803 | All of this for every network and network text at once |
| NetfilterService.Prepare | backend/taramail/netfilter.py:610-616 | The tables of a family, with base chains that exist, differ and are the ones chosen by hook and priority |
| NetfilterService.Boot | backend/taramail/netfilter.py:610-616 | Finding the base chains and start-up over any rulesets give a fresh, valid service over the cleared chains |
| NetfilterService.Work | backend/taramail/netfilter.py:960-970 | Through start-up and all requests the IPv4 chain holds exactly one isolation rule, for br-taramail and port 6379, and the IPv6 chain none |
| NetfilterService.Live | backend/taramail/netfilter.py:932-996 | Ended by SIGTERM the service leaves the cleared rulesets, which are the original ones if they held no trace of the mail tables; otherwise the tables stay installed and the port closed; the exit code is 2 exactly when a request stopped it |
| NetfilterService.RunOneMore | backend/taramail/netfilter.py:864-930 | A run extended by one possible event is a run |
| NetfilterService.ClearOfClean | backend/taramail/netfilter.py:255-271 | Clearing a ruleset without a trace of the mail tables changes nothing |
| Stores.StoresAgree | backend/taramail/store.py:96-302 | For every sequence of operations whose plain values are not JSON documents both stores give the same replies, as values: results, counts, key order, errors |
| Stores.OperationSimulates | backend/taramail/store.py:96-302 | One operation: same reply, and the representations still correspond |
| Stores.PlainIsExact | backend/taramail/store.py:96-141 | From any stores that correspond: after a plain value is set they agree on all further sequences of operations if and only if it is not a JSON document |
| StoreLaws.HSetLaw | backend/taramail/store.py:277-282 | After hset the field reads as the value set and every other field as before; it counts 1 exactly when hget gave nothing |
| StoreLaws.HSetKeepsOrder | backend/taramail/store.py:277-282 | A field keeps its place in hkeys, and a new one goes last |
| StoreLaws.HDelLaw | backend/taramail/store.py:284-293 | After hdel exactly the fields named read as missing |
| StoreLaws.HDelKeepsOrder | backend/taramail/store.py:284-293 | The other fields keep their order, and those that went were counted |
| StoreLaws.SetLaw | backend/taramail/store.py:229-233 | After set the value reads back, as text only |
| StoreLaws.DeleteLaw | backend/taramail/store.py:235-243 | After delete exactly the keys named are missing and all others are as before |
| StoreLaws.DeleteCounts | backend/taramail/store.py:235-243 | The count is the number of keys that went |
| StoreLaws.FlushLaw | backend/taramail/store.py:300-302 | After flushall every key is missing |
| StoreLaws.OtherKeysStay | backend/taramail/store.py:229-293 | An operation on one key leaves every other key as it was |
| StoreLaws.TextRefuses | backend/taramail/store.py:277-293 | A plain value refuses hset and hdel and stays |
| StoreLaws.HGetAllLaw | backend/taramail/store.py:261-275 | hgetall lists the names of hkeys, each with the value of hget |
| StoreLaws.LawsHoldThroughout | backend/taramail/store.py:96-302 | After any plain operations the memcached store replies as the memory store does, so the laws hold of both throughout every run |
| StoreLaws.OtherJsonReplies | backend/taramail/store.py:96-176 | A JSON document that is no object reads back as text and fails each hash operation in its own way |
| Json.DictRoundTrip | backend/taramail/store.py:154-157 | Every dict of strings is read back from its JSON text, fields in order |
| Json.PairForm | backend/taramail/store.py:154-157 | A pair of printable texts is written with quotes, a colon and a blank |
| Json.DumpsForm | backend/taramail/store.py:154-157 | Pairs stand between braces with a comma and a blank between them |
| Json.CodecIsLawful | backend/taramail/store.py:125-157 | The concrete JSON texts satisfy the law the simulation assumes |
| StoreObjects.MemoryStore.HDel | backend/taramail/store.py:284-293 | Deleting through the live dict that `hgetall` returned changes the stored record as specified, and no other dict handed out |
| StoreObjects.DeleteFields | backend/taramail/store.py:288-291 | The loop deletes the fields present and counts them |
| StoreObjects.MemoryStore.HGetAll | backend/taramail/store.py:261-275 | Returns the live dict of an existing key and a fresh one for a missing key |
| StoreObjects.MemoryStore.HSet | backend/taramail/store.py:277-282 | Creates the dict when missing, sets the field in place, counts new fields, and changes no other dict handed out |
| StoreObjects.MemoryStore.Get | backend/taramail/store.py:213-227 | Reply of the specification, type errors included |
| StoreObjects.MemoryStore.Set | backend/taramail/store.py:229-233 | Replaces the record |
| StoreObjects.MemoryStore.Delete | backend/taramail/store.py:235-243 | Deletes and counts the keys present |
| StoreObjects.MemoryStore.HGet | backend/taramail/store.py:245-259 | Reply of the specification |
| StoreObjects.MemoryStore.HKeys | backend/taramail/store.py:295-298 | Field names in order |
| StoreObjects.MemcachedStore.HDel | backend/taramail/store.py:159-171 | Rewrites the JSON text only when a field was deleted |
| StoreObjects.MemcachedStore.HSet | backend/taramail/store.py:143-157 | Rewrites the JSON text with the field set, counts new fields |
| StoreObjects.MemcachedStore.Get | backend/taramail/store.py:96-107 | A JSON object under the key is a type error, any other text is returned |
| StoreObjects.MemcachedStore.Delete | backend/taramail/store.py:115-117 | Deletes and counts the keys present |
| StoreObjects.MemcachedStore.HGet | backend/taramail/store.py:119-130 | Reply of the specification |
| StoreObjects.MemcachedStore.HGetAll | backend/taramail/store.py:132-141 | Decodes afresh; a text that is not JSON is a type error |
| StoreObjects.MemcachedStore.HKeys | backend/taramail/store.py:173-176 | Field names in order |
| Dmarc.StoredOnceFirstWins | backend/taramail/dmarc.py:190-260 | Under any deliveries report ids stay unique and what is stored is never changed |
| Dmarc.CountersFollowTables | backend/taramail/dmarc.py:190-260 | In every run each label's counter is a function of the stored reports: the counts before each report's first negative one |
| Dmarc.CountersAreSumsIff | backend/taramail/dmarc.py:224-232 | The counters are the sums of all non-negative counts exactly when no stored report has a positive count after a negative one |
| Dmarc.RaisesIff | backend/taramail/dmarc.py:247-258 | Processing raises exactly when some document is malformed or is a report, neither stored nor earlier in the message, with a negative count |
| Dmarc.ProcessedCountsClean | backend/taramail/dmarc.py:250 | In every run the processed counter rises by the reports newly stored without a negative count |
| Dmarc.FailedIff | backend/taramail/dmarc.py:293-299 | The failed counter rises exactly for a message that cannot be read or raises |
| Dmarc.RedeliveryIsNoopIff | backend/taramail/dmarc.py:247-258 | Redelivery at once has no effect exactly when the first delivery did not stop on a negative count with a report left to store |
| Dmarc.LateRedeliveryIsNoopIff | backend/taramail/dmarc.py:247-258 | A message once delivered has no further effect, whatever comes in between, exactly when its delivery did not stop on a negative count with a report left to store |
| Dmarc.NonNegativeLeavesNone | backend/taramail/dmarc.py:247-258 | That is so for every message without negative counts |
| Dmarc.SettledIsNoop | backend/taramail/dmarc.py:205-211 | A message changes nothing if and only if every report before its first malformed one is already stored |
| Dmarc.DeliverySettles | backend/taramail/dmarc.py:247-258 | When a delivery leaves its message without further effect |
| Dmarc.NegativeCountCounterexample | backend/taramail/dmarc.py:224-232 | A message whose redelivery stores another report and whose counters fall short |
| DmarcService.StoreReport | backend/taramail/dmarc.py:190-221 | Stores report and records in one commit and returns true, or finds the id and changes nothing |
| DmarcService.Session.FlushReport | backend/taramail/dmarc.py:205-211 | Refused exactly when the report id is already stored |
| DmarcService.Processor.UpdateMetrics | backend/taramail/dmarc.py:224-232 | Counts record by record and raises at the first negative count |
| DmarcService.Processor.ProcessMessage | backend/taramail/dmarc.py:235-260 | The documents of one message, stopping where parsing or counting raises |
| DmarcService.Processor.FetchAndProcess | backend/taramail/dmarc.py:293-299 | One pass delivers every message, counting those that raise as failed |
| Gotos.PatternFindsListed | backend/taramail/mailbox.py:402-405 | The search pattern is found exactly when the address stands in the list between commas or ends; for an address without a comma, exactly when it is a field, or the last field is the address and a line feed |
| Gotos.RewritingRemovesOnly | backend/taramail/mailbox.py:406 | Rewriting removes the address and keeps the other fields; a list without it is untouched |
| Gotos.OthersKeepsOthers | backend/taramail/mailbox.py:406 | The other fields keep their multiplicity |
| Gotos.OthersKeepsOrder | backend/taramail/mailbox.py:406 | The other fields keep their order |
| QuotaSafety.EveryRunFits | backend/taramail/mailbox.py:222-400 | In every state reached by transactions with non-negative amounts: no quota or usage is negative, quotas sum to at most the domain's quota, mailboxes are at most its limit, every mailbox's domain exists, usernames are unique, limits are positive and ordered |
| QuotaSafety.StartIsConsistent | backend/taramail/mailbox.py:222-400 | Tables without domains and mailboxes are where such runs may start |
| QuotaSafety.StepKeepsIff | backend/taramail/mailbox.py:222-400 | One transaction keeps all that, the signs included, exactly when it is refused or its amounts are not negative |
| QuotaSafety.RunFitsIff | backend/taramail/mailbox.py:222-400 | All that, the signs included, holds at every point of a run exactly when every accepted amount is not negative |
| QuotaBudget.BudgetHoldsIff | backend/taramail/mailbox.py:237-366 | From tables where every domain's mailboxes fit: no run of transactions with non-negative amounts ever takes a domain over its quota or its number of mailboxes, if and only if no mailbox has a negative quota or usage |
| QuotaBudget.StepKeepsBudgetIff | backend/taramail/mailbox.py:237-366 | After one transaction on consistent tables the budget is safe in every later run exactly when it was refused or its amounts are not negative |
| QuotaBudget.RunKeepsBudgetIff | backend/taramail/mailbox.py:222-400 | At every point of a run the budget is safe from then on exactly when every accepted amount is not negative |
| QuotaSafety.NegativeQuotaCounterexample | backend/taramail/mailbox.py:237-246 | A run of accepted requests, one with a negative quota, that overruns the domain's quota |
| QuotaSafety.LimitsAreAdvertised | backend/taramail/domain.py:160-180 | The limit checks of `create_mailbox` in a domain pass exactly when a mailbox is left and the quota is at most the maximum advertised under its name, or under that of an alias domain that leads to it |
| QuotaSafety.AdvertisedApplyIff | backend/taramail/domain.py:153-180 | Under a name that is both, advertised figures are the target's: they decide about every mailbox of the domain itself exactly when both or neither have a place left and, if so, the same maximum |
| QuotaSafety.AdvertisedDefaultIsAccepted | backend/taramail/domain.py:163-164 | Advertised figures are never negative, and a mailbox of the advertised default quota can be created |
| QuotaSafety.UpdateLimits | backend/taramail/mailbox.py:345-366 | A quota change is accepted exactly between usage and what the domain allows and has left |
| QuotaSafety.UpdateTouches | backend/taramail/mailbox.py:330-381 | Exactly the mailbox takes quota and flag, exactly the aliases at its address take the flag, and every other row stays |
| QuotaEffects.CreateAcceptedIff | backend/taramail/mailbox.py:222-318 | A mailbox is created exactly when its name is new, its domain exists and has room, the password is accepted and no alias has the address |
| QuotaEffects.CreateRefusals | backend/taramail/mailbox.py:222-318 | Every refusal gives a true reason and its figure; an existing name comes first, an alias at the address last |
| QuotaEffects.CreateWrites | backend/taramail/mailbox.py:222-318 | Exactly one unused mailbox and one alias leading to it are added; a quota of zero or none takes the default |
| QuotaEffects.UpdateAcceptedIff | backend/taramail/mailbox.py:320-381 | An update is accepted exactly when a flag finds an alias, the password is accepted and the quota is between usage and what is allowed and left |
| QuotaEffects.UpdateOfUnknown | backend/taramail/mailbox.py:320-328 | An update is answered not found exactly for an unknown mailbox |
| QuotaEffects.CreateDomainEffect | backend/taramail/domain.py:204-224 | A domain is created exactly when it validates and is new, and is stored with its limits |
| QuotaEffects.ValidatedIff | backend/taramail/domain.py:370-387 | A row validates exactly when default and maximum are not zero and default, maximum and domain quota are in order |
| QuotaEffects.FlagsAreLeast | backend/taramail/domain.py:370-387 | The relaying flags stored are the least ones that hold those given and what they imply |
| QuotaEffects.UpdateDomainAcceptedIff | backend/taramail/domain.py:249-277 | An update is accepted exactly when domain and origin exist, the proposed row validates and leaves room for the quotas, mailboxes, aliases and picked quota |
| QuotaEffects.ProposedTakesGiven | backend/taramail/domain.py:249-264 | Each field given is taken; limits not given are the origin's, the number of aliases and the flags the domain's own |
| QuotaEffects.AliasesAreCounted | backend/taramail/domain.py:328-337 | The aliases counted are those of the domain whose address is no mailbox |
| QuotaEffects.DeleteDomainEffect | backend/taramail/domain.py:279-291 | Deleting takes away the domain, exactly its aliases and exactly the alias domains that lead to it |
| QuotaSafety.DeletionReleases | backend/taramail/mailbox.py:389 | Deleting a mailbox gives back exactly its quota and one place |
| QuotaSafety.GuardSufficesIff | backend/taramail/domain.py:265-275 | Whatever row the query picks, an accepted update leaves no mailbox over the new maximum: exactly when the domain does not hold both a mailbox over and one within it, or the update is refused anyway |
| QuotaSafety.MaximumWouldDo | backend/taramail/domain.py:268-269 | With the largest quota in its place, the check refuses exactly the updates that leave a mailbox over the maximum |
| QuotaSafety.BareQuotaCounterexample | backend/taramail/domain.py:303-314 | An update that passes although a mailbox exceeds the new maximum |
| QuotaSafety.EmptyUpdateIsIdentity | backend/taramail/domain.py:249-277 | An update without fields leaves a domain as it is, when its name is no alias domain |
| QuotaSafety.EmptyUpdateOfAlias | backend/taramail/domain.py:250-258 | When its name is also an alias domain, the four limits of the target are copied |
| QuotaSafety.DeletedIsUnlisted | backend/taramail/mailbox.py:383-406 | After a deletion no alias lists the address, and every alias left is an old one that has at most lost it |
| QuotaSafety.UnlistedIsKeptIff | backend/taramail/mailbox.py:384-406 | An alias that never listed the address is kept as it was exactly when its whole goto is not the address |
| QuotaSafety.KeptIffUnlisted | backend/taramail/mailbox.py:384-406 | For an address without a comma an alias is kept as it was exactly when it never listed the address |
| QuotaSafety.CommaCounterexample | backend/taramail/mailbox.py:384-387 | At an address with a comma: an alias that does not list it is deleted |
| QuotaSafety.CreateThenDelete | backend/taramail/mailbox.py:222-406 | Creating and deleting a mailbox restores the tables exactly when no alias listed the address or had it as its whole goto before |
| Managers.MailboxManager.Create | backend/taramail/mailbox.py:222-318 | Errors in the code's order, the unique alias address at commit last; otherwise one mailbox and one alias are added |
| Managers.MailboxManager.Update | backend/taramail/mailbox.py:320-381 | Errors in the code's order; otherwise quota and active flags are changed |
| Managers.MailboxManager.Delete | backend/taramail/mailbox.py:383-406 | Deletes the mailbox and the aliases that lead to it alone, and rewrites the rest |
| Managers.MailboxManager.RewriteAliases | backend/taramail/mailbox.py:402-406 | The loop rewrites every goto in place as specified |
| Managers.Rewrite | backend/taramail/mailbox.py:402-406 | Selecting by pattern and filtering equals removing the address |
| Managers.DomainManager.Create | backend/taramail/domain.py:204-224 | Validation, then uniqueness; otherwise the domain is added with its flags completed |
| Managers.DomainManager.Update | backend/taramail/domain.py:249-277 | Limits of the origin domain, the fields given, validation, then the checks against what the domain holds, in that order |
| Managers.DomainManager.Delete | backend/taramail/domain.py:279-291 | Refused for a domain with mailboxes; otherwise the domain, its aliases and its alias domains go |
| Managers.DomainManager.Validate | backend/taramail/domain.py:370-387 | The validation errors in order, and the completed relaying flags |
| Managers.DomainManager.PickQuota | backend/taramail/domain.py:303-314 | The bare column is the quota of some mailbox of the domain, or zero |
| Managers.Transact | backend/taramail/db.py:43-51 | One request commits when it succeeds and restores the saved tables when it raises |
| Transports.RunIsConsistentIff | backend/taramail/transport.py:153-276 | At every point of a run destinations are distinct, rows with equal stripped nexthop share a username and rows with equal nexthop share username and password: exactly when each accepted update lands |
| Transports.StepKeepsIff | backend/taramail/transport.py:153-276 | A request keeps that exactly when it is no accepted update that fails to land; creates and deletes always keep it |
| Transports.UpdateKeepsIff | backend/taramail/transport.py:226-241 | An accepted update keeps it exactly when the bulk update reaches the row, or where the row moves to nobody has other credentials than its stored ones |
| Transports.FlushedRunsAreConsistent | backend/taramail/transport.py:153-276 | With a flush before the bulk update every run stays consistent |
| Transports.MovedRowCounterexample | backend/taramail/transport.py:226-241 | In a session without autoflush, a run of accepted requests ends with two rows of one nexthop and different credentials |
| Transports.UpdatedRows | backend/taramail/db.py:78-84 | The table after an update: other rows of the new nexthop take the credentials, the edited row keeps its stored ones unless it is reached |
| Transports.LookupIgnoresChoice | postfix/postfix.sh:217-228 | In a consistent table the limited credential lookup gives the same result whichever row it picks |
| Transports.NoConflictIff | backend/taramail/transport.py:251-269 | No conflict exactly when no other row has the destination, or another username on the same nexthop up to brackets |
| Transports.CreateSetsNexthop | backend/taramail/transport.py:182-184 | After a create all rows of the nexthop carry the new credentials, all others are as they were |
| Transports.UpdateSetsNexthop | backend/taramail/transport.py:226-241 | After an update every other row of the new nexthop carries the credentials given; the edited row does exactly when it is reached or was stored with them; rows of other nexthops are as they were |
| Transports.UpdateWrites | backend/taramail/transport.py:195-236 | The edited row takes each destination, nexthop, kind and flag given and keeps the others; other rows keep all of them |
| Transports.UpdateAsks | backend/taramail/transport.py:206-238 | The credentials asked for are those given, else those stored, and no password without a username |
| Transports.CreateWrites | backend/taramail/transport.py:153-184 | A create adds one row with a new id and what was given |
| Transports.DestinationAcceptedIff | backend/taramail/transport.py:92-119 | Accepted: a pattern that compiles for MX-based rows, else `*`, an address, or a domain of two labels with or without one leading dot |
| Transports.CreateAcceptedIff | backend/taramail/transport.py:153-184 | A create is accepted exactly with a nexthop, an accepted destination and no conflict with any row |
| Transports.UpdateAcceptedIff | backend/taramail/transport.py:186-224 | An update is accepted exactly when the row exists and, as edited, has a nexthop, an accepted destination and no conflict with another row |
| Transports.ConflictIsFirst | backend/taramail/transport.py:251-269 | The error is that of the first row in the way |
| Transports.NormalizeMeans | backend/taramail/transport.py:77-84 | A nexthop is stored stripped, and in brackets exactly when it is a bare address |
| Transports.StripTakesSpaceOnly | backend/taramail/transport.py:77-84 | Stripping takes white space at the ends and nothing else |
| Transports.EmptyUpdateKeepsIff | backend/taramail/transport.py:226-241 | An update without fields keeps the table exactly when the row has no password without a username |
| Transports.CreateKeepsSpellingsIff | backend/taramail/transport.py:182-184 | A create keeps passwords equal across spellings of a nexthop exactly when every other spelling already has the new password |
| Transports.UpdateKeepsSpellingsIff | backend/taramail/transport.py:226-241 | An update keeps them equal exactly when every other row of the new nexthop, in any spelling, ends up with the password the edited row lands with |
| Transports.RunKeepsSpellingsIff | backend/taramail/transport.py:153-276 | Passwords are equal across spellings at every point of a run exactly when each accepted create and update meets that condition |
| Transports.ReachedKeepsSpellingsIff | backend/taramail/transport.py:226-241 | For a row the bulk update reaches: exactly when every other spelling already has its password |
| Transports.BracketSpellingCounterexample | backend/taramail/transport.py:264-276 | Two spellings of one nexthop with different passwords |
| Transports.BracketsAreGreedy | backend/taramail/transport.py:74-89 | Stripping takes the longest group the pattern can match |
| Transports.UnbracketedIsKept | backend/taramail/transport.py:87-89 | Without a match the text is kept |
| Transports.NormalizedIpStripsBack | backend/taramail/transport.py:77-89 | An address stored in brackets strips back to itself |
| TransportManager.Manager.Create | backend/taramail/transport.py:153-184 | Errors in the code's order; otherwise the row is added and its nexthop synchronised |
| TransportManager.Manager.Update | backend/taramail/transport.py:186-241 | Errors in the code's order; otherwise the bulk update runs on the stored rows and the commit writes the row's pending columns |
| TransportManager.Manager.Assign | backend/taramail/transport.py:195-238 | The edited row: fields given, the rest kept, an empty username clearing the password |
| TransportManager.Manager.Delete | backend/taramail/transport.py:243-249 | Removes the row; an error exactly when there was none |
| TransportManager.Manager.CheckConflicts | backend/taramail/transport.py:251-269 | The first clashing row decides the error |
| TransportManager.Manager.SyncCredentials | backend/taramail/transport.py:271-276 | Exactly the rows with this nexthop take the credentials |
| TransportManager.Manager.Transact | backend/taramail/db.py:43-51 | One request commits when it succeeds and restores the table when it raises |
| Netstrings.ReadsBack | backend/taramail/socketmap.py:33-55 | Reading the concatenated encodings gives the payloads in order and leaves the following bytes |
| Netstrings.PrefixFree | backend/taramail/socketmap.py:49-55 | No encoding is a prefix of another |
| Netstrings.AcceptedIff | backend/taramail/socketmap.py:33-46 | What is accepted: a spelling of the length, the payload's UTF-8, and one more byte, which is not compared with the comma |
| Netstrings.ParsePrinted | backend/taramail/socketmap.py:44-55 | A printed length is read back as the same number |
| Netstrings.SignsAreRead | backend/taramail/socketmap.py:44 | A sign before the digits is read |
| Netstrings.SpaceIsStripped | backend/taramail/socketmap.py:44 | White space around the number changes nothing |
| Netstrings.UnderscoreIsSkipped | backend/taramail/socketmap.py:44 | An underscore between digits changes nothing |
| Netstrings.CutShort | backend/taramail/socketmap.py:40-45 | A framing that is cut short is reported as the end of the stream |
| Netstrings.BadIff | backend/taramail/socketmap.py:44-46 | Reading raises exactly for a length that is no number or negative, or a complete payload that is not UTF-8 |
| Netstrings.WrittenForm | backend/taramail/socketmap.py:49-55 | Written is the number of bytes in base ten without leading zeros, a colon, the bytes, a comma |
| Netstrings.OneReplyPerRequest | backend/taramail/socketmap.py:58-80 | Whatever is received, the output decodes to one reply per request read, in order, and nothing else |
| Netstrings.Conversation | backend/taramail/socketmap.py:58-80 | Requests written by a client get exactly their replies |
| Netstrings.RelayDomainReply | backend/taramail/socketmap.py:70-76 | A request for a relay domain is answered OK with the value looked up, or NOTFOUND when there is none or it is empty |
| Netstrings.UnknownMapReply | backend/taramail/socketmap.py:77-79 | A request for any other map is answered PERM |
| Netstrings.OkIff | backend/taramail/socketmap.py:70-79 | A reply starts with OK exactly for a relay domain that is found |
| Netstrings.RequestIsSplit | backend/taramail/socketmap.py:70 | A request is the map's name, a blank and a key that may hold blanks |
| Utf8.DecodeEncode | backend/taramail/socketmap.py:46-54 | Decoding undoes encoding |
| Utf8.EncodedForm | backend/taramail/socketmap.py:46-54 | Encoded characters have the form of section 3 of RFC 3629 |
| Utf8.EncodeDecode | backend/taramail/socketmap.py:46 | Decoding is strict: only a text's own encoding decodes to it |
| SocketMap.ReadNetstring | backend/taramail/socketmap.py:33-46 | The byte loop reads one netstring off the stream, or reports its end or the error raised |
| SocketMap.StreamReader.ReadExactly | backend/taramail/socketmap.py:40-45 | Exactly that many bytes, or all that is left and the end of the stream |
| SocketMap.StreamWriter.WriteNetstring | backend/taramail/socketmap.py:49-55 | Appends one encoding |
| SocketMap.HandleClient | backend/taramail/socketmap.py:58-80 | The loop sends exactly the replies to the requests read, and ends on the stream's end or the error raised |

## Left out

- Spf.SPFResolver.GetSpfAllowedHosts: takes a recursion limit and gives None when it runs out, where the source has no limit of its own; `Spf.EvaluationIsExact` states for which zones some limit suffices, and `SpfEval.LimitIsIrrelevant` that all such limits give the same list.
- SpfTerms.JudgeMeans: covers terms whose parts hold no white space and no delimiter that would be read as another part; what the code makes of any other text is `Spf.SPFResolver.ParseMechanism`.
- AliasPrecedence.OwnAliasDecides: takes for granted that no valid address has an empty local part.
- AliasExpansion.RspamdAliasexp.ExpandAlias: requires a recipient without a line feed, as the validated e-mail type of the source does; the other tables are a fixed snapshot during one expansion.
- Managers.MailboxManager.Update: changes quota and active flags only; name, password hash and the other attributes enter as whether the password is accepted.
- Managers.Transact: transactions are serial, and every statement of these two managers reads rows that the transaction has not assigned before it.
- Managers.MailboxManager.Delete: the rows it deletes in other tables (quarantine, sender and user ACLs, spam aliases, sync jobs, filters, BCC maps) and the SOGo calls are absent.
- Managers.DomainManager.Create: the sender ACL cleanup, DOMAIN_MAP, the DKIM key and the SOGo restart are absent.
- Managers.DomainManager.Delete: the rows it deletes in other tables, DOMAIN_MAP, RL_VALUE and the DKIM key are absent.
- Transports.UpdatedRows: that the bulk update expires the pending attributes of a matched object is SQLAlchemy's default synchronisation of bulk updates, whose code is not part of this model.
- TransportManager.Manager.Create: the integrity error on flush is absent, because the transports table has no unique index on destination (the code's handler for it cannot run).
- NetfilterService.Boot: requires named chains and that no base chain has the mail chain's name, which the source takes for granted.
- NetfilterService.Serve: requests are handled one at a time, because no task awaits while it holds the lock or between its reads and writes; regular expressions over log lines are not modelled.
- Netfilter.Netfilter.UpdateBlacklist: starts after name resolution; F2B_PERM_BANS is not kept, because the table commands return nothing that decides its branches.
- NetfilterTables.NetfilterTables.Unban: a rule outside the mail chain's own kinds counts as one that starts with a match or does not; nft commands are assumed to succeed and handles to be positive.
- Dmarc.CountersFollowTables: counters live as long as the process and the tables start empty with it; a restart, which resets Prometheus counters, is not modelled.
- DmarcService.Processor.FetchAndProcess: a flush error other than a duplicate id (an overlong column, say) is absent; the source does not roll the session back before the next message. IMAP is a list of messages; the \Seen flag (section 6.4.5 of RFC 3501) and therefore retries are outside, and XML parsing (section 7.2 of RFC 7489) either gives a report or raises.
- SocketMap.HandleClient: broken connections while writing, the database lookup and `repr` are parameters or absent; the interpreter's limit of 4300 digits for integers is not modelled; strings hold no lone surrogates.
- Stores.StoresAgree: compares replies when returned; a caller that keeps the dict `MemoryStore.hgetall` hands out sees later changes of that key's fields, and `StoreObjects.MemoryStore.HSet` and `StoreObjects.MemoryStore.HDel` state that it sees nothing else, while `MemcachedStore` decodes a new dict each time.
- StoreObjects.MemcachedStore.Set: non-ASCII keys and plain values, which the memcached client encodes or refuses on its own, and its limits on key and value size, and expiry in either store, are not modelled.
- Json.DictRoundTrip: covers dicts of strings, which is all the stores write; other JSON documents enter through a decoder passed in.
- Regex.EscapeMatchesOnlyItself: the reader covers the generated fragment (literals, `.`, `*`, one alternation), not all regular expressions; full matching is modelled, not rspamd's engine.
- Gotos.PatternFindsListed: uses Python's meaning of the pattern; the database's own dialect and case-insensitive collations are not modelled.
- Quotas: resource mailboxes (a kind other than ""), DKIM keys, DOMAIN_MAP, sender ACLs and the SOGo static view.
- IP parsing, e-mail validation, IDNA, DNS answers, password policies and clocks are parameters.
- String splitting on white space knows ASCII white space only.
- The fallback from SPF to MX to address records: an easy case split over the results proved here.
- SNAT rules: the expression is written at another index than it is read from, so there is no round trip to state.
- FastAPI routes, the command line, logging, migrations, exporters, DKIM, relay hosts, forwarding hosts and the registry: only easy map updates.
