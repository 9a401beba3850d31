/** The nftables rule lists of one address family: a small kernel, and the mail chain kept in it. */
module Nftables {
  import opened Text

  /** An IP network by its first and last address. */
  datatype Network = Network(v6: bool, first: int, last: int)

  /** What a rule's expressions say, as far as the mail tables look at them. */
  datatype Body =
    | Jump(target: string)
    | Isolation(interface: string, dports: seq<int>)
    | Drop(net: Network)
    | Foreign(text: string, startsWithMatch: bool)
  {
    predicate StartsWithMatch() {
      Isolation? || Drop? || (Foreign? && startsWithMatch)
    }
  }

  datatype Rule = Rule(handle: nat, comment: Option<string>, body: Body)

  datatype Chain = Chain(
    table: string, name: string, handle: nat, hook: Option<string>, prio: Option<int>, rules: seq<Rule>)
  {
    /** A filter chain of this name. */
    predicate Is(n: string) {
      table == "filter" && name == n
    }
  }

  type Chains = seq<Chain>

  predicate HasChain(chains: Chains, n: string) {
    exists i :: 0 <= i < |chains| && chains[i].Is(n)
  }

  /** Rules of the first filter chain named `n`; none when there is no such chain. */
  function RulesOf(chains: Chains, n: string): seq<Rule> {
    if chains == [] then [] else if chains[0].Is(n) then chains[0].rules else RulesOf(chains[1..], n)
  }

  function WithRules(c: Chain, n: string, rules: seq<Rule>): Chain {
    if c.Is(n) then c.(rules := rules) else c
  }

  /** The chains with the rules of filter chain `n` replaced. */
  function SetRules(chains: Chains, n: string, rules: seq<Rule>): Chains {
    seq(|chains|, i requires 0 <= i < |chains| => WithRules(chains[i], n, rules))
  }

  /** The chains without the first filter chain named `n`. */
  function WithoutChain(chains: Chains, n: string): Chains {
    if chains == [] then [] else if chains[0].Is(n) then chains[1..] else [chains[0]] + WithoutChain(chains[1..], n)
  }

  /** Filter chain names are unique. */
  ghost predicate UniqueNames(chains: Chains) {
    forall i, j :: 0 <= i < j < |chains| && chains[i].table == "filter" && chains[j].table == "filter" ==>
      chains[i].name != chains[j].name
  }

  ghost predicate DistinctHandles(rules: seq<Rule>) {
    forall i, j :: 0 <= i < j < |rules| ==> rules[i].handle != rules[j].handle
  }

  ghost predicate HandlesBelow(rules: seq<Rule>, next: nat) {
    forall i :: 0 <= i < |rules| ==> rules[i].handle < next
  }

  ghost predicate ValidChains(chains: Chains, next: nat) {
    && UniqueNames(chains)
    && forall i :: 0 <= i < |chains| ==> DistinctHandles(chains[i].rules) && HandlesBelow(chains[i].rules, next)
  }

  // ---- algebra of rule updates ----

  lemma {:induction false} RulesOfUnique(chains: Chains, i: nat)
    requires UniqueNames(chains) && i < |chains| && chains[i].table == "filter"
    ensures RulesOf(chains, chains[i].name) == chains[i].rules
  {
    if i > 0 {
      assert chains[1..][i - 1] == chains[i];
      forall x, y | 0 <= x < y < |chains[1..]| && chains[1..][x].table == "filter" && chains[1..][y].table == "filter"
        ensures chains[1..][x].name != chains[1..][y].name {
        assert chains[x + 1].name != chains[y + 1].name;
      }
      RulesOfUnique(chains[1..], i - 1);
    }
  }

  lemma {:induction false} RulesOfSet(chains: Chains, n: string, m: string, rules: seq<Rule>)
    ensures HasChain(chains, n) ==> RulesOf(SetRules(chains, n, rules), n) == rules
    ensures m != n ==> RulesOf(SetRules(chains, n, rules), m) == RulesOf(chains, m)
    ensures HasChain(SetRules(chains, n, rules), m) <==> HasChain(chains, m)
  {
    var updated := SetRules(chains, n, rules);
    assert forall i :: 0 <= i < |chains| ==> (updated[i].Is(m) <==> chains[i].Is(m));
    if chains != [] {
      assert updated[1..] == SetRules(chains[1..], n, rules);
      RulesOfSet(chains[1..], n, m, rules);
      if HasChain(chains, n) && !chains[0].Is(n) {
        var i :| 0 <= i < |chains| && chains[i].Is(n);
        assert chains[1..][i - 1].Is(n);
      }
    }
  }

  lemma SetSet(chains: Chains, n: string, a: seq<Rule>, b: seq<Rule>)
    ensures SetRules(SetRules(chains, n, a), n, b) == SetRules(chains, n, b)
  {
  }

  lemma SetCommutes(chains: Chains, n: string, m: string, a: seq<Rule>, b: seq<Rule>)
    requires n != m
    ensures SetRules(SetRules(chains, n, a), m, b) == SetRules(SetRules(chains, m, b), n, a)
  {
  }

  lemma SetSame(chains: Chains, n: string)
    requires UniqueNames(chains)
    ensures SetRules(chains, n, RulesOf(chains, n)) == chains
  {
    forall i | 0 <= i < |chains| && chains[i].Is(n) ensures RulesOf(chains, n) == chains[i].rules {
      RulesOfUnique(chains, i);
    }
  }

  lemma SetAbsent(chains: Chains, n: string, rules: seq<Rule>)
    requires !HasChain(chains, n)
    ensures SetRules(chains, n, rules) == chains
  {
    assert forall i :: 0 <= i < |chains| ==> !chains[i].Is(n);
  }

  lemma SetKeepsUnique(chains: Chains, n: string, rules: seq<Rule>)
    requires UniqueNames(chains)
    ensures UniqueNames(SetRules(chains, n, rules))
  {
  }

  lemma {:induction false} RulesOfAppend(chains: Chains, c: Chain, n: string)
    ensures RulesOf(chains + [c], n) ==
            if HasChain(chains, n) then RulesOf(chains, n) else if c.Is(n) then c.rules else []
  {
    if chains == [] {
      assert chains + [c] == [c];
    } else {
      assert (chains + [c])[1..] == chains[1..] + [c];
      RulesOfAppend(chains[1..], c, n);
      if HasChain(chains, n) && !chains[0].Is(n) {
        var i :| 0 <= i < |chains| && chains[i].Is(n);
        assert chains[1..][i - 1].Is(n);
      }
      if HasChain(chains[1..], n) {
        var i :| 0 <= i < |chains[1..]| && chains[1..][i].Is(n);
        assert chains[i + 1].Is(n);
      }
    }
  }

  lemma SetLast(chains: Chains, c: Chain, n: string, rules: seq<Rule>)
    ensures SetRules(chains + [c], n, rules) == SetRules(chains, n, rules) + [WithRules(c, n, rules)]
  {
  }

  // ---- what the table operations do to a rule list ----

  /** The first drop rule of the network, removed; None when a rule before it has no leading match expression. */
  function WithoutFirst(rules: seq<Rule>, net: Network): Option<seq<Rule>> {
    if rules == [] then Some([])
    else if !rules[0].body.StartsWithMatch() then None
    else if rules[0].body == Drop(net) then Some(rules[1..])
    else
      match WithoutFirst(rules[1..], net)
      case None => None
      case Some(rest) => Some([rules[0]] + rest)
  }

  function WithoutComment(rules: seq<Rule>, comment: string): seq<Rule> {
    if rules == [] then []
    else if rules[0].comment == Some(comment) then WithoutComment(rules[1..], comment)
    else [rules[0]] + WithoutComment(rules[1..], comment)
  }

  function CommentedHandles(rules: seq<Rule>, comment: string): seq<nat> {
    if rules == [] then []
    else if rules[0].comment == Some(comment) then [rules[0].handle] + CommentedHandles(rules[1..], comment)
    else CommentedHandles(rules[1..], comment)
  }

  function WithoutHandle(rules: seq<Rule>, handle: nat): seq<Rule> {
    if rules == [] then []
    else if rules[0].handle == handle then WithoutHandle(rules[1..], handle)
    else [rules[0]] + WithoutHandle(rules[1..], handle)
  }

  function WithoutHandles(rules: seq<Rule>, handles: seq<nat>): seq<Rule>
    decreases |handles|
  {
    if handles == [] then rules else WithoutHandles(WithoutHandle(rules, handles[0]), handles[1..])
  }

  /** Number of drop rules for a network. */
  function DropCount(rules: seq<Rule>, net: Network): nat {
    if rules == [] then 0 else (if rules[0].body == Drop(net) then 1 else 0) + DropCount(rules[1..], net)
  }

  /** Position of the first rule with the comment; -1 when there is none. */
  function CommentPosition(rules: seq<Rule>, comment: string): (p: int)
    ensures p >= -1
  {
    if rules == [] then -1
    else if rules[0].comment == Some(comment) then 0
    else
      var p := CommentPosition(rules[1..], comment);
      if p < 0 then p else p + 1
  }

  /** It is the first such position, or there is none. */
  lemma {:induction false} CommentPositionIsFirst(rules: seq<Rule>, comment: string)
    ensures var p := CommentPosition(rules, comment);
            if p < 0 then forall i :: 0 <= i < |rules| ==> rules[i].comment != Some(comment)
            else p < |rules| && rules[p].comment == Some(comment) &&
                 forall i :: 0 <= i < p ==> rules[i].comment != Some(comment)
  {
    if rules != [] && rules[0].comment != Some(comment) {
      CommentPositionIsFirst(rules[1..], comment);
      assert forall i :: 0 < i < |rules| ==> rules[i] == rules[1..][i - 1];
    }
  }

  predicate OnlyMailRules(rules: seq<Rule>) {
    forall i :: 0 <= i < |rules| ==> rules[i].body.Isolation? || rules[i].body.Drop?
  }

  lemma {:induction false} WithoutHandleMembers(rules: seq<Rule>, handle: nat)
    ensures forall r :: r in WithoutHandle(rules, handle) <==> r in rules && r.handle != handle
  {
    if rules != [] {
      WithoutHandleMembers(rules[1..], handle);
      assert rules == [rules[0]] + rules[1..];
    }
  }

  lemma {:induction false} WithoutHandleDistinct(rules: seq<Rule>, handle: nat)
    requires DistinctHandles(rules)
    ensures DistinctHandles(WithoutHandle(rules, handle))
  {
    if rules != [] {
      HandlesTail(rules);
      WithoutHandleDistinct(rules[1..], handle);
      WithoutHandleMembers(rules[1..], handle);
    }
  }

  lemma {:induction false} WithoutAbsentHandle(rules: seq<Rule>, handle: nat)
    requires forall r :: r in rules ==> r.handle != handle
    ensures WithoutHandle(rules, handle) == rules
  {
    if rules != [] {
      WithoutAbsentHandle(rules[1..], handle);
      assert rules == [rules[0]] + rules[1..];
    }
  }

  lemma HandlesTail(rules: seq<Rule>)
    requires rules != [] && DistinctHandles(rules)
    ensures DistinctHandles(rules[1..])
    ensures forall r :: r in rules[1..] ==> r.handle != rules[0].handle
  {
  }

  /** Deleting by handle the rules that carry a comment deletes exactly those rules. */
  lemma {:induction false} DeletingCommented(rules: seq<Rule>, comment: string)
    requires DistinctHandles(rules)
    ensures WithoutHandles(rules, CommentedHandles(rules, comment)) == WithoutComment(rules, comment)
  {
    if rules != [] {
      HandlesTail(rules);
      DeletingCommented(rules[1..], comment);
      var handles := CommentedHandles(rules[1..], comment);
      if rules[0].comment == Some(comment) {
        WithoutAbsentHandle(rules[1..], rules[0].handle);
        assert CommentedHandles(rules, comment)[1..] == handles;
      } else {
        HandlesAreOf(rules[1..], comment);
        KeepHead(rules[0], rules[1..], handles);
        assert rules == [rules[0]] + rules[1..];
      }
    }
  }

  lemma {:induction false} HandlesAreOf(rules: seq<Rule>, comment: string)
    ensures forall h :: h in CommentedHandles(rules, comment) ==> exists r :: r in rules && r.handle == h
  {
    if rules != [] {
      HandlesAreOf(rules[1..], comment);
    }
  }

  lemma {:induction false} KeepHead(r: Rule, rules: seq<Rule>, handles: seq<nat>)
    requires r.handle !in handles
    ensures WithoutHandles([r] + rules, handles) == [r] + WithoutHandles(rules, handles)
    decreases |handles|
  {
    if handles != [] {
      assert ([r] + rules)[1..] == rules;
      KeepHead(r, WithoutHandle(rules, handles[0]), handles[1..]);
    }
  }

  /** Deleting by handle the first drop rule of a network deletes exactly that rule. */
  lemma {:induction false} DeletingFirst(rules: seq<Rule>, net: Network, i: nat)
    requires DistinctHandles(rules) && i < |rules| && rules[i].body == Drop(net)
    requires forall k :: 0 <= k < i ==> rules[k].body.StartsWithMatch() && rules[k].body != Drop(net)
    ensures WithoutFirst(rules, net) == Some(WithoutHandle(rules, rules[i].handle))
  {
    HandlesTail(rules);
    if i == 0 {
      WithoutAbsentHandle(rules[1..], rules[0].handle);
    } else {
      DeletingFirst(rules[1..], net, i - 1);
    }
  }

  lemma {:induction false} NothingToDelete(rules: seq<Rule>, net: Network)
    requires forall k :: 0 <= k < |rules| ==> rules[k].body.StartsWithMatch() && rules[k].body != Drop(net)
    ensures WithoutFirst(rules, net) == Some(rules)
  {
    if rules != [] {
      NothingToDelete(rules[1..], net);
      assert rules == [rules[0]] + rules[1..];
    }
  }

  lemma {:induction false} StuckRule(rules: seq<Rule>, net: Network, i: nat)
    requires i < |rules| && !rules[i].body.StartsWithMatch()
    requires forall k :: 0 <= k < i ==> rules[k].body.StartsWithMatch() && rules[k].body != Drop(net)
    ensures WithoutFirst(rules, net) == None
  {
    if i > 0 {
      StuckRule(rules[1..], net, i - 1);
    }
  }

  /** In a chain of mail rules, deleting the first drop rule succeeds, takes one rule of that network if there is
      one, and leaves every other network, every isolation rule and the order alone. */
  lemma {:induction false} WithoutFirstCounts(rules: seq<Rule>, net: Network, other: Network)
    requires OnlyMailRules(rules)
    ensures WithoutFirst(rules, net).Some?
    ensures var left := WithoutFirst(rules, net).value;
            && OnlyMailRules(left) && Isolations(left) == Isolations(rules)
            && DropCount(left, net) == (if DropCount(rules, net) > 0 then DropCount(rules, net) - 1 else 0)
            && (other != net ==> DropCount(left, other) == DropCount(rules, other))
  {
    if rules != [] {
      WithoutFirstCounts(rules[1..], net, other);
      var rest := WithoutFirst(rules[1..], net);
      assert ([rules[0]] + rest.value)[1..] == rest.value;
    }
  }

  function Isolations(rules: seq<Rule>): seq<Rule> {
    if rules == [] then []
    else if rules[0].body.Isolation? then [rules[0]] + Isolations(rules[1..])
    else Isolations(rules[1..])
  }

  // ---- start-up and shutdown of the mail chain ----

  /** The mail chain, the comment its jump rules carry, and the base chains found at start-up ("" for none). */
  datatype Config = Config(name: string, comment: string, input: string, forward: string) {
    predicate Valid() {
      name != "" && name != input && name != forward && (input != forward || input == "")
    }

    predicate Found(chains: Chains) {
      (input != "" ==> HasChain(chains, input)) && (forward != "" ==> HasChain(chains, forward))
    }
  }

  const ISOLATION_COMMENT := "mail isolation"

  /** A rule list after `create_isolation_rule`. */
  function Isolated(rules: seq<Rule>, handle: nat, interface: string, dports: seq<int>): seq<Rule> {
    [Rule(handle, Some(ISOLATION_COMMENT), Isolation(interface, dports))] + WithoutComment(rules, ISOLATION_COMMENT)
  }

  /** The rules without a comment, in order. */
  lemma {:induction false} WithoutCommentKeeps(xs: seq<Rule>, ys: seq<Rule>, comment: string)
    ensures WithoutComment(xs + ys, comment) == WithoutComment(xs, comment) + WithoutComment(ys, comment)
    ensures |xs| == 1 ==> WithoutComment(xs, comment) == if xs[0].comment == Some(comment) then [] else xs
  {
    if xs == [] {
      assert xs + ys == ys;
    } else {
      assert (xs + ys)[0] == xs[0] && (xs + ys)[1..] == xs[1..] + ys;
      WithoutCommentKeeps(xs[1..], ys, comment);
    }
  }

  /** The isolation rules are those with their comment. */
  predicate CommentedIsolations(rules: seq<Rule>) {
    forall i :: 0 <= i < |rules| ==> (rules[i].comment == Some(ISOLATION_COMMENT) <==> rules[i].body.Isolation?)
  }

  /** Afterwards one isolation rule heads the chain, and the rules that are none follow in order. */
  lemma IsolatedReplaces(rules: seq<Rule>, handle: nat, interface: string, dports: seq<int>)
    requires CommentedIsolations(rules)
    ensures var after := Isolated(rules, handle, interface, dports);
            && Isolations(after) == [after[0]] && CommentedIsolations([after[0]])
            && after[0].body == Isolation(interface, dports)
            && after[1..] == NotIsolations(rules)
  {
    WithoutIsolations(rules);
    var after := Isolated(rules, handle, interface, dports);
    assert after[1..] == WithoutComment(rules, ISOLATION_COMMENT);
  }

  function NotIsolations(rules: seq<Rule>): seq<Rule> {
    if rules == [] then []
    else (if rules[0].body.Isolation? then [] else [rules[0]]) + NotIsolations(rules[1..])
  }

  lemma {:induction false} WithoutIsolations(rules: seq<Rule>)
    requires CommentedIsolations(rules)
    ensures WithoutComment(rules, ISOLATION_COMMENT) == NotIsolations(rules)
    ensures Isolations(WithoutComment(rules, ISOLATION_COMMENT)) == []
  {
    if rules != [] {
      assert forall i :: 0 <= i < |rules[1..]| ==> rules[1..][i] == rules[i + 1];
      WithoutIsolations(rules[1..]);
    }
  }

  function MailChain(cfg: Config, handle: nat, rules: seq<Rule>): Chain {
    Chain("filter", cfg.name, handle, None, None, rules)
  }

  function HasComment(rules: seq<Rule>, comment: string): bool {
    rules != [] && (rules[0].comment == Some(comment) || HasComment(rules[1..], comment))
  }

  /** `insert_mail_rule` on a base chain. */
  function WithJump(cfg: Config, chains: Chains, base: string, handle: nat): Chains {
    SetRules(chains, base, [Rule(handle, Some(cfg.comment), Jump(cfg.name))] + RulesOf(chains, base))
  }

  /** `insert_mail_rule` on a base chain that exists and has no commented rule yet. */
  function Hooked(cfg: Config, chains: Chains, base: string, handle: nat): Chains {
    if base == "" || HasComment(RulesOf(chains, base), cfg.comment) then chains else WithJump(cfg, chains, base, handle)
  }

  function WithMailChain(cfg: Config, chains: Chains, handle: nat): Chains {
    if HasChain(chains, cfg.name) then chains else chains + [MailChain(cfg, handle, [])]
  }

  /** Removes the commented rules of a base chain. */
  function Unhooked(cfg: Config, chains: Chains, base: string): Chains {
    if base == "" then chains else SetRules(chains, base, WithoutComment(RulesOf(chains, base), cfg.comment))
  }

  /** `clear`: flush the mail chain, remove the jumps, delete the mail chain. */
  function Cleared(cfg: Config, chains: Chains): Chains {
    if HasChain(chains, cfg.name) then
      WithoutChain(Unhooked(cfg, Unhooked(cfg, SetRules(chains, cfg.name, []), cfg.input), cfg.forward), cfg.name)
    else Unhooked(cfg, Unhooked(cfg, chains, cfg.input), cfg.forward)
  }

  /** No trace of the mail tables. */
  predicate Clean(cfg: Config, chains: Chains) {
    && !HasChain(chains, cfg.name)
    && (cfg.input != "" ==> !HasComment(RulesOf(chains, cfg.input), cfg.comment))
    && (cfg.forward != "" ==> !HasComment(RulesOf(chains, cfg.forward), cfg.comment))
  }

  /** `chains` is `base` with a jump at the head of each base chain, and the mail chain at the end. */
  ghost predicate Installed(cfg: Config, base: Chains, chains: Chains, h1: nat, h2: nat, mail: Chain) {
    && mail.Is(cfg.name)
    && chains == Hooked(cfg, Hooked(cfg, base, cfg.input, h1), cfg.forward, h2) + [mail]
  }

  /** Nothing but the rules of the mail chain differs. */
  ghost predicate OnlyMailChanged(cfg: Config, before: Chains, after: Chains) {
    after == SetRules(before, cfg.name, RulesOf(after, cfg.name))
  }

  lemma {:induction false} WithoutCommentNoop(rules: seq<Rule>, comment: string)
    requires !HasComment(rules, comment)
    ensures WithoutComment(rules, comment) == rules
  {
    if rules != [] {
      WithoutCommentNoop(rules[1..], comment);
      assert rules == [rules[0]] + rules[1..];
    }
  }

  lemma {:induction false} WithoutCommentClears(rules: seq<Rule>, comment: string)
    ensures !HasComment(WithoutComment(rules, comment), comment)
  {
    if rules != [] {
      WithoutCommentClears(rules[1..], comment);
      if rules[0].comment != Some(comment) {
        assert WithoutComment(rules, comment)[1..] == WithoutComment(rules[1..], comment);
      }
    }
  }

  lemma HookedKeepsChains(cfg: Config, chains: Chains, base: string, handle: nat, n: string)
    ensures HasChain(Hooked(cfg, chains, base, handle), n) <==> HasChain(chains, n)
    ensures n != base ==> RulesOf(Hooked(cfg, chains, base, handle), n) == RulesOf(chains, n)
    ensures UniqueNames(chains) ==> UniqueNames(Hooked(cfg, chains, base, handle))
  {
    RulesOfSet(chains, base, n, [Rule(handle, Some(cfg.comment), Jump(cfg.name))] + RulesOf(chains, base));
    if UniqueNames(chains) {
      SetKeepsUnique(chains, base, [Rule(handle, Some(cfg.comment), Jump(cfg.name))] + RulesOf(chains, base));
    }
  }

  lemma UnhookedKeepsChains(cfg: Config, chains: Chains, base: string, n: string)
    ensures HasChain(Unhooked(cfg, chains, base), n) <==> HasChain(chains, n)
    ensures n != base ==> RulesOf(Unhooked(cfg, chains, base), n) == RulesOf(chains, n)
  {
    RulesOfSet(chains, base, n, WithoutComment(RulesOf(chains, base), cfg.comment));
  }

  /** Unhooking undoes hooking. */
  lemma UnhookUndoes(cfg: Config, chains: Chains, base: string, handle: nat)
    requires UniqueNames(chains) && (base != "" ==> HasChain(chains, base))
    requires base != "" ==> !HasComment(RulesOf(chains, base), cfg.comment)
    ensures Unhooked(cfg, Hooked(cfg, chains, base, handle), base) == chains
  {
    if base != "" {
      var bare := RulesOf(chains, base);
      var hooked := [Rule(handle, Some(cfg.comment), Jump(cfg.name))] + bare;
      assert hooked[1..] == bare;
      RulesOfSet(chains, base, base, hooked);
      WithoutCommentNoop(bare, cfg.comment);
      SetSet(chains, base, hooked, bare);
      SetSame(chains, base);
    }
  }

  /** Unhooking one base chain does not disturb the hook of another. */
  lemma UnhookCommutes(cfg: Config, chains: Chains, a: string, b: string, handle: nat)
    requires a != b || a == ""
    ensures Unhooked(cfg, Hooked(cfg, chains, b, handle), a) == Hooked(cfg, Unhooked(cfg, chains, a), b, handle)
  {
    if a != "" && b != "" {
      var hooked := [Rule(handle, Some(cfg.comment), Jump(cfg.name))] + RulesOf(chains, b);
      var bare := WithoutComment(RulesOf(chains, a), cfg.comment);
      RulesOfSet(chains, b, a, hooked);
      RulesOfSet(chains, a, b, bare);
      SetCommutes(chains, b, a, hooked, bare);
    }
  }

  lemma UnhookAppend(cfg: Config, chains: Chains, mail: Chain, base: string)
    requires mail.Is(cfg.name) && base != cfg.name && (base != "" ==> HasChain(chains, base))
    ensures Unhooked(cfg, chains + [mail], base) == Unhooked(cfg, chains, base) + [mail]
  {
    if base != "" {
      RulesOfAppend(chains, mail, base);
      SetLast(chains, mail, base, WithoutComment(RulesOf(chains, base), cfg.comment));
    }
  }

  lemma HookAppend(cfg: Config, chains: Chains, mail: Chain, base: string, handle: nat)
    requires mail.Is(cfg.name) && base != cfg.name && (base != "" ==> HasChain(chains, base))
    ensures Hooked(cfg, chains + [mail], base, handle) == Hooked(cfg, chains, base, handle) + [mail]
  {
    if base != "" {
      RulesOfAppend(chains, mail, base);
      SetLast(chains, mail, base, [Rule(handle, Some(cfg.comment), Jump(cfg.name))] + RulesOf(chains, base));
    }
  }

  lemma {:induction false} WithoutLastChain(chains: Chains, mail: Chain, n: string)
    requires !HasChain(chains, n) && mail.Is(n)
    ensures WithoutChain(chains + [mail], n) == chains
  {
    if chains == [] {
      assert chains + [mail] == [mail];
    } else {
      assert (chains + [mail])[1..] == chains[1..] + [mail];
      assert forall i :: 0 <= i < |chains| ==> !chains[i].Is(n);
      WithoutLastChain(chains[1..], mail, n);
      assert chains == [chains[0]] + chains[1..];
    }
  }

  /** Start-up on clean chains installs the mail tables. */
  lemma StartupInstalls(cfg: Config, chains: Chains, h0: nat, h1: nat, h2: nat)
    requires cfg.Valid() && cfg.Found(chains) && Clean(cfg, chains)
    ensures Installed(cfg, chains, Started(cfg, chains, h0, h1, h2), h1, h2, MailChain(cfg, h0, []))
  {
    var mail := MailChain(cfg, h0, []);
    HookAppend(cfg, chains, mail, cfg.input, h1);
    HookedKeepsChains(cfg, chains, cfg.input, h1, cfg.forward);
    HookAppend(cfg, Hooked(cfg, chains, cfg.input, h1), mail, cfg.forward, h2);
  }

  /** Changes confined to the mail chain keep the mail tables installed over the same base. */
  lemma StaysInstalled(cfg: Config, base: Chains, before: Chains, after: Chains, h1: nat, h2: nat, mail: Chain)
    requires !HasChain(base, cfg.name) && Installed(cfg, base, before, h1, h2, mail) &&
             OnlyMailChanged(cfg, before, after)
    ensures Installed(cfg, base, after, h1, h2, mail.(rules := RulesOf(after, cfg.name)))
  {
    var hooked1 := Hooked(cfg, base, cfg.input, h1);
    var hooked := Hooked(cfg, hooked1, cfg.forward, h2);
    HookedKeepsChains(cfg, base, cfg.input, h1, cfg.name);
    HookedKeepsChains(cfg, hooked1, cfg.forward, h2, cfg.name);
    SetLast(hooked, mail, cfg.name, RulesOf(after, cfg.name));
    SetAbsent(hooked, cfg.name, RulesOf(after, cfg.name));
  }

  /** Clearing installed tables gives back the base, chain for chain and rule for rule. */
  lemma ClearUninstalls(cfg: Config, base: Chains, chains: Chains, h1: nat, h2: nat, mail: Chain)
    requires cfg.Valid() && cfg.Found(base) && Clean(cfg, base) && UniqueNames(base)
    requires Installed(cfg, base, chains, h1, h2, mail)
    ensures Cleared(cfg, chains) == base
  {
    var hooked1 := Hooked(cfg, base, cfg.input, h1);
    var hooked := Hooked(cfg, hooked1, cfg.forward, h2);
    HookedKeepsChains(cfg, base, cfg.input, h1, cfg.name);
    HookedKeepsChains(cfg, hooked1, cfg.forward, h2, cfg.name);
    HookedKeepsChains(cfg, base, cfg.input, h1, cfg.input);
    HookedKeepsChains(cfg, hooked1, cfg.forward, h2, cfg.input);
    assert chains[|hooked|] == mail && HasChain(chains, cfg.name);
    SetLast(hooked, mail, cfg.name, []);
    SetAbsent(hooked, cfg.name, []);
    var flushed := mail.(rules := []);
    UnhookAppend(cfg, hooked, flushed, cfg.input);
    UnhookCommutes(cfg, hooked1, cfg.input, cfg.forward, h2);
    UnhookUndoes(cfg, base, cfg.input, h1);
    HookedKeepsChains(cfg, base, cfg.forward, h2, cfg.forward);
    UnhookAppend(cfg, Hooked(cfg, base, cfg.forward, h2), flushed, cfg.forward);
    UnhookUndoes(cfg, base, cfg.forward, h2);
    WithoutLastChain(base, flushed, cfg.name);
  }

  /** Shutdown undoes start-up: from any chains without a trace of the mail tables, start-up, then anything confined
      to the mail chain, then `clear`, gives back exactly the original chains and rules, in order. */
  lemma ShutdownUndoesStartup(cfg: Config, base: Chains, h0: nat, h1: nat, h2: nat, later: Chains)
    requires cfg.Valid() && cfg.Found(base) && Clean(cfg, base) && UniqueNames(base)
    requires OnlyMailChanged(cfg, Started(cfg, base, h0, h1, h2), later)
    ensures Cleared(cfg, later) == base
  {
    StartupInstalls(cfg, base, h0, h1, h2);
    StaysInstalled(cfg, base, Started(cfg, base, h0, h1, h2), later, h1, h2, MailChain(cfg, h0, []));
    ClearUninstalls(cfg, base, later, h1, h2, MailChain(cfg, h0, []).(rules := RulesOf(later, cfg.name)));
  }

  lemma {:induction false} WithoutChainRemoves(chains: Chains, n: string, m: string)
    requires UniqueNames(chains)
    ensures !HasChain(WithoutChain(chains, n), n)
    ensures m != n ==> RulesOf(WithoutChain(chains, n), m) == RulesOf(chains, m)
    ensures m != n && HasChain(chains, m) ==> HasChain(WithoutChain(chains, n), m)
    ensures UniqueNames(WithoutChain(chains, n))
    ensures forall c :: c in WithoutChain(chains, n) ==> c in chains
  {
    if chains != [] {
      UniqueTail(chains);
      var rest := WithoutChain(chains[1..], n);
      WithoutChainRemoves(chains[1..], n, m);
      if !chains[0].Is(n) {
        var left := [chains[0]] + rest;
        assert left[1..] == rest;
        assert forall i :: 0 <= i < |rest| ==> left[i + 1] == rest[i] && rest[i] in chains[1..];
        assert forall i :: 0 <= i < |rest| ==> !rest[i].Is(n);
      }
      KeepsOther(chains, rest, n, m);
    }
  }

  lemma UniqueTail(chains: Chains)
    requires chains != [] && UniqueNames(chains)
    ensures UniqueNames(chains[1..])
    ensures forall c :: c in chains[1..] && c.table == "filter" && chains[0].table == "filter" ==>
            c.name != chains[0].name
  {
    forall x, y | 0 <= x < y < |chains[1..]| && chains[1..][x].table == "filter" && chains[1..][y].table == "filter"
      ensures chains[1..][x].name != chains[1..][y].name {
      assert chains[x + 1].name != chains[y + 1].name;
    }
  }

  lemma KeepsOther(chains: Chains, rest: Chains, n: string, m: string)
    requires chains != [] && (m != n && HasChain(chains[1..], m) ==> HasChain(rest, m))
    ensures m != n && HasChain(chains, m) ==> HasChain(if chains[0].Is(n) then chains[1..] else [chains[0]] + rest, m)
  {
    if m != n && HasChain(chains, m) {
      var i :| 0 <= i < |chains| && chains[i].Is(m);
      if i > 0 {
        assert chains[1..][i - 1].Is(m);
        var k :| 0 <= k < |rest| && rest[k].Is(m);
        assert ([chains[0]] + rest)[k + 1].Is(m);
      } else {
        assert ([chains[0]] + rest)[0].Is(m);
      }
    }
  }

  lemma FlushKeeps(cfg: Config, chains: Chains, n: string)
    ensures HasChain(SetRules(chains, cfg.name, []), n) <==> HasChain(chains, n)
    ensures UniqueNames(chains) ==> UniqueNames(SetRules(chains, cfg.name, []))
  {
    RulesOfSet(chains, cfg.name, n, []);
  }

  lemma UnhookCleans(cfg: Config, chains: Chains, base: string)
    requires base != "" ==> HasChain(chains, base)
    ensures base != "" ==> !HasComment(RulesOf(Unhooked(cfg, chains, base), base), cfg.comment)
    ensures UniqueNames(chains) ==> UniqueNames(Unhooked(cfg, chains, base))
  {
    RulesOfSet(chains, base, base, WithoutComment(RulesOf(chains, base), cfg.comment));
    WithoutCommentClears(RulesOf(chains, base), cfg.comment);
  }

  /** Clearing leaves no trace, whatever the chains were. */
  lemma ClearCleans(cfg: Config, chains: Chains)
    requires cfg.Valid() && cfg.Found(chains) && UniqueNames(chains)
    ensures Clean(cfg, Cleared(cfg, chains)) && cfg.Found(Cleared(cfg, chains)) && UniqueNames(Cleared(cfg, chains))
  {
    var flushed := if HasChain(chains, cfg.name) then SetRules(chains, cfg.name, []) else chains;
    FlushKeeps(cfg, chains, cfg.name);
    FlushKeeps(cfg, chains, cfg.input);
    FlushKeeps(cfg, chains, cfg.forward);
    var once := Unhooked(cfg, flushed, cfg.input);
    var twice := Unhooked(cfg, once, cfg.forward);
    UnhookCleans(cfg, flushed, cfg.input);
    UnhookedKeepsChains(cfg, flushed, cfg.input, cfg.name);
    UnhookedKeepsChains(cfg, flushed, cfg.input, cfg.forward);
    UnhookCleans(cfg, once, cfg.forward);
    UnhookedKeepsChains(cfg, once, cfg.forward, cfg.input);
    UnhookedKeepsChains(cfg, once, cfg.forward, cfg.name);
    UnhookedKeepsChains(cfg, once, cfg.forward, cfg.forward);
    UnhookedKeepsChains(cfg, flushed, cfg.input, cfg.input);
    WithoutChainRemoves(twice, cfg.name, cfg.input);
    WithoutChainRemoves(twice, cfg.name, cfg.forward);
  }

  /** The three insertions of `insert_mail_chains`, with the handles the kernel gives them. */
  function Started(cfg: Config, chains: Chains, h0: nat, h1: nat, h2: nat): Chains {
    Hooked(cfg, Hooked(cfg, WithMailChain(cfg, chains, h0), cfg.input, h1), cfg.forward, h2)
  }

  lemma HookIsFirst(cfg: Config, chains: Chains, base: string, handle: nat)
    requires base != "" && HasChain(chains, base) && !HasComment(RulesOf(chains, base), cfg.comment)
    ensures CommentPosition(RulesOf(Hooked(cfg, chains, base, handle), base), cfg.comment) == 0
  {
    RulesOfSet(chains, base, base, [Rule(handle, Some(cfg.comment), Jump(cfg.name))] + RulesOf(chains, base));
  }

  /** A base chain that already has the jump does not get another one. */
  lemma HookedOnce(cfg: Config, chains: Chains, base: string, handle: nat, again: nat)
    requires base != "" ==> HasChain(chains, base)
    ensures Hooked(cfg, Hooked(cfg, chains, base, handle), base, again) == Hooked(cfg, chains, base, handle)
  {
    if base != "" {
      RulesOfSet(chains, base, base, [Rule(handle, Some(cfg.comment), Jump(cfg.name))] + RulesOf(chains, base));
    }
  }

  lemma WithMailChainKeeps(cfg: Config, chains: Chains, h0: nat, n: string)
    requires n != cfg.name
    ensures HasChain(WithMailChain(cfg, chains, h0), n) <==> HasChain(chains, n)
    ensures RulesOf(WithMailChain(cfg, chains, h0), n) == RulesOf(chains, n)
  {
    var mail := MailChain(cfg, h0, []);
    RulesOfAppend(chains, mail, n);
    if !HasChain(chains, n) {
      NoChainNoRules(chains, n);
    } else {
      var i :| 0 <= i < |chains| && chains[i].Is(n);
      assert (chains + [mail])[i].Is(n);
    }
  }

  lemma {:induction false} NoChainNoRules(chains: Chains, n: string)
    requires !HasChain(chains, n)
    ensures RulesOf(chains, n) == []
  {
    if chains != [] {
      assert forall i :: 0 <= i < |chains| ==> !chains[i].Is(n);
      NoChainNoRules(chains[1..], n);
    }
  }

  /** While the mail tables are installed, the jump is the first rule of both base chains. */
  lemma InstalledJumpsFirst(cfg: Config, base: Chains, chains: Chains, h1: nat, h2: nat, mail: Chain)
    requires cfg.Valid() && cfg.Found(base) && Clean(cfg, base)
    requires Installed(cfg, base, chains, h1, h2, mail)
    ensures cfg.input != "" ==> CommentPosition(RulesOf(chains, cfg.input), cfg.comment) == 0
    ensures cfg.forward != "" ==> CommentPosition(RulesOf(chains, cfg.forward), cfg.comment) == 0
  {
    var hooked1 := Hooked(cfg, base, cfg.input, h1);
    var hooked := Hooked(cfg, hooked1, cfg.forward, h2);
    HookedKeepsChains(cfg, base, cfg.input, h1, cfg.forward);
    HookedKeepsChains(cfg, base, cfg.input, h1, cfg.input);
    HookedKeepsChains(cfg, hooked1, cfg.forward, h2, cfg.input);
    HookedKeepsChains(cfg, hooked1, cfg.forward, h2, cfg.forward);
    RulesOfAppend(hooked, mail, cfg.input);
    RulesOfAppend(hooked, mail, cfg.forward);
    if cfg.input != "" {
      HookIsFirst(cfg, base, cfg.input, h1);
    }
    if cfg.forward != "" {
      HookIsFirst(cfg, hooked1, cfg.forward, h2);
    }
  }

  /** From any chains at all: after `clear` and start-up the jump is the first rule of both base chains, and
      stays there while only the mail chain changes. */
  lemma JumpStaysFirst(cfg: Config, chains: Chains, h0: nat, h1: nat, h2: nat, later: Chains)
    requires cfg.Valid() && cfg.Found(chains) && UniqueNames(chains)
    requires OnlyMailChanged(cfg, Started(cfg, Cleared(cfg, chains), h0, h1, h2), later)
    ensures cfg.input != "" ==> CommentPosition(RulesOf(later, cfg.input), cfg.comment) == 0
    ensures cfg.forward != "" ==> CommentPosition(RulesOf(later, cfg.forward), cfg.comment) == 0
  {
    var base := Cleared(cfg, chains);
    ClearCleans(cfg, chains);
    var added := WithMailChain(cfg, base, h0);
    var hooked := Hooked(cfg, added, cfg.input, h1);
    var started := Hooked(cfg, hooked, cfg.forward, h2);
    WithMailChainKeeps(cfg, base, h0, cfg.input);
    WithMailChainKeeps(cfg, base, h0, cfg.forward);
    HookedKeepsChains(cfg, added, cfg.input, h1, cfg.forward);
    HookedKeepsChains(cfg, hooked, cfg.forward, h2, cfg.input);
    RulesOfSet(started, cfg.name, cfg.input, RulesOf(later, cfg.name));
    RulesOfSet(started, cfg.name, cfg.forward, RulesOf(later, cfg.name));
    if cfg.input != "" {
      HookIsFirst(cfg, added, cfg.input, h1);
    }
    if cfg.forward != "" {
      HookIsFirst(cfg, hooked, cfg.forward, h2);
    }
  }
}
