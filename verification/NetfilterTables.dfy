/** The kernel's rule lists as an object, and the table operations issued against it. Commands always succeed. */
module NetfilterTables {
  import opened Text
  import opened Nftables

  lemma {:induction false} RulesOfValid(chains: Chains, next: nat, n: string)
    requires forall i :: 0 <= i < |chains| ==> DistinctHandles(chains[i].rules) && HandlesBelow(chains[i].rules, next)
    ensures DistinctHandles(RulesOf(chains, n)) && HandlesBelow(RulesOf(chains, n), next)
  {
    if chains != [] {
      RulesOfValid(chains[1..], next, n);
    }
  }

  lemma SetKeepsValid(chains: Chains, next: nat, n: string, rules: seq<Rule>)
    requires ValidChains(chains, next) && DistinctHandles(rules) && HandlesBelow(rules, next)
    ensures ValidChains(SetRules(chains, n, rules), next)
  {
    SetKeepsUnique(chains, n, rules);
  }

  lemma NextKeepsValid(chains: Chains, next: nat)
    requires ValidChains(chains, next)
    ensures ValidChains(chains, next + 1)
  {
  }

  class Kernel {
    var chains: Chains
    var next: nat

    ghost predicate Valid()
      reads this
    {
      ValidChains(chains, next)
    }

    constructor (chains: Chains, next: nat)
      requires ValidChains(chains, next)
      ensures this.chains == chains && this.next == next && Valid()
    {
      this.chains, this.next := chains, next;
    }

    /** Adds a regular filter chain; adding one that exists changes nothing. */
    method AddChain(cfg: Config)
      requires Valid()
      modifies this
      ensures Valid() && chains == WithMailChain(cfg, old(chains), old(next))
    {
      if !HasChain(chains, cfg.name) {
        chains := chains + [MailChain(cfg, next, [])];
      }
      next := next + 1;
    }

    method FlushChain(n: string)
      requires Valid()
      modifies this
      ensures Valid() && chains == SetRules(old(chains), n, []) && next == old(next)
    {
      SetKeepsValid(chains, next, n, []);
      chains := SetRules(chains, n, []);
    }

    /** Inserts a rule at the head of a chain. */
    method InsertRule(n: string, comment: Option<string>, body: Body)
      requires Valid()
      modifies this
      ensures Valid() && next == old(next) + 1
      ensures chains == SetRules(old(chains), n, [Rule(old(next), comment, body)] + RulesOf(old(chains), n))
    {
      RulesOfValid(chains, next, n);
      NextKeepsValid(chains, next);
      SetKeepsValid(chains, next + 1, n, [Rule(next, comment, body)] + RulesOf(chains, n));
      chains, next := SetRules(chains, n, [Rule(next, comment, body)] + RulesOf(chains, n)), next + 1;
    }

    method DeleteRule(n: string, handle: nat)
      requires Valid()
      modifies this
      ensures Valid() && next == old(next)
      ensures chains == SetRules(old(chains), n, WithoutHandle(RulesOf(old(chains), n), handle))
    {
      var rules := RulesOf(chains, n);
      RulesOfValid(chains, next, n);
      WithoutHandleDistinct(rules, handle);
      WithoutHandleMembers(rules, handle);
      forall i | 0 <= i < |WithoutHandle(rules, handle)| ensures WithoutHandle(rules, handle)[i].handle < next {
        assert WithoutHandle(rules, handle)[i] in rules;
      }
      SetKeepsValid(chains, next, n, WithoutHandle(rules, handle));
      chains := SetRules(chains, n, WithoutHandle(rules, handle));
    }

    method DeleteChain(n: string)
      requires Valid()
      modifies this
      ensures Valid() && chains == WithoutChain(old(chains), n) && next == old(next)
    {
      WithoutChainRemoves(chains, n, n);
      forall i | 0 <= i < |WithoutChain(chains, n)| ensures WithoutChain(chains, n)[i] in chains {
        assert WithoutChain(chains, n)[i] in WithoutChain(chains, n);
      }
      chains := WithoutChain(chains, n);
    }
  }

  class NetfilterTables {
    const kernel: Kernel
    const name: string
    const comment: string
    var input: string
    var forward: string

    ghost predicate Valid()
      reads this, kernel
    {
      kernel.Valid()
    }

    function Cfg(): Config
      reads this
    {
      Config(name, comment, input, forward)
    }

    constructor (kernel: Kernel, name: string, comment: string)
      ensures this.kernel == kernel && this.name == name && this.comment == comment && input == "" && forward == ""
    {
      this.kernel, this.name, this.comment, input, forward := kernel, name, comment, "", "";
    }

    /** The base chain of a hook is the first of those with the lowest priority. */
    method InitChains()
      requires Valid() && input == "" && forward == ""
      modifies this
      ensures IsBaseChain(kernel.chains, "input", input) && IsBaseChain(kernel.chains, "forward", forward)
    {
      var best: map<string, int> := map[];
      for i := 0 to |kernel.chains|
        invariant BestSoFar(kernel.chains[..i], "input", input, best) &&
                 BestSoFar(kernel.chains[..i], "forward", forward, best)
      {
        var c := kernel.chains[i];
        BestSoFarStep(kernel.chains[..i], c, "input", input, best);
        BestSoFarStep(kernel.chains[..i], c, "forward", forward, best);
        assert kernel.chains[..i + 1] == kernel.chains[..i] + [c];
        if c.prio.Some? && c.table == "filter" && c.hook.Some? && c.hook.value in {"input", "forward"} {
          var hook := c.hook.value;
          if hook !in best || c.prio.value < best[hook] {
            best := best[hook := c.prio.value];
            if hook == "input" {
              input := c.name;
            } else {
              forward := c.name;
            }
          }
        }
      }
      assert kernel.chains[..|kernel.chains|] == kernel.chains;
    }

    /** Whether a rule of the chain carries the mail comment. */
    method FindComment(n: string) returns (found: bool)
      ensures found == HasComment(RulesOf(kernel.chains, n), comment)
    {
      found := false;
      var rules := RulesOf(kernel.chains, n);
      for i := 0 to |rules|
        invariant HasComment(rules, comment) == (found || HasComment(rules[i..], comment))
      {
        if rules[i].comment == Some(comment) {
          found := true;
        }
      }
    }

    /** Adds the mail chain and the jumps to it that are missing. */
    method InsertMailChains() returns (ghost h0: nat, ghost h1: nat, ghost h2: nat)
      requires Valid() && Cfg().Valid()
      modifies kernel
      ensures Valid() && kernel.chains == Started(Cfg(), old(kernel.chains), h0, h1, h2)
    {
      var cfg := Cfg();
      ghost var base := kernel.chains;
      var inputFound := FindComment(input);
      var forwardFound := FindComment(forward);
      h0 := kernel.next;
      kernel.AddChain(cfg);
      WithMailChainKeeps(cfg, base, h0, input);
      WithMailChainKeeps(cfg, base, h0, forward);
      h1 := kernel.next;
      if input != "" && !inputFound {
        InsertMailRule(input);
      }
      HookedKeepsChains(cfg, WithMailChain(cfg, base, h0), input, h1, forward);
      h2 := kernel.next;
      if forward != "" && !forwardFound {
        InsertMailRule(forward);
      }
    }

    method InsertMailRule(chain: string)
      requires Valid()
      modifies kernel
      ensures Valid() && kernel.chains == WithJump(Cfg(), old(kernel.chains), chain, old(kernel.next))
    {
      kernel.InsertRule(chain, Some(comment), Jump(name));
    }

    /** Position of the jump in a base chain: None without a base chain, -1 when it is missing. */
    method Check(chain: string) returns (position: Option<int>)
      ensures position == if chain == "" then None else Some(CommentPosition(RulesOf(kernel.chains, chain), comment))
    {
      if chain == "" {
        return None;
      }
      var rules := RulesOf(kernel.chains, chain);
      var p := 0;
      while p < |rules|
        invariant p <= |rules|
        invariant CommentPosition(rules, comment) ==
                  if CommentPosition(rules[p..], comment) < 0 then -1 else p + CommentPosition(rules[p..], comment)
      {
        if rules[p].comment == Some(comment) {
          return Some(p);
        }
        p := p + 1;
      }
      return Some(-1);
    }

    /** Raises exactly when a base chain does not start with the jump. */
    method CheckChainOrder() returns (raised: bool)
      ensures raised <==>
        || (input != "" && CommentPosition(RulesOf(kernel.chains, input), comment) != 0)
        || (forward != "" && CommentPosition(RulesOf(kernel.chains, forward), comment) != 0)
    {
      raised := false;
      var position := Check(input);
      if position.Some? && position.value != 0 {
        raised := true;
      }
      position := Check(forward);
      if position.Some? && position.value != 0 {
        raised := true;
      }
    }

    /** Deletes the rules of a chain that carry the comment, by their handles. */
    method DeleteCommented(chain: string, c: string)
      requires Valid()
      modifies kernel
      ensures Valid() && kernel.next == old(kernel.next)
      ensures kernel.chains == SetRules(old(kernel.chains), chain,
              WithoutComment(RulesOf(old(kernel.chains), chain), c))
    {
      ghost var base := kernel.chains;
      ghost var rules := RulesOf(base, chain);
      RulesOfValid(base, kernel.next, chain);
      DeletingCommented(rules, c);
      var handles := CommentedHandles(RulesOf(kernel.chains, chain), c);
      SetSame(base, chain);
      ghost var left := rules;
      for i := 0 to |handles|
        invariant Valid() && kernel.next == old(kernel.next)
        invariant kernel.chains == SetRules(base, chain, left) && RulesOf(kernel.chains, chain) == left
        invariant WithoutHandles(left, handles[i..]) == WithoutHandles(rules, handles)
      {
        assert handles[i..][1..] == handles[i + 1..];
        kernel.DeleteRule(chain, handles[i]);
        SetSet(base, chain, left, WithoutHandle(left, handles[i]));
        SetThenRules(base, chain, left);
        left := WithoutHandle(left, handles[i]);
        SetThenRules(base, chain, left);
      }
    }

    /** Replaces the isolation rules by one new rule at the head of the mail chain. */
    method CreateIsolationRule(interface: string, dports: seq<int>)
      requires Valid() && HasChain(kernel.chains, name)
      modifies kernel
      ensures Valid()
      ensures kernel.chains == SetRules(old(kernel.chains), name,
                Isolated(RulesOf(old(kernel.chains), name), old(kernel.next), interface, dports))
    {
      ghost var bare := WithoutComment(RulesOf(kernel.chains, name), ISOLATION_COMMENT);
      DeleteCommented(name, ISOLATION_COMMENT);
      SetThenRules(old(kernel.chains), name, bare);
      SetSet(old(kernel.chains), name, bare,
          Isolated(RulesOf(old(kernel.chains), name), old(kernel.next), interface, dports));
      kernel.InsertRule(name, Some(ISOLATION_COMMENT), Isolation(interface, dports));
    }

    /** Removes every trace of the mail tables. */
    method Clear()
      requires Valid()
      modifies kernel
      ensures Valid() && kernel.chains == Cleared(Cfg(), old(kernel.chains))
    {
      var present := HasChain(kernel.chains, name);
      if present {
        kernel.FlushChain(name);
      }
      if input != "" {
        DeleteCommented(input, comment);
      }
      if forward != "" {
        DeleteCommented(forward, comment);
      }
      if present {
        kernel.DeleteChain(name);
      }
    }

    /** Inserts a drop rule for a network. */
    method Ban(net: Network)
      requires Valid()
      modifies kernel
      ensures Valid() && kernel.next == old(kernel.next) + 1
      ensures kernel.chains == SetRules(old(kernel.chains), name,
              [Rule(old(kernel.next), None, Drop(net))] + RulesOf(old(kernel.chains), name))
    {
      kernel.InsertRule(name, None, Drop(net));
    }

    /** Deletes the first drop rule of a network; raises when a rule before it has no leading match expression. */
    method Unban(net: Network) returns (raised: bool)
      requires Valid()
      modifies kernel
      ensures Valid() && kernel.next == old(kernel.next)
      ensures raised == WithoutFirst(RulesOf(old(kernel.chains), name), net).None?
      ensures kernel.chains ==
              if raised then old(kernel.chains)
              else SetRules(old(kernel.chains), name, WithoutFirst(RulesOf(old(kernel.chains), name), net).value)
    {
      var rules := RulesOf(kernel.chains, name);
      RulesOfValid(kernel.chains, kernel.next, name);
      for i := 0 to |rules|
        invariant forall k :: 0 <= k < i ==> rules[k].body.StartsWithMatch() && rules[k].body != Drop(net)
        invariant kernel.chains == old(kernel.chains) && kernel.next == old(kernel.next) && Valid()
      {
        if !rules[i].body.StartsWithMatch() {
          StuckRule(rules, net, i);
          return true;
        }
        if rules[i].body == Drop(net) {
          DeletingFirst(rules, net, i);
          kernel.DeleteRule(name, rules[i].handle);
          return false;
        }
      }
      NothingToDelete(rules, net);
      SetSame(kernel.chains, name);
      return false;
    }
  }

  /** Replacing the rules of a chain that exists, then reading them. */
  lemma SetThenRules(chains: Chains, n: string, rules: seq<Rule>)
    ensures RulesOf(SetRules(chains, n, rules), n) == if HasChain(chains, n) then rules else []
    ensures HasChain(SetRules(chains, n, rules), n) <==> HasChain(chains, n)
  {
    RulesOfSet(chains, n, n, rules);
    if !HasChain(chains, n) {
      SetAbsent(chains, n, rules);
      NoChainNoRules(chains, n);
    }
  }

  /** A chain of table filter with this hook and a priority. */
  predicate Candidate(c: Chain, hook: string) {
    c.prio.Some? && c.table == "filter" && c.hook == Some(hook)
  }

  /** `n` names the first candidate of lowest priority; "" when there is no candidate. */
  ghost predicate IsBaseChain(chains: Chains, hook: string, n: string) {
    if exists i :: 0 <= i < |chains| && Candidate(chains[i], hook) then
      exists i :: 0 <= i < |chains| && IsLowest(chains, hook, i) && chains[i].name == n
    else n == ""
  }

  /** What `init_chains` finds can be started on: existing chains, not the same one twice. */
  lemma BaseChainsAreFound(chains: Chains, cfg: Config)
    requires UniqueNames(chains) && forall i :: 0 <= i < |chains| ==> chains[i].name != ""
    requires IsBaseChain(chains, "input", cfg.input) && IsBaseChain(chains, "forward", cfg.forward)
    ensures cfg.Found(chains) && (cfg.input != cfg.forward || cfg.input == "")
  {
    if cfg.input != "" {
      var i :| 0 <= i < |chains| && IsLowest(chains, "input", i) && chains[i].name == cfg.input;
      assert chains[i].Is(cfg.input);
    }
    if cfg.forward != "" {
      var j :| 0 <= j < |chains| && IsLowest(chains, "forward", j) && chains[j].name == cfg.forward;
      assert chains[j].Is(cfg.forward);
    }
  }

  ghost predicate IsLowest(chains: Chains, hook: string, i: int) {
    && 0 <= i < |chains| && Candidate(chains[i], hook)
    && (forall k :: 0 <= k < |chains| && Candidate(chains[k], hook) ==> chains[i].prio.value <= chains[k].prio.value)
    && (forall k :: 0 <= k < i && Candidate(chains[k], hook) ==> chains[i].prio.value < chains[k].prio.value)
  }

  ghost predicate BestSoFar(chains: Chains, hook: string, n: string, best: map<string, int>) {
    && (hook in best <==> exists i :: 0 <= i < |chains| && Candidate(chains[i], hook))
    && (hook in best ==>
          exists i :: IsLowest(chains, hook, i) && chains[i].name == n && chains[i].prio.value == best[hook])
    && (hook !in best ==> n == "")
  }

  lemma BestSoFarStep(chains: Chains, c: Chain, hook: string, n: string, best: map<string, int>)
    requires BestSoFar(chains, hook, n, best)
    ensures var better := Candidate(c, hook) && (hook !in best || c.prio.value < best[hook]);
            forall best' :: (better ==> hook in best' && best'[hook] == c.prio.value)
                            && (!better ==>
                                 (hook in best' <==> hook in best) && (hook in best ==> best'[hook] == best[hook])) ==>
              BestSoFar(chains + [c], hook, if better then c.name else n, best')
  {
    var all := chains + [c];
    assert all[|chains|] == c;
    assert forall i :: 0 <= i < |chains| ==> all[i] == chains[i];
    var better := Candidate(c, hook) && (hook !in best || c.prio.value < best[hook]);
    if better {
      assert IsLowest(all, hook, |chains|);
    } else if hook in best {
      var i :| IsLowest(chains, hook, i) && chains[i].name == n && chains[i].prio.value == best[hook];
      assert IsLowest(all, hook, i) && all[i].name == n;
    }
  }
}
