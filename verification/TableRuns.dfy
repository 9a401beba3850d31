/** Whole runs of the table commands between start-up and shutdown. */
module TableRuns {
  import opened Text
  import opened Nftables

  datatype Command =
    | BanRule(net: Network)
    | UnbanRule(net: Network)
    | IsolationRule(interface: string, dports: seq<int>)

  /** The mail chain's rules after one command; `next` is the handle the kernel gives next. */
  function After(rules: seq<Rule>, next: nat, c: Command): seq<Rule> {
    match c
    case BanRule(net) => [Rule(next, None, Drop(net))] + rules
    case UnbanRule(net) => if WithoutFirst(rules, net).None? then rules else WithoutFirst(rules, net).value
    case IsolationRule(interface, dports) => Isolated(rules, next, interface, dports)
  }

  function AfterAll(cfg: Config, chains: Chains, next: nat, commands: seq<Command>): Chains
    decreases |commands|
  {
    if commands == [] then chains
    else
      var once := SetRules(chains, cfg.name, After(RulesOf(chains, cfg.name), next, commands[0]));
      AfterAll(cfg, once, next + 1, commands[1..])
  }

  lemma SetOnlyMail(cfg: Config, chains: Chains, rules: seq<Rule>)
    requires UniqueNames(chains)
    ensures OnlyMailChanged(cfg, chains, SetRules(chains, cfg.name, rules)) &&
            UniqueNames(SetRules(chains, cfg.name, rules))
  {
    SetKeepsUnique(chains, cfg.name, rules);
    SetSame(SetRules(chains, cfg.name, rules), cfg.name);
    SetSet(chains, cfg.name, rules, RulesOf(SetRules(chains, cfg.name, rules), cfg.name));
  }

  /** No run of commands changes anything but the mail chain's rules. */
  lemma {:induction false} RunOnlyMail(cfg: Config, chains: Chains, next: nat, commands: seq<Command>)
    requires UniqueNames(chains)
    ensures OnlyMailChanged(cfg, chains, AfterAll(cfg, chains, next, commands))
    decreases |commands|
  {
    if commands == [] {
      SetSame(chains, cfg.name);
    } else {
      var rules := After(RulesOf(chains, cfg.name), next, commands[0]);
      var once := SetRules(chains, cfg.name, rules);
      SetOnlyMail(cfg, chains, rules);
      RunOnlyMail(cfg, once, next + 1, commands[1..]);
      SetSet(chains, cfg.name, rules, RulesOf(AfterAll(cfg, chains, next, commands), cfg.name));
    }
  }

  lemma StartedIsUnique(cfg: Config, base: Chains, h0: nat, h1: nat, h2: nat)
    requires UniqueNames(base) && !HasChain(base, cfg.name)
    ensures UniqueNames(Started(cfg, base, h0, h1, h2))
  {
    var mail := MailChain(cfg, h0, []);
    forall i | 0 <= i < |base| && base[i].table == "filter" ensures base[i].name != cfg.name {
      assert !base[i].Is(cfg.name);
    }
    assert UniqueNames(base + [mail]);
    HookedKeepsChains(cfg, base + [mail], cfg.input, h1, "");
    HookedKeepsChains(cfg, Hooked(cfg, base + [mail], cfg.input, h1), cfg.forward, h2, "");
  }

  /** Start-up, any run of bans, unbans and isolation rules, then clear: exactly the original chains and rules. */
  lemma EveryRunShutsDown(cfg: Config, base: Chains, h0: nat, h1: nat, h2: nat, next: nat, commands: seq<Command>)
    requires cfg.Valid() && cfg.Found(base) && Clean(cfg, base) && UniqueNames(base)
    ensures Cleared(cfg, AfterAll(cfg, Started(cfg, base, h0, h1, h2), next, commands)) == base
  {
    var started := Started(cfg, base, h0, h1, h2);
    StartedIsUnique(cfg, base, h0, h1, h2);
    RunOnlyMail(cfg, started, next, commands);
    ShutdownUndoesStartup(cfg, base, h0, h1, h2, AfterAll(cfg, started, next, commands));
  }

  /** From any ruleset: after clear and start-up, at every point of every run, the jump is the first rule of both base
      chains, so the order check passes. */
  lemma EveryRunJumpsFirst(cfg: Config, chains: Chains, h0: nat, h1: nat, h2: nat, next: nat, commands: seq<Command>)
    requires cfg.Valid() && cfg.Found(chains) && UniqueNames(chains)
    ensures var later := AfterAll(cfg, Started(cfg, Cleared(cfg, chains), h0, h1, h2), next, commands);
            && (cfg.input != "" ==> CommentPosition(RulesOf(later, cfg.input), cfg.comment) == 0)
            && (cfg.forward != "" ==> CommentPosition(RulesOf(later, cfg.forward), cfg.comment) == 0)
  {
    var base := Cleared(cfg, chains);
    ClearCleans(cfg, chains);
    StartedIsUnique(cfg, base, h0, h1, h2);
    RunOnlyMail(cfg, Started(cfg, base, h0, h1, h2), next, commands);
    JumpStaysFirst(cfg, chains, h0, h1, h2, AfterAll(cfg, Started(cfg, base, h0, h1, h2), next, commands));
  }
}
