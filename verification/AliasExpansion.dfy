/** Alias expansion for rspamd: a bounded breadth-first search over the goto graph of a fixed database snapshot. */
module AliasExpansion {
  import opened Text

  datatype Alias = Alias(goto: string, active: bool)

  datatype AliasDomain = AliasDomain(target: string, active: bool)

  datatype Error = DomainNotFound(domain: string) | InvalidEmail(email: string) | UnpackError(email: string)

  datatype Result<+T> = Success(value: T) | Failure(error: Error)

  /** The goto graph: which addresses are mailboxes, and where the others lead. */
  datatype Graph = Graph(isMailbox: string -> bool, expand: string -> Result<seq<string>>) {
    /** Where the search goes from `x`: nowhere from a mailbox. */
    function Next(x: string): seq<string> {
      if !isMailbox(x) && expand(x).Success? then expand(x).value else []
    }

    /** Expanding this address raises. */
    predicate Breaks(goto: string) {
      !isMailbox(goto) && expand(goto).Failure?
    }

    ghost predicate FollowsAny(gotos: seq<string>, b: string) {
      exists g :: g in gotos && b in Next(g)
    }

    /** A walk in the goto graph: mailboxes are not expanded further. */
    ghost predicate IsWalk(path: seq<string>) {
      |path| > 0 &&
      forall i :: 0 <= i < |path| - 1 ==> path[i + 1] in Next(path[i])
    }

    ghost predicate WalkTo(path: seq<string>, gotos: seq<string>, x: string) {
      IsWalk(path) && path[0] in gotos && path[|path| - 1] == x
    }

    /** Addresses reached from `gotos` with at most `n` expansions. */
    ghost predicate ReachedWithin(gotos: seq<string>, n: int, x: string) {
      exists path :: WalkTo(path, gotos, x) && |path| - 1 <= n
    }

    ghost function Within(gotos: seq<string>, n: int): iset<string> {
      iset x | ReachedWithin(gotos, n, x)
    }

    /** Addresses reached from `gotos` with any number of expansions. */
    ghost predicate ReachedAtAll(gotos: seq<string>, x: string) {
      exists path :: WalkTo(path, gotos, x)
    }

    ghost function Reachable(gotos: seq<string>): iset<string> {
      iset x | ReachedAtAll(gotos, x)
    }

    ghost predicate IsSoleMailbox(reached: iset<string>, u: string) {
      forall m :: m in reached && isMailbox(m) <==> m == u
    }

    /** The answer over a set of reached addresses: an error if one of them breaks, else the sole mailbox, else "". */
    ghost predicate IsAnswer(reached: iset<string>, r: Result<string>) {
      match r
      case Failure(e) => exists x :: x in reached && Breaks(x) && expand(x) == Failure(e)
      case Success(v) =>
        && (forall x :: x in reached ==> !Breaks(x))
        && (if v == "" then !exists u :: IsSoleMailbox(reached, u) else IsSoleMailbox(reached, v))
    }

    /** The search's frontier after `n` rounds. */
    ghost function Level(gotos: seq<string>, n: nat): set<string> {
      if n == 0 then set g | g in gotos
      else set g, b | g in Level(gotos, n - 1) && b in Next(g) :: b
    }

    lemma WalkExtends(path: seq<string>, gotos: seq<string>, g: string, x: string)
      requires WalkTo(path, gotos, g) && x in Next(g)
      ensures WalkTo(path + [x], gotos, x)
    {
      var longer := path + [x];
      forall i | 0 <= i < |longer| - 1 ensures longer[i + 1] in Next(longer[i]) {
        if i < |path| - 1 {
          assert path[i + 1] in Next(path[i]);
        }
      }
    }

    /** Addresses at the end of a walk of exactly `n` expansions. */
    ghost predicate WalkOf(gotos: seq<string>, n: nat, x: string) {
      exists path :: WalkTo(path, gotos, x) && |path| == n + 1
    }

    lemma {:induction false} LevelHasWalk(gotos: seq<string>, n: nat, x: string)
      requires x in Level(gotos, n)
      ensures WalkOf(gotos, n, x)
    {
      if n == 0 {
        assert WalkTo([x], gotos, x);
      } else {
        var g :| g in Level(gotos, n - 1) && x in Next(g);
        LevelHasWalk(gotos, n - 1, g);
        var path :| WalkTo(path, gotos, g) && |path| == n;
        WalkExtends(path, gotos, g, x);
      }
    }

    lemma {:induction false} WalkHasLevel(gotos: seq<string>, path: seq<string>, x: string)
      requires WalkTo(path, gotos, x)
      ensures x in Level(gotos, |path| - 1)
      decreases |path|
    {
      if |path| > 1 {
        var g := path[|path| - 2];
        var front := path[..|path| - 1];
        assert WalkTo(front, gotos, g);
        WalkHasLevel(gotos, front, g);
        assert path[|path| - 1] in Next(g);
      }
    }

    lemma {:induction false} EmptyLevelStays(gotos: seq<string>, n: nat, m: nat)
      requires n <= m && Level(gotos, n) == {}
      ensures Level(gotos, m) == {}
    {
      if n < m {
        EmptyLevelStays(gotos, n, m - 1);
      }
    }

    ghost predicate SeenBefore(gotos: seq<string>, n: nat, x: string) {
      exists k: nat :: k < n && x in Level(gotos, k)
    }

    lemma FollowsOneMore(gotos: seq<string>, goto: string, b: string)
      ensures FollowsAny(gotos + [goto], b) <==> FollowsAny(gotos, b) || b in Next(goto)
    {
      if FollowsAny(gotos, b) {
        var g :| g in gotos && b in Next(g);
        assert g in gotos + [goto];
      }
      assert goto in gotos + [goto];
    }

    lemma NextFrontier(start: seq<string>, n: nat, gotos: seq<string>, next: seq<string>)
      requires forall x :: x in gotos <==> x in Level(start, n)
      requires forall b :: b in next <==> FollowsAny(gotos, b)
      ensures forall x :: x in next <==> x in Level(start, n + 1)
    {
    }

    /** The final mailboxes decide the answer. */
    lemma AnswerFromFinals(reached: iset<string>, finals: set<string>)
      requires !isMailbox("")
      requires forall m :: m in finals <==> m in reached && isMailbox(m)
      requires forall x :: x in reached ==> !Breaks(x)
      ensures forall u :: finals == {u} ==> IsAnswer(reached, Success(u))
      ensures |finals| != 1 ==> IsAnswer(reached, Success(""))
    {
      forall u | finals == {u} ensures IsAnswer(reached, Success(u)) {
        assert u in finals;
        assert IsSoleMailbox(reached, u);
      }
      if u :| IsSoleMailbox(reached, u) {
        assert u in finals && forall m :: m in finals ==> m == u;
        assert finals == {u};
      }
    }

    lemma SeenStep(gotos: seq<string>, n: nat, x: string)
      ensures SeenBefore(gotos, n + 1, x) <==> SeenBefore(gotos, n, x) || x in Level(gotos, n)
    {
    }

    /** The levels up to `n` are together what `n` expansions reach. */
    lemma WithinIsSeen(gotos: seq<string>, n: int, x: string)
      ensures x in Within(gotos, n) <==> n >= 0 && SeenBefore(gotos, n + 1, x)
    {
      if x in Within(gotos, n) {
        var path :| WalkTo(path, gotos, x) && |path| - 1 <= n;
        WalkHasLevel(gotos, path, x);
      }
      if n >= 0 && SeenBefore(gotos, n + 1, x) {
        var k: nat :| k < n + 1 && x in Level(gotos, k);
        LevelHasWalk(gotos, k, x);
        var path :| WalkTo(path, gotos, x) && |path| == k + 1;
        assert ReachedWithin(gotos, n, x);
      }
    }

    /** A search that stopped after `n` rounds, out of gotos or out of rounds, has seen everything within the bound. */
    lemma AllSeen(gotos: seq<string>, maxLoops: int, n: nat, x: string)
      requires n <= maxLoops ==> Level(gotos, n) == {}
      requires n == 0 || n <= maxLoops + 1
      ensures x in Within(gotos, maxLoops) <==> SeenBefore(gotos, n, x)
    {
      WithinIsSeen(gotos, maxLoops, x);
      if maxLoops >= 0 && SeenBefore(gotos, maxLoops + 1, x) {
        var k: nat :| k < maxLoops + 1 && x in Level(gotos, k);
        if n <= k {
          EmptyLevelStays(gotos, n, k);
        }
      }
    }

    /** An answer is determined by the reached set, up to which of several breaking addresses is reported. */
    lemma AnswerIsUnique(reached: iset<string>, r1: Result<string>, r2: Result<string>)
      requires IsAnswer(reached, r1) && IsAnswer(reached, r2)
      ensures r1 == r2 || (r1.Failure? && r2.Failure?)
    {
      if r1.Success? && r2.Success? && r1.value != "" && r2.value != "" {
        assert IsSoleMailbox(reached, r1.value) && IsSoleMailbox(reached, r2.value);
        assert r1.value in reached && isMailbox(r1.value);
      }
    }

    /** Order and repetition of the starting gotos do not change the answer. */
    lemma OrderIsIrrelevant(g1: seq<string>, g2: seq<string>, n: int, r1: Result<string>, r2: Result<string>)
      requires forall x :: x in g1 <==> x in g2
      requires IsAnswer(Within(g1, n), r1) && IsAnswer(Within(g2, n), r2)
      ensures r1 == r2 || (r1.Failure? && r2.Failure?)
    {
      forall x ensures x in Within(g1, n) <==> x in Within(g2, n) {
        if path :| WalkTo(path, g1, x) && |path| - 1 <= n { assert WalkTo(path, g2, x); }
        if path :| WalkTo(path, g2, x) && |path| - 1 <= n { assert WalkTo(path, g1, x); }
      }
      assert Within(g1, n) == Within(g2, n);
      AnswerIsUnique(Within(g1, n), r1, r2);
    }

    /** Another goto graph with the same mailboxes, the same breaking addresses, and the same gotos in any order and
        repetition. */
    ghost predicate SameUpToOrder(other: Graph) {
      forall x :: (isMailbox(x) <==> other.isMailbox(x)) && (Breaks(x) <==> other.Breaks(x)) && SameMembers(other, x)
    }

    ghost predicate SameMembers(other: Graph, x: string) {
      forall b :: b in Next(x) <==> b in other.Next(x)
    }

    lemma WalkInOther(other: Graph, path: seq<string>, gotos: seq<string>, x: string)
      requires SameUpToOrder(other) && WalkTo(path, gotos, x)
      ensures other.WalkTo(path, gotos, x)
    {
      forall i | 0 <= i < |path| - 1 ensures path[i + 1] in other.Next(path[i]) {
        assert path[i + 1] in Next(path[i]) && SameMembers(other, path[i]);
      }
    }

    lemma OtherIsSame(other: Graph)
      requires SameUpToOrder(other)
      ensures other.SameUpToOrder(this)
    {
      forall x ensures (other.isMailbox(x) <==> isMailbox(x)) && (other.Breaks(x) <==> Breaks(x)) &&
          other.SameMembers(this, x) {
        assert SameMembers(other, x);
      }
    }

    /** Order and repetition inside the alias rows met on the way do not change the answer either. */
    lemma RowOrderIsIrrelevant(other: Graph, gotos: seq<string>, n: int, r1: Result<string>, r2: Result<string>)
      requires SameUpToOrder(other)
      requires IsAnswer(Within(gotos, n), r1) && other.IsAnswer(other.Within(gotos, n), r2)
      ensures Within(gotos, n) == other.Within(gotos, n)
      ensures r1 == r2 || (r1.Failure? && r2.Failure?)
    {
      OtherIsSame(other);
      forall x ensures x in Within(gotos, n) <==> x in other.Within(gotos, n) {
        if path :| WalkTo(path, gotos, x) && |path| - 1 <= n { WalkInOther(other, path, gotos, x); }
        if path :| other.WalkTo(path, gotos, x) && |path| - 1 <= n { other.WalkInOther(this, path, gotos, x); }
      }
      assert Within(gotos, n) == other.Within(gotos, n);
      SameAnswers(other, Within(gotos, n), r1, r2);
    }

    lemma SameAnswers(other: Graph, reached: iset<string>, r1: Result<string>, r2: Result<string>)
      requires SameUpToOrder(other) && IsAnswer(reached, r1) && other.IsAnswer(reached, r2)
      ensures r1 == r2 || (r1.Failure? && r2.Failure?)
    {
      forall u ensures IsSoleMailbox(reached, u) <==> other.IsSoleMailbox(reached, u) {
        assert forall m :: isMailbox(m) <==> other.isMailbox(m);
      }
      if r1.Success? && r2.Success? && r1.value != "" && r2.value != "" {
        assert r1.value in reached && isMailbox(r1.value);
      }
    }

    /** Cutting the cycles out of a walk leaves a walk to the same address that visits nothing twice. */
    lemma {:induction false} CutCycles(path: seq<string>, gotos: seq<string>, x: string) returns (short: seq<string>)
      requires WalkTo(path, gotos, x)
      ensures WalkTo(short, gotos, x)
      ensures forall i, j :: 0 <= i < j < |short| ==> short[i] != short[j]
      decreases |path|
    {
      if i, j :| 0 <= i < j < |path| && path[i] == path[j] {
        var cut := path[..i] + path[j..];
        forall k | 0 <= k < |cut| - 1 ensures cut[k + 1] in Next(cut[k]) {
          if k == i - 1 {
            assert cut[k] == path[k] && cut[k + 1] == path[j] == path[k + 1];
          } else if k < i {
            assert cut[k] == path[k] && cut[k + 1] == path[k + 1];
          } else {
            assert cut[k] == path[k - i + j] && cut[k + 1] == path[k - i + j + 1];
          }
        }
        assert cut[0] == path[0] && cut[|cut| - 1] == path[|path| - 1];
        short := CutCycles(cut, gotos, x);
      } else {
        short := path;
      }
    }

    /** If at most `maxLoops` non-mailbox addresses are reachable at all, the bounded search misses nothing,
        whatever cycles the graph has. */
    lemma BoundSuffices(gotos: seq<string>, maxLoops: nat, inner: set<string>)
      requires forall x :: x in Reachable(gotos) && !isMailbox(x) ==> x in inner
      requires |inner| <= maxLoops
      ensures Within(gotos, maxLoops) == Reachable(gotos)
    {
      forall x | x in Reachable(gotos) ensures x in Within(gotos, maxLoops) {
        var path :| WalkTo(path, gotos, x);
        var short := CutCycles(path, gotos, x);
        ShortWalkFits(gotos, short, x, inner);
        assert ReachedWithin(gotos, maxLoops, x);
      }
    }

    lemma ShortWalkFits(gotos: seq<string>, short: seq<string>, x: string, inner: set<string>)
      requires WalkTo(short, gotos, x)
      requires forall i, j :: 0 <= i < j < |short| ==> short[i] != short[j]
      requires forall y :: y in Reachable(gotos) && !isMailbox(y) ==> y in inner
      ensures |short| - 1 <= |inner|
    {
      var body := short[..|short| - 1];
      forall i | 0 <= i < |body| ensures body[i] in inner {
        assert WalkTo(short[..i + 1], gotos, body[i]);
        assert ReachedAtAll(gotos, body[i]);
        assert short[i + 1] in Next(short[i]);
      }
      DistinctFits(body, inner);
    }
  }

  /** What one expansion reads: the address validator, the DOMAIN_MAP hash, and three tables by their unique keys. */
  datatype Snapshot = Snapshot(
    isEmail: string -> bool,
    domainMap: map<string, string>,
    aliases: map<string, Alias>,
    aliasDomains: map<string, AliasDomain>,
    mailboxes: map<string, bool>)
  {
    predicate IsManaged(domain: string) {
      domain in domainMap && domainMap[domain] != ""
    }

    /** The goto of an active alias; "" when there is none. */
    function GotoOf(address: string): string {
      if address in aliases && aliases[address].active then aliases[address].goto else ""
    }

    function TargetOf(domain: string): string {
      if domain in aliasDomains && aliasDomains[domain].active then aliasDomains[domain].target else ""
    }

    predicate IsMailbox(address: string) {
      address != "" && address in mailboxes && mailboxes[address]
    }

    /** A valid address splits at `@`; one with several `@` cannot be unpacked into two parts. */
    function SplitEmail(email: string): Result<(string, string)> {
      if !isEmail(email) then Failure(InvalidEmail(email))
      else
        var parts := Split(email, '@');
        if |parts| != 2 then Failure(UnpackError(email)) else Success((parts[0], parts[1]))
    }

    /** The gotos the search starts from: alias, then catch-all, then alias domain. */
    function InitialGotos(email: string): Result<seq<string>> {
      match SplitEmail(email)
      case Failure(e) => Failure(e)
      case Success((local, domain)) =>
        if !IsManaged(domain) then Failure(DomainNotFound(domain))
        else if GotoOf(email) != "" then Success(Split(GotoOf(email), ','))
        else if GotoOf("@" + domain) != "" then Success(Split(GotoOf("@" + domain), ','))
        else if TargetOf(domain) != "" then Success([local + "@" + TargetOf(domain)])
        else Success([])
    }

    /** The branches of a later goto: no catch-all, and an invalid or unmanaged address has none. */
    function Expand(goto: string): Result<seq<string>> {
      match SplitEmail(goto)
      case Failure(InvalidEmail(_)) => Success([])
      case Failure(e) => Failure(e)
      case Success((local, domain)) =>
        if !IsManaged(domain) then Success([])
        else if GotoOf(goto) != "" then Success(Split(GotoOf(goto), ','))
        else if TargetOf(domain) != "" then Success([local + "@" + TargetOf(domain)])
        else Success([])
    }

    function GotoGraph(): Graph {
      Graph(x => IsMailbox(x), x => Expand(x))
    }
  }

  lemma {:induction false} DistinctFits(xs: seq<string>, s: set<string>)
    requires forall i :: 0 <= i < |xs| ==> xs[i] in s
    requires forall i, j :: 0 <= i < j < |xs| ==> xs[i] != xs[j]
    ensures |xs| <= |s|
  {
    if xs != [] {
      DistinctFits(xs[1..], s - {xs[0]});
    }
  }

  /** Removes a `+tag` from the local part, as the substitution `^(.*?)\+.*(@.*)$` does on text without line feeds. */
  function StripTags(email: string): string {
    if '+' in email then
      var i := IndexOf(email, '+');
      if '@' in email[i + 1..] then email[..i] + LastField(email[i + 1..]) else email
    else email
  }

  /** The suffix of `s` from its last `@`. */
  function LastField(s: string): string
    requires '@' in s
  {
    var i := IndexOf(s, '@');
    if '@' in s[i + 1..] then LastField(s[i + 1..]) else s[i..]
  }

  lemma {:induction false} LastFieldIsDomain(t: string, d: string)
    requires '@' !in d
    ensures '@' in t + ['@'] + d && LastField(t + ['@'] + d) == ['@'] + d
    decreases |t|
  {
    var s := t + ['@'] + d;
    assert s[|t|] == '@';
    if '@' in t {
      var i := IndexOf(t, '@');
      var u := t[i + 1..];
      assert s == t[..i] + ['@'] + (u + ['@'] + d);
      FirstAfterPrefix(t[..i], '@', u + ['@'] + d);
      LastFieldIsDomain(u, d);
    } else {
      FirstAfterPrefix(t, '@', d);
      assert s[|t|..] == ['@'] + d;
    }
  }

  lemma StripFirst(local: string, t: string)
    requires '+' !in local && '@' in t
    ensures StripTags(local + ['+'] + t) == local + LastField(t)
  {
    var s := local + ['+'] + t;
    assert s[|local|] == '+';
    FirstAfterPrefix(local, '+', t);
    assert s[..|local|] == local && s[|local| + 1..] == t;
  }

  /** Tag removal: `local+tag@domain` becomes `local@domain`, even with further `+` or `@` inside the tag. */
  lemma TagIsStripped(local: string, tag: string, domain: string)
    requires '+' !in local && '@' !in domain
    ensures StripTags(local + "+" + tag + "@" + domain) == local + "@" + domain
  {
    var s := local + "+" + tag + "@" + domain;
    var t := tag + ['@'] + domain;
    assert s == local + ['+'] + t;
    LastFieldIsDomain(tag, domain);
    StripFirst(local, t);
  }

  /** Without a `+`, or without an `@` after the first one, the address is kept. */
  lemma UntaggedIsKept(email: string)
    requires forall i, j :: 0 <= i < j < |email| && email[i] == '+' ==> email[j] != '@'
    ensures StripTags(email) == email
  {
  }

  class RspamdAliasexp {
    const db: Snapshot
    const maxLoops: int

    constructor (db: Snapshot, maxLoops: int)
      ensures this.db == db && this.maxLoops == maxLoops
    {
      this.db, this.maxLoops := db, maxLoops;
    }

    /** Expands a recipient. The starting gotos decide the lookup errors; from there on the answer is that of the
        addresses reached by at most `maxLoops` expansions. */
    method ExpandAlias(rcpt: string) returns (r: Result<string>)
      requires '\n' !in rcpt
      ensures match db.InitialGotos(StripTags(rcpt))
              case Failure(e) => r == Failure(e)
              case Success(gotos) => db.GotoGraph().IsAnswer(db.GotoGraph().Within(gotos, maxLoops), r)
    {
      var email := StripTags(rcpt);
      var initial := db.InitialGotos(email);
      if initial.Failure? {
        return Failure(initial.error);
      }
      r := Search(db.GotoGraph(), initial.value);
    }

    /** One round: sorts the gotos into mailboxes and the branches of the others. */
    method Round(graph: Graph, gotos: seq<string>)
           returns (found: set<string>, newGotos: seq<string>, error: Option<Error>)
      ensures error.None? ==> forall g :: g in gotos ==> !graph.Breaks(g)
      ensures error.None? ==> forall m :: m in found <==> m in gotos && graph.isMailbox(m)
      ensures error.None? ==> forall b :: b in newGotos <==> graph.FollowsAny(gotos, b)
      ensures error.Some? ==> exists g :: g in gotos && graph.Breaks(g) && graph.expand(g) == Failure(error.value)
    {
      found, newGotos := {}, [];
      for i := 0 to |gotos|
        invariant forall g :: g in gotos[..i] ==> !graph.Breaks(g)
        invariant forall m :: m in found <==> m in gotos[..i] && graph.isMailbox(m)
        invariant forall b :: b in newGotos <==> graph.FollowsAny(gotos[..i], b)
      {
        var goto := gotos[i];
        forall b ensures graph.FollowsAny(gotos[..i + 1], b) <==>
            graph.FollowsAny(gotos[..i], b) || b in graph.Next(goto) {
          assert gotos[..i + 1] == gotos[..i] + [goto];
          graph.FollowsOneMore(gotos[..i], goto, b);
        }
        if graph.isMailbox(goto) {
          found := found + {goto};
          assert graph.Next(goto) == [];
        } else {
          var branches := graph.expand(goto);
          if branches.Failure? {
            return found, newGotos, Some(branches.error);
          }
          assert graph.Next(goto) == branches.value;
          newGotos := newGotos + branches.value;
        }
      }
      assert gotos[..|gotos|] == gotos;
      error := None;
    }

    /** `list(set(gotos))`: each once, in some order. */
    method Deduplicate(gotos: seq<string>) returns (r: seq<string>)
      ensures forall x :: x in r <==> x in gotos
    {
      r := ListSet(set g | g in gotos);
    }

    method Search(graph: Graph, start: seq<string>) returns (r: Result<string>)
      requires !graph.isMailbox("")
      ensures graph.IsAnswer(graph.Within(start, maxLoops), r)
    {
      var finalMailboxes: set<string> := {};
      var gotos := start;
      var loopCount := 0;
      while gotos != [] && loopCount <= maxLoops
        invariant loopCount == 0 || loopCount <= maxLoops + 1
        invariant forall x :: x in gotos <==> x in graph.Level(start, loopCount)
        invariant forall m :: m in finalMailboxes <==> graph.isMailbox(m) && graph.SeenBefore(start, loopCount, m)
        invariant forall x :: graph.SeenBefore(start, loopCount, x) ==> !graph.Breaks(x)
        decreases maxLoops + 1 - loopCount
      {
        var found, newGotos, error := Round(graph, gotos);
        if error.Some? {
          FrontierIsWithin(graph, start, loopCount);
          return Failure(error.value);
        }
        forall x ensures graph.SeenBefore(start, loopCount + 1, x) <==>
            graph.SeenBefore(start, loopCount, x) || x in gotos {
          graph.SeenStep(start, loopCount, x);
        }
        graph.NextFrontier(start, loopCount, gotos, newGotos);
        finalMailboxes := finalMailboxes + found;
        loopCount := loopCount + 1;
        gotos := Deduplicate(newGotos);
      }
      ghost var reached := graph.Within(start, maxLoops);
      forall x ensures x in reached <==> graph.SeenBefore(start, loopCount, x) {
        graph.AllSeen(start, maxLoops, loopCount, x);
      }
      graph.AnswerFromFinals(reached, finalMailboxes);
      if |finalMailboxes| == 1 {
        var u :| u in finalMailboxes;
        SingletonMember(finalMailboxes, u);
        return Success(u);
      }
      return Success("");
    }

    lemma FrontierIsWithin(graph: Graph, start: seq<string>, n: nat)
      requires n <= maxLoops
      ensures forall x :: x in graph.Level(start, n) ==> x in graph.Within(start, maxLoops)
    {
      forall x | x in graph.Level(start, n) ensures x in graph.Within(start, maxLoops) {
        graph.WithinIsSeen(start, maxLoops, x);
      }
    }
  }

  lemma SingletonMember(s: set<string>, u: string)
    requires |s| == 1 && u in s
    ensures s == {u}
  {
    assert |s - {u}| == 0;
  }
}
