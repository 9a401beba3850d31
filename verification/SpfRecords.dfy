/** Which terms of a domain's TXT records count: the live ones, up to the first live redirect. A record is the list of
    verdicts on its terms; a record of another kind is the empty list. */
module SpfRecords {
  import opened Text
  import opened SpfEval

  /** What one term asks for: `-` and `~` stop the record, unknown modifiers are skipped. */
  datatype Verdict = Stop | Skip | RedirectTo(target: string) | Do(action: Action)

  type Record = seq<Verdict>

  /** How processing ends: with the hosts collected, or by returning from the evaluation. */
  datatype Step = Continue(hosts: seq<string>) | Return(result: Option<seq<string>>)

  /** One record, term by term, as the evaluation loop runs it. */
  function Scan(net: Net, record: Record, hosts: seq<string>, depth: nat): Step {
    if record == [] then Continue(hosts)
    else
      match record[0]
      case Stop => Continue(hosts)
      case Skip => Scan(net, record[1..], hosts, depth)
      case RedirectTo(target) => Return(Allowed(net, target, true, depth))
      case Do(action) =>
        match ActionHosts(net, action, depth)
        case None => Return(None)
        case Some(more) => Scan(net, record[1..], hosts + more, depth)
  }

  function ScanAll(net: Net, records: seq<Record>, hosts: seq<string>, depth: nat): Step {
    if records == [] then Continue(hosts)
    else
      match Scan(net, records[0], hosts, depth)
      case Return(result) => Return(result)
      case Continue(more) => ScanAll(net, records[1..], more, depth)
  }

  lemma ScanNextTerm(net: Net, record: Record, j: nat, hosts: seq<string>, depth: nat)
    requires j < |record|
    ensures var v := record[j];
            Scan(net, record[j..], hosts, depth) ==
            if v.Stop? then Continue(hosts)
            else if v.Skip? then Scan(net, record[j + 1..], hosts, depth)
            else if v.RedirectTo? then Return(Allowed(net, v.target, true, depth))
            else if ActionHosts(net, v.action, depth).None? then Return(None)
            else Scan(net, record[j + 1..], hosts + ActionHosts(net, v.action, depth).value, depth)
  {
    assert record[j..][1..] == record[j + 1..];
  }

  lemma ScanNextRecord(net: Net, records: seq<Record>, i: nat, hosts: seq<string>, depth: nat)
    requires i < |records|
    ensures ScanAll(net, records[i..], hosts, depth) ==
            match Scan(net, records[i], hosts, depth)
            case Return(result) => Return(result)
            case Continue(more) => ScanAll(net, records[i + 1..], more, depth)
  {
    assert records[i..][0] == records[i] && records[i..][1..] == records[i + 1..];
  }

  /** The live terms of a record: those before its first stop. */
  function Live(record: Record): Record {
    if record == [] || record[0].Stop? then [] else [record[0]] + Live(record[1..])
  }

  function AllLive(records: seq<Record>): Record {
    if records == [] then [] else Live(records[0]) + AllLive(records[1..])
  }

  /** Live terms up to and including the first redirect, as a plan. */
  function PlanFrom(live: Record): Plan {
    if live == [] then Plan([], None)
    else
      match live[0]
      case RedirectTo(target) => Plan([], Some(target))
      case Do(action) => var rest := PlanFrom(live[1..]); Plan([action] + rest.actions, rest.redirect)
      case _ => PlanFrom(live[1..])
  }

  function Outcome(net: Net, plan: Plan, hosts: seq<string>, depth: nat): Step {
    match Collect(net, plan.actions, depth)
    case None => Return(None)
    case Some(more) =>
      if plan.redirect.Some? then Return(Allowed(net, plan.redirect.value, true, depth)) else Continue(hosts + more)
  }

  lemma {:induction false} ScanSkipsDead(net: Net, record: Record, hosts: seq<string>, depth: nat)
    ensures Scan(net, record, hosts, depth) == Scan(net, Live(record), hosts, depth)
    decreases |record|
  {
    if record != [] && !record[0].Stop? {
      assert Live(record)[1..] == Live(record[1..]);
      match record[0]
      case Do(action) =>
        var more := ActionHosts(net, action, depth);
        if more.Some? {
          ScanSkipsDead(net, record[1..], hosts + more.value, depth);
        }
      case RedirectTo(_) =>
      case Skip => ScanSkipsDead(net, record[1..], hosts, depth);
    }
  }

  lemma {:induction false} ScanAppend(net: Net, xs: Record, ys: Record, hosts: seq<string>, depth: nat)
    requires forall i :: 0 <= i < |xs| ==> !xs[i].Stop?
    ensures Scan(net, xs + ys, hosts, depth) ==
            match Scan(net, xs, hosts, depth)
            case Return(result) => Return(result)
            case Continue(more) => Scan(net, ys, more, depth)
    decreases |xs|
  {
    if xs == [] {
      assert xs + ys == ys;
    } else {
      assert (xs + ys)[0] == xs[0] && (xs + ys)[1..] == xs[1..] + ys;
      match xs[0]
      case Do(action) =>
        var more := ActionHosts(net, action, depth);
        if more.Some? {
          ScanAppend(net, xs[1..], ys, hosts + more.value, depth);
        }
      case RedirectTo(_) =>
      case Skip => ScanAppend(net, xs[1..], ys, hosts, depth);
    }
  }

  lemma {:induction false} LiveHasNoStop(record: Record)
    ensures forall i :: 0 <= i < |Live(record)| ==> !Live(record)[i].Stop?
  {
    if record != [] && !record[0].Stop? {
      LiveHasNoStop(record[1..]);
    }
  }

  lemma {:induction false} AllLiveHasNoStop(records: seq<Record>)
    ensures forall i :: 0 <= i < |AllLive(records)| ==> !AllLive(records)[i].Stop?
  {
    if records != [] {
      LiveHasNoStop(records[0]);
      AllLiveHasNoStop(records[1..]);
    }
  }

  lemma {:induction false} ScanAllIsScan(net: Net, records: seq<Record>, hosts: seq<string>, depth: nat)
    ensures ScanAll(net, records, hosts, depth) == Scan(net, AllLive(records), hosts, depth)
  {
    if records != [] {
      ScanSkipsDead(net, records[0], hosts, depth);
      LiveHasNoStop(records[0]);
      ScanAppend(net, Live(records[0]), AllLive(records[1..]), hosts, depth);
      var step := Scan(net, Live(records[0]), hosts, depth);
      if step.Continue? {
        ScanAllIsScan(net, records[1..], step.hosts, depth);
      }
    }
  }

  lemma {:induction false} ScanIsPlan(net: Net, live: Record, hosts: seq<string>, depth: nat)
    requires forall i :: 0 <= i < |live| ==> !live[i].Stop?
    ensures Scan(net, live, hosts, depth) == Outcome(net, PlanFrom(live), hosts, depth)
    decreases |live|
  {
    if live == [] {
      assert hosts + [] == hosts;
    } else {
      match live[0]
      case Do(action) =>
        var rest := PlanFrom(live[1..]);
        assert ([action] + rest.actions)[1..] == rest.actions;
        var more := ActionHosts(net, action, depth);
        if more.Some? {
          ScanIsPlan(net, live[1..], hosts + more.value, depth);
          var later := Collect(net, rest.actions, depth);
          if later.Some? {
            assert hosts + more.value + later.value == hosts + (more.value + later.value);
          }
        }
      case RedirectTo(_) =>
        assert hosts + [] == hosts;
      case Skip => ScanIsPlan(net, live[1..], hosts, depth);
    }
  }

  /** The record loop computes the outcome of the plan made of the live terms. */
  lemma RecordsFollowPlan(net: Net, records: seq<Record>, depth: nat)
    ensures ScanAll(net, records, [], depth) == Outcome(net, PlanFrom(AllLive(records)), [], depth)
  {
    ScanAllIsScan(net, records, [], depth);
    AllLiveHasNoStop(records);
    ScanIsPlan(net, AllLive(records), [], depth);
  }

  // ---- the plan, by positions ----

  /** No term of the record from the first to the `j`-th stops. */
  ghost predicate LiveIn(record: Record, j: int) {
    0 <= j < |record| && forall k :: 0 <= k <= j ==> !record[k].Stop?
  }

  ghost predicate LiveAt(records: seq<Record>, i: int, j: int) {
    0 <= i < |records| && LiveIn(records[i], j)
  }

  /** Position (i, j) comes before (i2, j2). */
  predicate Earlier(i: int, j: int, i2: int, j2: int) {
    i < i2 || (i == i2 && j < j2)
  }

  /** A live redirect with no live redirect before it. */
  ghost predicate FirstRedirectAt(records: seq<Record>, i: int, j: int) {
    && LiveAt(records, i, j) && records[i][j].RedirectTo?
    && forall i2, j2 :: LiveAt(records, i2, j2) && Earlier(i2, j2, i, j) ==> !records[i2][j2].RedirectTo?
  }

  ghost predicate LiveVerdict(records: seq<Record>, v: Verdict) {
    exists i, j :: LiveAt(records, i, j) && records[i][j] == v
  }

  lemma {:induction false} LivePositions(record: Record, j: int)
    ensures LiveIn(record, j) <==> 0 <= j < |Live(record)|
    ensures LiveIn(record, j) ==> Live(record)[j] == record[j]
    decreases |record|
  {
    if record != [] && !record[0].Stop? {
      LivePositions(record[1..], j - 1);
      if LiveIn(record[1..], j - 1) {
        forall k | 0 <= k <= j ensures !record[k].Stop? {
          if k > 0 {
            assert !record[1..][k - 1].Stop?;
          }
        }
      }
      if LiveIn(record, j) && j > 0 {
        forall k | 0 <= k <= j - 1 ensures !record[1..][k].Stop? {
          assert !record[k + 1].Stop?;
        }
      }
    }
  }

  lemma ShiftLive(records: seq<Record>, i: int, j: int)
    requires records != []
    ensures LiveAt(records[1..], i, j) <==> i >= 0 && LiveAt(records, i + 1, j)
    ensures LiveAt(records[1..], i, j) ==> records[1..][i][j] == records[i + 1][j]
    ensures LiveAt(records, 0, j) <==> 0 <= j < |Live(records[0])|
    ensures LiveAt(records, 0, j) ==> Live(records[0])[j] == records[0][j]
  {
    LivePositions(records[0], j);
  }

  /** The live terms are exactly the verdicts at live positions. */
  lemma {:induction false} LiveIsPositional(records: seq<Record>, v: Verdict)
    ensures v in AllLive(records) <==> LiveVerdict(records, v)
  {
    if records != [] {
      LiveIsPositional(records[1..], v);
      if v in Live(records[0]) {
        var j :| 0 <= j < |Live(records[0])| && Live(records[0])[j] == v;
        ShiftLive(records, 0, j);
        assert LiveAt(records, 0, j);
      }
      if LiveVerdict(records[1..], v) {
        var i, j :| LiveAt(records[1..], i, j) && records[1..][i][j] == v;
        ShiftLive(records, i, j);
        assert LiveAt(records, i + 1, j);
      }
      if LiveVerdict(records, v) {
        var i, j :| LiveAt(records, i, j) && records[i][j] == v;
        ShiftLive(records, i - 1, j);
        if i > 0 {
          assert LiveAt(records[1..], i - 1, j);
        }
      }
    }
  }

  lemma {:induction false} PlanMembers(live: Record, action: Action)
    ensures PlanFrom(live).redirect.None? <==> forall i :: 0 <= i < |live| ==> !live[i].RedirectTo?
    ensures PlanFrom(live).redirect.None? ==> (action in PlanFrom(live).actions <==> Do(action) in live)
  {
    if live != [] {
      PlanMembers(live[1..], action);
      assert live == [live[0]] + live[1..];
      assert forall i :: 0 < i < |live| ==> live[i] == live[1..][i - 1];
      assert live[1..] != [] ==> live[1..][0] == live[1];
      if PlanFrom(live).redirect.Some? && !live[0].RedirectTo? {
        var i :| 0 <= i < |live[1..]| && live[1..][i].RedirectTo?;
        assert live[i + 1].RedirectTo?;
      }
    }
  }

  lemma {:induction false} PlanAppend(xs: Record, ys: Record)
    ensures PlanFrom(xs + ys).redirect ==
            if PlanFrom(xs).redirect.Some? then PlanFrom(xs).redirect else PlanFrom(ys).redirect
  {
    if xs == [] {
      assert xs + ys == ys;
    } else {
      assert (xs + ys)[0] == xs[0] && (xs + ys)[1..] == xs[1..] + ys;
      PlanAppend(xs[1..], ys);
    }
  }

  lemma {:induction false} FirstRedirectIn(live: Record) returns (j: nat)
    requires PlanFrom(live).redirect.Some?
    ensures j < |live| && live[j] == RedirectTo(PlanFrom(live).redirect.value)
    ensures forall k :: 0 <= k < j ==> !live[k].RedirectTo?
  {
    if live[0].RedirectTo? {
      j := 0;
    } else {
      var i := FirstRedirectIn(live[1..]);
      j := i + 1;
      assert forall k :: 0 < k < j ==> live[k] == live[1..][k - 1];
    }
  }

  /** The redirect followed is the one at the earliest live position. */
  lemma {:induction false} RedirectIsFirst(records: seq<Record>) returns (i: int, j: int)
    requires PlanFrom(AllLive(records)).redirect.Some?
    ensures FirstRedirectAt(records, i, j)
    ensures records[i][j] == RedirectTo(PlanFrom(AllLive(records)).redirect.value)
  {
    var first := Live(records[0]);
    PlanAppend(first, AllLive(records[1..]));
    if PlanFrom(first).redirect.Some? {
      i := 0;
      j := FirstRedirectIn(first);
      ShiftLive(records, 0, j);
      forall i2, j2 | LiveAt(records, i2, j2) && Earlier(i2, j2, i, j) ensures !records[i2][j2].RedirectTo? {
        ShiftLive(records, 0, j2);
      }
    } else {
      var i1, j1 := RedirectIsFirst(records[1..]);
      i, j := i1 + 1, j1;
      ShiftLive(records, i1, j1);
      PlanMembers(first, Give([], ""));
      forall i2, j2 | LiveAt(records, i2, j2) && Earlier(i2, j2, i, j) ensures !records[i2][j2].RedirectTo? {
        ShiftLive(records, i2 - 1, j2);
      }
    }
  }

  /** A plan by positions: with a live redirect, the earliest one and nothing else counts; without one, the actions
      are those of the live mechanisms. */
  lemma PlanIsPositional(records: seq<Record>, action: Action)
    ensures var plan := PlanFrom(AllLive(records));
            && (plan.redirect.None? <==> !exists target :: LiveVerdict(records, RedirectTo(target)))
            && (plan.redirect.Some? ==>
                  exists i, j :: FirstRedirectAt(records, i, j) && records[i][j] == RedirectTo(plan.redirect.value))
            && (plan.redirect.None? ==> (action in plan.actions <==> LiveVerdict(records, Do(action))))
  {
    var live := AllLive(records);
    PlanMembers(live, action);
    LiveIsPositional(records, Do(action));
    if PlanFrom(live).redirect.Some? {
      var i, j := RedirectIsFirst(records);
      assert LiveVerdict(records, records[i][j]);
    } else {
      forall target ensures !LiveVerdict(records, RedirectTo(target)) {
        LiveIsPositional(records, RedirectTo(target));
      }
    }
  }

  // ---- the mechanisms evaluated, with or without a redirect ----

  /** A live term with no live redirect before it. */
  ghost predicate ReachedAt(records: seq<Record>, i: int, j: int) {
    && LiveAt(records, i, j)
    && forall i2, j2 :: LiveAt(records, i2, j2) && Earlier(i2, j2, i, j) ==> !records[i2][j2].RedirectTo?
  }

  ghost predicate ReachedVerdict(records: seq<Record>, v: Verdict) {
    exists i, j :: ReachedAt(records, i, j) && records[i][j] == v
  }

  ghost predicate ReachedIn(live: Record, k: int, v: Verdict) {
    0 <= k < |live| && live[k] == v && forall m :: 0 <= m < k ==> !live[m].RedirectTo?
  }

  lemma {:induction false} ActionsReached(live: Record, action: Action)
    ensures action in PlanFrom(live).actions <==> exists k :: ReachedIn(live, k, Do(action))
  {
    if live != [] {
      ActionsReached(live[1..], action);
      if k :| ReachedIn(live[1..], k, Do(action)) {
        if !live[0].RedirectTo? {
          assert forall m :: 0 < m < k + 1 ==> live[m] == live[1..][m - 1];
          assert ReachedIn(live, k + 1, Do(action));
        }
      }
      if live[0] == Do(action) {
        assert ReachedIn(live, 0, Do(action));
      }
      if k :| ReachedIn(live, k, Do(action)) {
        if k > 0 {
          assert !live[0].RedirectTo?;
          assert forall m :: 0 <= m < k - 1 ==> live[1..][m] == live[m + 1];
          assert ReachedIn(live[1..], k - 1, Do(action));
        }
      }
    }
  }

  lemma {:induction false} ActionsAppend(xs: Record, ys: Record)
    ensures PlanFrom(xs + ys).actions ==
            PlanFrom(xs).actions + if PlanFrom(xs).redirect.Some? then [] else PlanFrom(ys).actions
  {
    if xs == [] {
      assert xs + ys == ys;
    } else {
      assert (xs + ys)[0] == xs[0] && (xs + ys)[1..] == xs[1..] + ys;
      ActionsAppend(xs[1..], ys);
      if xs[0].Do? {
        var a, b := PlanFrom(xs[1..]).actions, if PlanFrom(xs[1..]).redirect.Some? then [] else PlanFrom(ys).actions;
        assert [xs[0].action] + (a + b) == [xs[0].action] + a + b;
      }
    }
  }

  lemma ReachedInFirst(records: seq<Record>, action: Action)
    requires records != [] && action in PlanFrom(Live(records[0])).actions
    ensures ReachedVerdict(records, Do(action))
  {
    var first := Live(records[0]);
    ActionsReached(first, action);
    var k :| ReachedIn(first, k, Do(action));
    ShiftLive(records, 0, k);
    forall i2, j2 | LiveAt(records, i2, j2) && Earlier(i2, j2, 0, k) ensures !records[i2][j2].RedirectTo? {
      ShiftLive(records, 0, j2);
    }
    assert ReachedAt(records, 0, k);
  }

  lemma ReachedLater(records: seq<Record>, v: Verdict)
    requires records != [] && ReachedVerdict(records[1..], v) && PlanFrom(Live(records[0])).redirect.None?
    ensures ReachedVerdict(records, v)
  {
    var i, j :| ReachedAt(records[1..], i, j) && records[1..][i][j] == v;
    ShiftLive(records, i, j);
    PlanMembers(Live(records[0]), Give([], ""));
    forall i2, j2 | LiveAt(records, i2, j2) && Earlier(i2, j2, i + 1, j) ensures !records[i2][j2].RedirectTo? {
      ShiftLive(records, i2 - 1, j2);
    }
    assert ReachedAt(records, i + 1, j);
  }

  lemma ReachedSplits(records: seq<Record>, action: Action, i: int, j: int)
    requires ReachedAt(records, i, j) && records[i][j] == Do(action)
    ensures if i == 0 then action in PlanFrom(Live(records[0])).actions
            else PlanFrom(Live(records[0])).redirect.None? && ReachedVerdict(records[1..], Do(action))
  {
    var first := Live(records[0]);
    if i == 0 {
      ShiftLive(records, 0, j);
      forall m | 0 <= m < j ensures !first[m].RedirectTo? {
        ShiftLive(records, 0, m);
      }
      assert ReachedIn(first, j, Do(action));
      ActionsReached(first, action);
    } else {
      forall m | 0 <= m < |first| ensures !first[m].RedirectTo? {
        ShiftLive(records, 0, m);
        assert LiveAt(records, 0, m);
      }
      PlanMembers(first, action);
      ShiftLive(records, i - 1, j);
      forall i2, j2 | LiveAt(records[1..], i2, j2) && Earlier(i2, j2, i - 1, j)
        ensures !records[1..][i2][j2].RedirectTo?
      {
        ShiftLive(records, i2, j2);
      }
      assert ReachedAt(records[1..], i - 1, j);
    }
  }

  /** The mechanisms evaluated are exactly the live ones with no live redirect before them. */
  lemma {:induction false} ReachedIsPositional(records: seq<Record>, action: Action)
    ensures action in PlanFrom(AllLive(records)).actions <==> ReachedVerdict(records, Do(action))
  {
    if records != [] {
      ActionsAppend(Live(records[0]), AllLive(records[1..]));
      ReachedIsPositional(records[1..], action);
      if action in PlanFrom(Live(records[0])).actions {
        ReachedInFirst(records, action);
      } else if action in PlanFrom(AllLive(records)).actions {
        ReachedLater(records, Do(action));
      }
      if i, j :| ReachedAt(records, i, j) && records[i][j] == Do(action) {
        ReachedSplits(records, action, i, j);
      }
    }
  }
}
