/** DMARC report ingestion: deduplicated tables, counters, and what redelivery and failures do to them. */
module Dmarc {
  import opened Text

  /** One record row of a report; `rest` stands for the columns no decision depends on. */
  datatype Record = Record(count: int, dmarcResult: string, disposition: string, rest: string)

  datatype Report = Report(id: string, domain: string, rest: string)

  /** One XML document of a message, parsed; Malformed when parsing raises. */
  datatype Attachment = Parsed(report: Report, records: seq<Record>) | Malformed

  /** A message by its XML documents; Unreadable when extracting them raises. */
  datatype Message = Unreadable | Readable(attachments: seq<Attachment>)

  /** A stored report with its record rows. */
  datatype Entry = Entry(report: Report, records: seq<Record>)

  datatype Label = Label(domain: string, dmarcResult: string, disposition: string)

  /** `stored` in insertion order; `counters` is dmarc_messages_total, absent labels at zero. */
  datatype State = State(stored: seq<Entry>, counters: map<Label, int>, processed: nat, failed: nat)

  function LabelOf(domain: string, r: Record): Label {
    Label(domain, r.dmarcResult, r.disposition)
  }

  function At(counters: map<Label, int>, l: Label): int {
    if l in counters then counters[l] else 0
  }

  predicate HasId(stored: seq<Entry>, id: string) {
    stored != [] && (stored[0].report.id == id || HasId(stored[1..], id))
  }

  predicate AnyNegative(records: seq<Record>) {
    records != [] && (records[0].count < 0 || AnyNegative(records[1..]))
  }

  /** `update_metrics`: incrementing by a negative amount raises, and the records after it are not counted. */
  function Counted(counters: map<Label, int>, domain: string, records: seq<Record>): map<Label, int>
    decreases |records|
  {
    if records == [] || records[0].count < 0 then counters
    else
      var l := LabelOf(domain, records[0]);
      Counted(counters[l := At(counters, l) + records[0].count], domain, records[1..])
  }

  /** State after the documents of one message, and whether processing raised. */
  function Process(st: State, attachments: seq<Attachment>): (State, bool)
    decreases |attachments|
  {
    if attachments == [] then (st, false)
    else if attachments[0].Malformed? then (st, true)
    else
      var report, records := attachments[0].report, attachments[0].records;
      if HasId(st.stored, report.id) then Process(st, attachments[1..])
      else
        var counted := st.(stored := st.stored + [Entry(report, records)],
                           counters := Counted(st.counters, report.domain, records));
        if AnyNegative(records) then (counted, true)
        else Process(counted.(processed := st.processed + 1), attachments[1..])
  }

  /** One message of the fetch loop: an exception is counted and swallowed. */
  function Deliver(st: State, m: Message): State {
    if m.Unreadable? then st.(failed := st.failed + 1)
    else
      var (after, raised) := Process(st, m.attachments);
      if raised then after.(failed := after.failed + 1) else after
  }

  function DeliverAll(st: State, messages: seq<Message>): State
    decreases |messages|
  {
    if messages == [] then st else DeliverAll(Deliver(st, messages[0]), messages[1..])
  }

  // ---- each report is stored once, and the first one wins ----

  ghost predicate UniqueIds(stored: seq<Entry>) {
    forall i, j :: 0 <= i < j < |stored| ==> stored[i].report.id != stored[j].report.id
  }

  lemma {:induction false} HasIdIsMembership(stored: seq<Entry>, id: string)
    ensures HasId(stored, id) <==> exists i :: 0 <= i < |stored| && stored[i].report.id == id
  {
    if stored != [] {
      HasIdIsMembership(stored[1..], id);
      if i :| 0 <= i < |stored[1..]| && stored[1..][i].report.id == id {
        assert stored[i + 1].report.id == id;
      }
      if i :| 0 < i < |stored| && stored[i].report.id == id {
        assert stored[1..][i - 1].report.id == id;
      }
    }
  }

  lemma HasIdGrows(before: seq<Entry>, after: seq<Entry>, id: string)
    requires before <= after && HasId(before, id)
    ensures HasId(after, id)
  {
    HasIdIsMembership(before, id);
    HasIdIsMembership(after, id);
    var i :| 0 <= i < |before| && before[i].report.id == id;
    assert after[i] == before[i];
  }

  lemma AppendUnique(stored: seq<Entry>, e: Entry)
    requires UniqueIds(stored) && !HasId(stored, e.report.id)
    ensures UniqueIds(stored + [e])
  {
    HasIdIsMembership(stored, e.report.id);
  }

  lemma {:induction false} ProcessStoresOnce(st: State, attachments: seq<Attachment>)
    requires UniqueIds(st.stored)
    ensures UniqueIds(Process(st, attachments).0.stored) && st.stored <= Process(st, attachments).0.stored
    decreases |attachments|
  {
    if attachments != [] && attachments[0].Parsed? {
      var report, records := attachments[0].report, attachments[0].records;
      if HasId(st.stored, report.id) {
        ProcessStoresOnce(st, attachments[1..]);
      } else {
        AppendUnique(st.stored, Entry(report, records));
        if !AnyNegative(records) {
          ProcessStoresOnce(st.(stored := st.stored + [Entry(report, records)],
              counters := Counted(st.counters, report.domain, records),
                                processed := st.processed + 1), attachments[1..]);
        }
      }
    }
  }

  /** Whatever is delivered, in whatever order and however often: report ids stay unique, and what is stored is never
      changed or removed. */
  lemma {:induction false} StoredOnceFirstWins(st: State, messages: seq<Message>)
    requires UniqueIds(st.stored)
    ensures UniqueIds(DeliverAll(st, messages).stored) && st.stored <= DeliverAll(st, messages).stored
    decreases |messages|
  {
    if messages != [] {
      if messages[0].Readable? {
        ProcessStoresOnce(st, messages[0].attachments);
      }
      StoredOnceFirstWins(Deliver(st, messages[0]), messages[1..]);
    }
  }

  // ---- the counters are a function of the tables ----

  /** A record of a report on this domain is counted under the label of its domain, result and disposition. */
  predicate Under(domain: string, r: Record, l: Label) {
    domain == l.domain && r.dmarcResult == l.dmarcResult && r.disposition == l.disposition
  }

  /** Sum of the counts under a label, up to the first negative count. */
  function CountedPrefix(domain: string, records: seq<Record>, l: Label): int {
    if records == [] || records[0].count < 0 then 0
    else (if Under(domain, records[0], l) then records[0].count else 0) + CountedPrefix(domain, records[1..], l)
  }

  /** Sum of the non-negative counts under a label. */
  function NonNegative(domain: string, records: seq<Record>, l: Label): int {
    if records == [] then 0
    else (if Under(domain, records[0], l) && records[0].count >= 0 then records[0].count else 0)
         + NonNegative(domain, records[1..], l)
  }

  function SumPrefixes(stored: seq<Entry>, l: Label): int {
    if stored == [] then 0
    else
      var last := stored[|stored| - 1];
      SumPrefixes(stored[..|stored| - 1], l) + CountedPrefix(last.report.domain, last.records, l)
  }

  function SumNonNegative(stored: seq<Entry>, l: Label): int {
    if stored == [] then 0
    else
      var last := stored[|stored| - 1];
      SumNonNegative(stored[..|stored| - 1], l) + NonNegative(last.report.domain, last.records, l)
  }

  ghost predicate Agrees(st: State, l: Label) {
    At(st.counters, l) == SumPrefixes(st.stored, l)
  }

  lemma {:induction false} CountingAdds(counters: map<Label, int>, domain: string, records: seq<Record>, l: Label)
    ensures At(Counted(counters, domain, records), l) == At(counters, l) + CountedPrefix(domain, records, l)
    decreases |records|
  {
    if records != [] && records[0].count >= 0 {
      var k := LabelOf(domain, records[0]);
      CountingAdds(counters[k := At(counters, k) + records[0].count], domain, records[1..], l);
    }
  }

  lemma SumAppends(stored: seq<Entry>, e: Entry, l: Label)
    ensures SumPrefixes(stored + [e], l) == SumPrefixes(stored, l) + CountedPrefix(e.report.domain, e.records, l)
  {
    assert (stored + [e])[..|stored|] == stored;
  }

  lemma {:induction false} ProcessAgrees(st: State, attachments: seq<Attachment>, l: Label)
    requires Agrees(st, l)
    ensures Agrees(Process(st, attachments).0, l)
    decreases |attachments|
  {
    if attachments != [] && attachments[0].Parsed? {
      var report, records := attachments[0].report, attachments[0].records;
      if HasId(st.stored, report.id) {
        ProcessAgrees(st, attachments[1..], l);
      } else {
        SumAppends(st.stored, Entry(report, records), l);
        CountingAdds(st.counters, report.domain, records, l);
        if !AnyNegative(records) {
          ProcessAgrees(st.(stored := st.stored + [Entry(report, records)],
              counters := Counted(st.counters, report.domain, records),
                            processed := st.processed + 1), attachments[1..], l);
        }
      }
    }
  }

  /** In every run, with any repeats and failures, each label's counter is the sum over the stored reports of the
      counts before the report's first negative one. */
  lemma {:induction false} CountersFollowTables(st: State, messages: seq<Message>, l: Label)
    requires Agrees(st, l)
    ensures Agrees(DeliverAll(st, messages), l)
    decreases |messages|
  {
    if messages != [] {
      if messages[0].Readable? {
        ProcessAgrees(st, messages[0].attachments, l);
      }
      CountersFollowTables(Deliver(st, messages[0]), messages[1..], l);
    }
  }

  /** Some positive count comes after a negative one. */
  predicate CountsLost(records: seq<Record>) {
    if records == [] then false
    else if records[0].count < 0 then AnyPositive(records[1..])
    else CountsLost(records[1..])
  }

  predicate AnyPositive(records: seq<Record>) {
    records != [] && (records[0].count > 0 || AnyPositive(records[1..]))
  }

  lemma {:induction false} NonNegativeIsPositive(domain: string, records: seq<Record>, l: Label)
    ensures NonNegative(domain, records, l) >= 0
    ensures !AnyPositive(records) ==> NonNegative(domain, records, l) == 0
  {
    if records != [] {
      NonNegativeIsPositive(domain, records[1..], l);
    }
  }

  lemma {:induction false} PositiveHasLabel(domain: string, records: seq<Record>) returns (l: Label)
    requires AnyPositive(records)
    ensures l.domain == domain && NonNegative(domain, records, l) > 0
  {
    if records[0].count > 0 {
      l := LabelOf(domain, records[0]);
    } else {
      l := PositiveHasLabel(domain, records[1..]);
    }
    NonNegativeIsPositive(domain, records[1..], l);
  }

  lemma {:induction false} PrefixFallsShort(domain: string, records: seq<Record>, l: Label)
    ensures CountedPrefix(domain, records, l) <= NonNegative(domain, records, l)
    ensures !CountsLost(records) ==> CountedPrefix(domain, records, l) == NonNegative(domain, records, l)
  {
    if records != [] {
      PrefixFallsShort(domain, records[1..], l);
      NonNegativeIsPositive(domain, records[1..], l);
    }
  }

  lemma {:induction false} LossHasLabel(domain: string, records: seq<Record>) returns (l: Label)
    requires CountsLost(records)
    ensures CountedPrefix(domain, records, l) < NonNegative(domain, records, l)
  {
    if records[0].count < 0 {
      l := PositiveHasLabel(domain, records[1..]);
    } else {
      l := LossHasLabel(domain, records[1..]);
    }
  }

  lemma {:induction false} SumsCompare(stored: seq<Entry>, l: Label)
    ensures SumPrefixes(stored, l) <= SumNonNegative(stored, l)
    ensures (forall i :: 0 <= i < |stored| ==> !CountsLost(stored[i].records)) ==>
            SumPrefixes(stored, l) == SumNonNegative(stored, l)
  {
    if stored != [] {
      SumsCompare(stored[..|stored| - 1], l);
      PrefixFallsShort(stored[|stored| - 1].report.domain, stored[|stored| - 1].records, l);
    }
  }

  lemma {:induction false} LossShows(stored: seq<Entry>, i: nat) returns (l: Label)
    requires i < |stored| && CountsLost(stored[i].records)
    ensures SumPrefixes(stored, l) < SumNonNegative(stored, l)
  {
    var front, last := stored[..|stored| - 1], stored[|stored| - 1];
    if i == |stored| - 1 {
      l := LossHasLabel(last.report.domain, last.records);
      SumsCompare(front, l);
    } else {
      l := LossShows(front, i);
      PrefixFallsShort(last.report.domain, last.records, l);
    }
  }

  /** When the counters are the sums of all non-negative counts: exactly when no stored report has a positive count
      after a negative one. */
  lemma CountersAreSumsIff(st: State)
    requires forall l :: Agrees(st, l)
    ensures (forall l :: At(st.counters, l) == SumNonNegative(st.stored, l)) <==>
            (forall i :: 0 <= i < |st.stored| ==> !CountsLost(st.stored[i].records))
  {
    if forall i :: 0 <= i < |st.stored| ==> !CountsLost(st.stored[i].records) {
      forall l ensures At(st.counters, l) == SumNonNegative(st.stored, l) {
        assert Agrees(st, l);
        SumsCompare(st.stored, l);
      }
    } else {
      var i :| 0 <= i < |st.stored| && CountsLost(st.stored[i].records);
      var l := LossShows(st.stored, i);
      assert Agrees(st, l);
    }
  }

  // ---- redelivery ----

  /** Every document before the first malformed one is already stored. */
  predicate Settled(stored: seq<Entry>, attachments: seq<Attachment>) {
    attachments == [] || attachments[0].Malformed?
    || (HasId(stored, attachments[0].report.id) && Settled(stored, attachments[1..]))
  }

  /** Delivering these documents stops on a negative count while a later one is still to be stored. */
  predicate LeavesSome(stored: seq<Entry>, attachments: seq<Attachment>)
    decreases |attachments|
  {
    if attachments == [] || attachments[0].Malformed? then false
    else if HasId(stored, attachments[0].report.id) then LeavesSome(stored, attachments[1..])
    else
      var after := stored + [Entry(attachments[0].report, attachments[0].records)];
      if AnyNegative(attachments[0].records) then !Settled(after, attachments[1..])
      else LeavesSome(after, attachments[1..])
  }

  /** Processing settled documents changes nothing, and only settled documents change nothing. */
  lemma {:induction false} SettledIsNoop(st: State, attachments: seq<Attachment>)
    requires UniqueIds(st.stored)
    ensures Settled(st.stored, attachments) ==> Process(st, attachments).0 == st
    ensures !Settled(st.stored, attachments) ==> |Process(st, attachments).0.stored| > |st.stored|
    decreases |attachments|
  {
    if attachments != [] && attachments[0].Parsed? {
      var report, records := attachments[0].report, attachments[0].records;
      if HasId(st.stored, report.id) {
        SettledIsNoop(st, attachments[1..]);
      } else {
        AppendUnique(st.stored, Entry(report, records));
        if !AnyNegative(records) {
          ProcessStoresOnce(st.(stored := st.stored + [Entry(report, records)],
              counters := Counted(st.counters, report.domain, records),
                                processed := st.processed + 1), attachments[1..]);
        }
      }
    }
  }

  lemma {:induction false} SettledGrows(before: seq<Entry>, after: seq<Entry>, attachments: seq<Attachment>)
    requires before <= after && Settled(before, attachments)
    ensures Settled(after, attachments)
  {
    if attachments != [] && attachments[0].Parsed? {
      HasIdGrows(before, after, attachments[0].report.id);
      SettledGrows(before, after, attachments[1..]);
    }
  }

  lemma {:induction false} DeliverySettles(st: State, attachments: seq<Attachment>)
    requires UniqueIds(st.stored)
    ensures Settled(Process(st, attachments).0.stored, attachments) <==> !LeavesSome(st.stored, attachments)
    decreases |attachments|
  {
    if attachments != [] && attachments[0].Parsed? {
      var report, records := attachments[0].report, attachments[0].records;
      var rest := attachments[1..];
      ProcessStoresOnce(st, attachments);
      if HasId(st.stored, report.id) {
        ProcessStoresOnce(st, rest);
        HasIdGrows(st.stored, Process(st, rest).0.stored, report.id);
        DeliverySettles(st, rest);
      } else {
        var e := Entry(report, records);
        AppendUnique(st.stored, e);
        HasIdIsMembership(st.stored + [e], report.id);
        assert (st.stored + [e])[|st.stored|] == e;
        if !AnyNegative(records) {
          var next := st.(stored := st.stored + [e], counters := Counted(st.counters, report.domain, records),
              processed := st.processed + 1);
          ProcessStoresOnce(next, rest);
          HasIdGrows(st.stored + [e], Process(next, rest).0.stored, report.id);
          DeliverySettles(next, rest);
        }
      }
    }
  }

  predicate SameData(a: State, b: State) {
    a.stored == b.stored && a.counters == b.counters && a.processed == b.processed
  }

  /** Redelivering a message, at once, changes neither tables nor counters exactly when the first delivery did not
      stop on a negative count with a later report still to be stored. */
  lemma RedeliveryIsNoopIff(st: State, attachments: seq<Attachment>)
    requires UniqueIds(st.stored)
    ensures var once := Deliver(st, Readable(attachments));
            SameData(Deliver(once, Readable(attachments)), once) <==> !LeavesSome(st.stored, attachments)
  {
    var once := Deliver(st, Readable(attachments));
    ProcessStoresOnce(st, attachments);
    DeliverySettles(st, attachments);
    SettledIsNoop(once, attachments);
  }

  /** Delivering the documents again, after whatever else, changes neither tables nor counters. */
  ghost predicate IdleAfter(st: State, attachments: seq<Attachment>, between: seq<Message>) {
    var later := DeliverAll(Deliver(st, Readable(attachments)), between);
    SameData(Deliver(later, Readable(attachments)), later)
  }

  lemma SettledStaysIdle(st: State, attachments: seq<Attachment>, between: seq<Message>)
    requires UniqueIds(st.stored) && !LeavesSome(st.stored, attachments)
    ensures IdleAfter(st, attachments, between)
  {
    var once := Deliver(st, Readable(attachments));
    var later := DeliverAll(once, between);
    ProcessStoresOnce(st, attachments);
    DeliverySettles(st, attachments);
    StoredOnceFirstWins(once, between);
    SettledGrows(once.stored, later.stored, attachments);
    SettledIsNoop(later, attachments);
  }

  /** A message once delivered has no further effect, whatever else is delivered in between, exactly when its delivery
      did not stop on a negative count with a later report still to be stored. */
  lemma LateRedeliveryIsNoopIff(st: State, attachments: seq<Attachment>)
    requires UniqueIds(st.stored)
    ensures (forall between :: IdleAfter(st, attachments, between)) <==> !LeavesSome(st.stored, attachments)
  {
    if LeavesSome(st.stored, attachments) {
      RedeliveryIsNoopIff(st, attachments);
      assert !IdleAfter(st, attachments, []);
    } else {
      forall between ensures IdleAfter(st, attachments, between) {
        SettledStaysIdle(st, attachments, between);
      }
    }
  }

  predicate AllNonNegative(attachments: seq<Attachment>) {
    || attachments == [] || attachments[0].Malformed?
    || (!AnyNegative(attachments[0].records) && AllNonNegative(attachments[1..]))
  }

  /** Without a negative count nothing is left behind. */
  lemma {:induction false} NonNegativeLeavesNone(stored: seq<Entry>, attachments: seq<Attachment>)
    requires AllNonNegative(attachments)
    ensures !LeavesSome(stored, attachments)
    decreases |attachments|
  {
    if attachments != [] && attachments[0].Parsed? {
      NonNegativeLeavesNone(stored, attachments[1..]);
      NonNegativeLeavesNone(stored + [Entry(attachments[0].report, attachments[0].records)], attachments[1..]);
    }
  }

  /** A message on which redelivery does have an effect: a negative count first, another report after it. */
  lemma NegativeCountCounterexample()
    ensures var bad := Parsed(Report("a", "x.org", ""),
            [Record(-1, "pass", "none", ""), Record(5, "pass", "none", "")]);
            var good := Parsed(Report("b", "x.org", ""), [Record(2, "pass", "none", "")]);
            var once := Deliver(State([], map[], 0, 0), Readable([bad, good]));
            && |once.stored| == 1 && |Deliver(once, Readable([bad, good])).stored| == 2
            && At(once.counters, Label("x.org", "pass", "none")) == 0
            && SumNonNegative(once.stored, Label("x.org", "pass", "none")) == 5
  {
    var bad := Parsed(Report("a", "x.org", ""), [Record(-1, "pass", "none", ""), Record(5, "pass", "none", "")]);
    var good := Parsed(Report("b", "x.org", ""), [Record(2, "pass", "none", "")]);
    var st := State([], map[], 0, 0);
    var e := Entry(bad.report, bad.records);
    var once := st.(stored := [e]);
    assert [bad, good][0] == bad && [bad, good][1..] == [good];
    assert st.stored + [e] == [e] && !HasId(st.stored, "a");
    assert Counted(map[], "x.org", bad.records) == map[] && AnyNegative(bad.records);
    assert Process(st, [bad, good]).0 == once && Process(st, [bad, good]).1;
    assert !HasId([e], "b") && HasId([e], "a");
    assert Process(once, [bad, good]) == Process(once, [good]);
    assert bad.records[1..] == [Record(5, "pass", "none", "")];
    assert NonNegative("x.org", bad.records, Label("x.org", "pass", "none")) == 5;
    assert [e][..0] == [];
  }

  // ---- where processing raises, and what is counted ----

  /** The document is malformed, or a new report with a negative count. */
  predicate RaisesAt(stored: seq<Entry>, attachments: seq<Attachment>, i: nat)
    requires i < |attachments|
  {
    var a := attachments[i];
    || a.Malformed?
    || (AnyNegative(a.records) && !HasId(stored, a.report.id) &&
        forall k :: 0 <= k < i ==> attachments[k].Malformed? || attachments[k].report.id != a.report.id)
  }

  lemma AppendHasId(stored: seq<Entry>, e: Entry, id: string)
    ensures HasId(stored + [e], id) <==> HasId(stored, id) || e.report.id == id
  {
    HasIdIsMembership(stored, id);
    HasIdIsMembership(stored + [e], id);
    assert (stored + [e])[|stored|] == e;
    assert forall i :: 0 <= i < |stored| ==> (stored + [e])[i] == stored[i];
  }

  ghost predicate RaisesSomewhere(stored: seq<Entry>, attachments: seq<Attachment>) {
    exists i :: 0 <= i < |attachments| && RaisesAt(stored, attachments, i)
  }

  lemma RaisesLater(stored: seq<Entry>, after: seq<Entry>, attachments: seq<Attachment>)
    requires attachments != [] && attachments[0].Parsed?
    requires !RaisesAt(stored, attachments, 0)
    requires forall id :: HasId(after, id) <==> HasId(stored, id) || id == attachments[0].report.id
    ensures RaisesSomewhere(stored, attachments) <==> RaisesSomewhere(after, attachments[1..])
  {
    forall i | 0 <= i < |attachments[1..]|
      ensures RaisesAt(after, attachments[1..], i) <==> RaisesAt(stored, attachments, i + 1)
    {
      assert forall k :: 0 <= k < i ==> attachments[1..][k] == attachments[k + 1];
      assert forall k :: 0 < k < i + 1 ==> attachments[k] == attachments[1..][k - 1];
    }
    if i :| 0 <= i < |attachments| && RaisesAt(stored, attachments, i) {
      assert RaisesAt(after, attachments[1..], i - 1);
    }
  }

  /** Processing a message raises exactly when one of its documents is malformed or is a report, neither stored before
      nor earlier in the message, with a negative count. */
  lemma {:induction false} RaisesIff(st: State, attachments: seq<Attachment>)
    ensures Process(st, attachments).1 <==> RaisesSomewhere(st.stored, attachments)
    decreases |attachments|
  {
    if attachments != [] {
      if attachments[0].Malformed? {
        assert RaisesAt(st.stored, attachments, 0);
      } else {
        var report, records := attachments[0].report, attachments[0].records;
        var e := Entry(report, records);
        if HasId(st.stored, report.id) {
          RaisesLater(st.stored, st.stored, attachments);
          RaisesIff(st, attachments[1..]);
        } else if AnyNegative(records) {
          assert RaisesAt(st.stored, attachments, 0);
        } else {
          forall id ensures HasId(st.stored + [e], id) <==> HasId(st.stored, id) || id == report.id {
            AppendHasId(st.stored, e, id);
          }
          RaisesLater(st.stored, st.stored + [e], attachments);
          RaisesIff(st.(stored := st.stored + [e], counters := Counted(st.counters, report.domain, records),
            processed := st.processed + 1), attachments[1..]);
        }
      }
    }
  }

  /** Stored reports without a negative count. */
  function CleanCount(stored: seq<Entry>): nat {
    if stored == [] then 0
    else CleanCount(stored[..|stored| - 1]) + if AnyNegative(stored[|stored| - 1].records) then 0 else 1
  }

  lemma CleanGrows(stored: seq<Entry>, e: Entry)
    ensures CleanCount(stored + [e]) == CleanCount(stored) + if AnyNegative(e.records) then 0 else 1
  {
    assert (stored + [e])[..|stored|] == stored;
  }

  lemma {:induction false} ProcessCountsClean(st: State, attachments: seq<Attachment>)
    ensures var after := Process(st, attachments).0;
            after.processed + CleanCount(st.stored) == st.processed + CleanCount(after.stored)
    decreases |attachments|
  {
    if attachments != [] && attachments[0].Parsed? {
      var report, records := attachments[0].report, attachments[0].records;
      if HasId(st.stored, report.id) {
        ProcessCountsClean(st, attachments[1..]);
      } else {
        CleanGrows(st.stored, Entry(report, records));
        if !AnyNegative(records) {
          ProcessCountsClean(st.(stored := st.stored + [Entry(report, records)],
              counters := Counted(st.counters, report.domain, records),
                                 processed := st.processed + 1), attachments[1..]);
        }
      }
    }
  }

  lemma {:induction false} ProcessFailsNothing(st: State, attachments: seq<Attachment>)
    ensures Process(st, attachments).0.failed == st.failed
    decreases |attachments|
  {
    if attachments != [] && attachments[0].Parsed? {
      var report, records := attachments[0].report, attachments[0].records;
      if HasId(st.stored, report.id) {
        ProcessFailsNothing(st, attachments[1..]);
      } else if !AnyNegative(records) {
        ProcessFailsNothing(st.(stored := st.stored + [Entry(report, records)],
            counters := Counted(st.counters, report.domain, records),
                                processed := st.processed + 1), attachments[1..]);
      }
    }
  }

  /** In every run the processed counter rises by the reports newly stored without a negative count. */
  lemma {:induction false} ProcessedCountsClean(st: State, messages: seq<Message>)
    ensures var after := DeliverAll(st, messages);
            after.processed - st.processed == CleanCount(after.stored) - CleanCount(st.stored)
    decreases |messages|
  {
    if messages != [] {
      if messages[0].Readable? {
        ProcessCountsClean(st, messages[0].attachments);
      }
      ProcessedCountsClean(Deliver(st, messages[0]), messages[1..]);
    }
  }

  /** The failed counter rises by one exactly for a message that cannot be read or raises. */
  lemma FailedIff(st: State, m: Message)
    ensures Deliver(st, m).failed ==
            st.failed + if m.Unreadable? || RaisesSomewhere(st.stored, m.attachments) then 1 else 0
  {
    if m.Readable? {
      RaisesIff(st, m.attachments);
      ProcessFailsNothing(st, m.attachments);
    }
  }
}
