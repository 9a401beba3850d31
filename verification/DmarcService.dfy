/** The DMARC ingestion loops over a database session and live counters; each is proved to do the steps of Dmarc. */
module DmarcService {
  import opened Text
  import opened Dmarc

  datatype ReportRow = ReportRow(key: nat, report: Report)

  datatype RecordRow = RecordRow(reportKey: nat, record: Record)

  /** The record rows of one report, in insertion order. */
  function RowsOf(records: seq<RecordRow>, key: nat): seq<Record> {
    if records == [] then []
    else
      var front, last := records[..|records| - 1], records[|records| - 1];
      RowsOf(front, key) + if last.reportKey == key then [last.record] else []
  }

  /** What the two tables store, joined on the report key. */
  function Joined(reports: seq<ReportRow>, records: seq<RecordRow>): seq<Entry>
    decreases |reports|
  {
    if reports == [] then []
    else
      var front, last := reports[..|reports| - 1], reports[|reports| - 1];
      Joined(front, records) + [Entry(last.report, RowsOf(records, last.key))]
  }

  lemma {:induction false} NoRows(records: seq<RecordRow>, key: nat)
    requires forall r :: r in records ==> r.reportKey < key
    ensures RowsOf(records, key) == []
  {
    if records != [] {
      NoRows(records[..|records| - 1], key);
    }
  }

  lemma {:induction false} RowOfAnother(reports: seq<ReportRow>, records: seq<RecordRow>, row: RecordRow)
    requires forall r :: r in reports ==> r.key != row.reportKey
    ensures Joined(reports, records + [row]) == Joined(reports, records)
    decreases |reports|
  {
    if reports != [] {
      RowOfAnother(reports[..|reports| - 1], records, row);
      var last := reports[|reports| - 1];
      assert (records + [row])[..|records|] == records && last in reports;
      assert RowsOf(records + [row], last.key) == RowsOf(records, last.key);
      assert Joined(reports, records + [row])
          == Joined(reports[..|reports| - 1], records + [row])
             + [Entry(last.report, RowsOf(records + [row], last.key))];
    }
  }

  lemma {:induction false} IdsAreKept(reports: seq<ReportRow>, records: seq<RecordRow>)
    ensures |Joined(reports, records)| == |reports|
    ensures forall i :: 0 <= i < |reports| ==> Joined(reports, records)[i].report == reports[i].report
  {
    if reports != [] {
      IdsAreKept(reports[..|reports| - 1], records);
    }
  }

  /** A session: the tables as this transaction sees them, and as last committed. */
  class Session {
    var reports: seq<ReportRow>
    var records: seq<RecordRow>
    var savedReports: seq<ReportRow>
    var savedRecords: seq<RecordRow>
    var nextKey: nat

    ghost predicate Valid() reads this {
      && (forall r :: r in reports ==> r.key < nextKey)
      && (forall r :: r in records ==> r.reportKey < nextKey)
      && (forall r :: r in savedReports ==> r.key < nextKey)
      && (forall r :: r in savedRecords ==> r.reportKey < nextKey)
    }

    ghost predicate Clean() reads this {
      Valid() && reports == savedReports && records == savedRecords
    }

    ghost function Entries(): seq<Entry> reads this {
      Joined(reports, records)
    }

    constructor ()
      ensures Clean() && Entries() == []
    {
      reports, records, savedReports, savedRecords, nextKey := [], [], [], [], 0;
    }

    /** Adding and flushing a report row: refused, as an integrity error, when its report id is already there. */
    method FlushReport(report: Report) returns (key: Option<nat>)
      requires Clean()
      modifies this
      ensures Valid() && savedReports == old(savedReports) && savedRecords == old(savedRecords) &&
              records == old(records)
      ensures key == None <==> HasId(old(Entries()), report.id)
      ensures key == None ==> reports == old(reports)
      ensures key.Some? ==> reports == old(reports) + [ReportRow(key.value, report)]
                            && old(nextKey) == key.value && RowsOf(records, key.value) == []
    {
      ghost var entries := Entries();
      IdsAreKept(reports, records);
      HasIdIsMembership(entries, report.id);
      var i := 0;
      while i < |reports|
        invariant 0 <= i <= |reports|
        invariant forall j :: 0 <= j < i ==> entries[j].report.id != report.id
      {
        if reports[i].report.id == report.id {
          assert entries[i].report.id == report.id;
          return None;
        }
        i := i + 1;
      }
      NoRows(records, nextKey);
      reports := reports + [ReportRow(nextKey, report)];
      key := Some(nextKey);
      nextKey := nextKey + 1;
    }

    method AddRecord(key: nat, record: Record)
      requires Valid() && key < nextKey
      modifies this`records
      ensures Valid() && records == old(records) + [RecordRow(key, record)]
    {
      records := records + [RecordRow(key, record)];
    }

    method Commit()
      requires Valid()
      modifies this`savedReports, this`savedRecords
      ensures Clean()
    {
      savedReports, savedRecords := reports, records;
    }

    method Rollback()
      requires Valid()
      modifies this`reports, this`records
      ensures Clean() && reports == savedReports && records == savedRecords
    {
      reports, records := savedReports, savedRecords;
    }
  }

  /** One report in one transaction: stored with its records, or already there and nothing changed. */
  method StoreReport(db: Session, report: Report, records: seq<Record>) returns (isNew: bool)
    requires db.Clean()
    modifies db
    ensures db.Clean()
    ensures isNew == !HasId(old(db.Entries()), report.id)
    ensures db.Entries() == if isNew then old(db.Entries()) + [Entry(report, records)] else old(db.Entries())
  {
    ghost var before, rows := db.reports, db.records;
    var key := db.FlushReport(report);
    if key == None {
      db.Rollback();
      return false;
    }
    assert db.reports[..|before|] == before;
    var i := 0;
    while i < |records|
      invariant 0 <= i <= |records| && db.Valid() && key.value < db.nextKey
      invariant db.reports == before + [ReportRow(key.value, report)]
      invariant RowsOf(db.records, key.value) == records[..i]
      invariant Joined(before, db.records) == Joined(before, rows)
    {
      ghost var soFar := db.records;
      RowOfAnother(before, soFar, RecordRow(key.value, records[i]));
      db.AddRecord(key.value, records[i]);
      assert db.records[..|soFar|] == soFar;
      i := i + 1;
    }
    assert db.reports[..|before|] == before && records[..i] == records;
    db.Commit();
    isNew := true;
  }

  /** The running service: its session and its Prometheus counters. */
  class Processor {
    const db: Session
    var messagesTotal: map<Label, int>
    var reportsProcessed: nat
    var reportsFailed: nat

    ghost predicate Valid() reads this, db {
      db.Clean()
    }

    ghost function View(): State reads this, db {
      State(db.Entries(), messagesTotal, reportsProcessed, reportsFailed)
    }

    constructor ()
      ensures Valid() && fresh(db) && View() == State([], map[], 0, 0)
    {
      db := new Session();
      messagesTotal, reportsProcessed, reportsFailed := map[], 0, 0;
    }

    /** Counts record by record; raises at the first negative count, keeping what it counted. */
    method UpdateMetrics(domain: string, records: seq<Record>) returns (raised: bool)
      modifies this`messagesTotal
      ensures messagesTotal == Counted(old(messagesTotal), domain, records)
      ensures raised == AnyNegative(records)
    {
      var i := 0;
      assert records[0..] == records;
      while i < |records|
        invariant 0 <= i <= |records|
        invariant Counted(messagesTotal, domain, records[i..]) == Counted(old(messagesTotal), domain, records)
        invariant AnyNegative(records[i..]) == AnyNegative(records)
      {
        assert records[i..][1..] == records[i + 1..];
        if records[i].count < 0 {
          return true;
        }
        var l := LabelOf(domain, records[i]);
        messagesTotal := messagesTotal[l := At(messagesTotal, l) + records[i].count];
        i := i + 1;
      }
      raised := false;
    }

    /** The documents of one message; stops where parsing or counting raises. */
    method ProcessMessage(m: Message) returns (raised: bool)
      requires Valid()
      modifies this, db
      ensures Valid()
      ensures m.Unreadable? ==> raised && View() == old(View())
      ensures m.Readable? ==> (View(), raised) == Process(old(View()), m.attachments)
    {
      if m.Unreadable? {
        return true;
      }
      var xs := m.attachments;
      assert xs[0..] == xs;
      var i := 0;
      while i < |xs|
        invariant 0 <= i <= |xs| && Valid()
        invariant Process(View(), xs[i..]) == Process(old(View()), xs)
      {
        assert xs[i..][1..] == xs[i + 1..];
        if xs[i].Malformed? {
          return true;
        }
        var stored := StoreReport(db, xs[i].report, xs[i].records);
        if stored {
          var failed := UpdateMetrics(xs[i].report.domain, xs[i].records);
          if failed {
            return true;
          }
          reportsProcessed := reportsProcessed + 1;
        }
        i := i + 1;
      }
      raised := false;
    }

    /** One pass over the unread messages: a message that raises is counted as failed and the pass goes on. */
    method FetchAndProcess(messages: seq<Message>)
      requires Valid()
      modifies this, db
      ensures Valid() && View() == DeliverAll(old(View()), messages)
    {
      var i := 0;
      assert messages[0..] == messages;
      while i < |messages|
        invariant 0 <= i <= |messages| && Valid()
        invariant DeliverAll(View(), messages[i..]) == DeliverAll(old(View()), messages)
      {
        assert messages[i..][1..] == messages[i + 1..];
        ghost var before := View();
        var raised := ProcessMessage(messages[i]);
        if raised {
          reportsFailed := reportsFailed + 1;
        }
        assert View() == Deliver(before, messages[i]);
        i := i + 1;
      }
    }
  }
}
