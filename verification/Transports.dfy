/** The transport table: credentials kept consistent per nexthop across create, update and delete. */
module Transports {
  import opened Text

  datatype Row = Row(
    id: nat, destination: string, nexthop: string, username: string, password: string, isMx: bool, active: bool)

  datatype Error = AlreadyExists | NotFound | NexthopEmpty | DestinationEmpty | DestinationInvalid | CredentialsMismatch

  /** What is outside the manager: parsers of IP addresses, regular expressions, e-mail addresses and IDNA names, and
      whether the session flushes pending columns before a statement (`autoflush`). */
  datatype Context = Context(
    isIp: string -> bool,
    compiles: string -> bool,
    isEmail: string -> bool,
    idna: string -> Option<string>,
    autoflush: bool)

  // ---- nexthops ----

  /** `s.strip()`. */
  function Strip(s: string): string
    decreases |s|
  {
    if s == "" then ""
    else if IsSpace(s[0]) then Strip(s[1..])
    else if IsSpace(s[|s| - 1]) then Strip(s[..|s| - 1])
    else s
  }

  function Normalize(ctx: Context, nexthop: string): string {
    var stripped := Strip(nexthop);
    if ctx.isIp(stripped) then "[" + stripped + "]" else stripped
  }

  /** Length of the prefix without line feeds, the most `.` can match. */
  function LineLength(s: string): (n: nat)
    ensures n <= |s| && '\n' !in s[..n] && (n < |s| ==> s[n] == '\n')
  {
    if s == "" || s[0] == '\n' then 0
    else
      var n := 1 + LineLength(s[1..]);
      assert s[..n] == [s[0]] + s[1..][..n - 1];
      n
  }

  /** Group 1 of `\[(.+)\].*` matched at the start, which is greedy; the whole text when there is no match. */
  function StripBrackets(s: string): string {
    if s == "" || s[0] != '[' then s
    else
      var line := s[..LineLength(s)];
      if ']' !in line || LastIndexOf(line, ']') < 2 then s else s[1..LastIndexOf(line, ']')]
  }

  /** `s` is an opening bracket, the group, a closing bracket and some rest, as the pattern splits it. */
  predicate Splits(s: string, group: string) {
    group != "" && '\n' !in group && "[" + group + "]" <= s
  }

  /** Where a group the pattern can match ends: within the first line, before or at its last closing bracket. */
  lemma GroupEnds(s: string, group: string)
    requires Splits(s, group)
    ensures var k := |group| + 1; k < LineLength(s) && s[0] == '[' && s[k] == ']'
  {
    var k := |group| + 1;
    assert s[..k + 1] == "[" + group + "]";
    assert forall i :: 0 < i < k ==> s[i] == s[..k + 1][i] == group[i - 1];
    assert forall i :: 0 <= i <= k ==> s[i] == s[..k + 1][i] && s[i] != '\n';
  }

  lemma LastIsLater(line: string, c: char, k: nat)
    requires k < |line| && line[k] == c
    ensures k <= LastIndexOf(line, c)
  {
    var last := LastIndexOf(line, c);
    assert forall i :: last < i < |line| ==> line[i] == line[last + 1..][i - last - 1] && line[i] != c;
  }

  lemma LineSplits(s: string, last: nat)
    requires s != "" && s[0] == '[' && 2 <= last < LineLength(s) && s[last] == ']'
    ensures Splits(s, s[1..last])
  {
    var line := s[..LineLength(s)];
    assert forall i :: 1 <= i < last ==> s[i] == line[i];
    assert "[" + s[1..last] + "]" == s[..last + 1];
  }

  /** The result is the longest group the pattern can match. */
  lemma BracketsAreGreedy(s: string, group: string)
    requires Splits(s, group)
    ensures Splits(s, StripBrackets(s)) && |group| <= |StripBrackets(s)|
  {
    GroupEnds(s, group);
    var line := s[..LineLength(s)];
    LastIsLater(line, ']', |group| + 1);
    LineSplits(s, LastIndexOf(line, ']'));
  }

  lemma UnbracketedIsKept(s: string)
    requires forall group :: !Splits(s, group)
    ensures StripBrackets(s) == s
  {
    if s != "" && s[0] == '[' {
      var line := s[..LineLength(s)];
      if ']' in line && LastIndexOf(line, ']') >= 2 {
        LineSplits(s, LastIndexOf(line, ']'));
      }
    }
  }

  lemma {:induction false} StripTrims(s: string)
    ensures Strip(s) == "" || (!IsSpace(Strip(s)[0]) && !IsSpace(Strip(s)[|Strip(s)| - 1]))
    decreases |s|
  {
    if s == "" {
    } else if IsSpace(s[0]) {
      StripTrims(s[1..]);
    } else if IsSpace(s[|s| - 1]) {
      StripTrims(s[..|s| - 1]);
    }
  }

  /** An address written bare is stored in brackets, and stripping the brackets gives the address back. */
  lemma NormalizedIpStripsBack(ctx: Context, nexthop: string)
    requires ctx.isIp(Strip(nexthop)) && Strip(nexthop) != "" && '\n' !in Strip(nexthop)
    ensures StripBrackets(Normalize(ctx, nexthop)) == Strip(nexthop)
  {
    var ip := Strip(nexthop);
    assert Splits("[" + ip + "]", ip);
    BracketsAreGreedy("[" + ip + "]", ip);
    var g := StripBrackets("[" + ip + "]");
    assert ("[" + g + "]")[..|g| + 2] == ("[" + ip + "]")[..|g| + 2];
    assert |g| == |ip|;
    assert forall i :: 0 <= i < |g| ==> g[i] == ("[" + g + "]")[i + 1] == ("[" + ip + "]")[i + 1];
  }

  // ---- destinations ----

  predicate IsValidDomain(ctx: Context, value: string) {
    value != "" && ctx.idna(value).Some? && |Split(ctx.idna(value).value, '.')| >= 2
  }

  function DestinationError(ctx: Context, destination: string, isMx: bool): Option<Error> {
    if destination == "" then Some(DestinationEmpty)
    else if isMx then if ctx.compiles(destination) then None else Some(DestinationInvalid)
    else if destination == "*" || ctx.isEmail(destination) then None
    else if IsValidDomain(ctx, if destination[0] == '.' then destination[1..] else destination) then None
    else Some(DestinationInvalid)
  }

  // ---- conflicts and synchronisation ----

  /** A row that stands in the way of this destination or of this username on this nexthop. */
  predicate Clashes(row: Row, destination: string, nexthop: string, username: string) {
    || row.destination == destination
    || ((row.nexthop == nexthop || StripBrackets(row.nexthop) == StripBrackets(nexthop)) && row.username != username)
  }

  predicate Excluded(row: Row, exclude: Option<nat>) {
    exclude.Some? && row.id == exclude.value
  }

  /** The first clashing row, but for the excluded one, decides the error. */
  function Conflict(rows: seq<Row>, destination: string, nexthop: string, username: string,
           exclude: Option<nat>): Option<Error> {
    if rows == [] then None
    else if Excluded(rows[0], exclude) || !Clashes(rows[0], destination, nexthop, username) then
      Conflict(rows[1..], destination, nexthop, username, exclude)
    else Some(if rows[0].destination == destination then AlreadyExists else CredentialsMismatch)
  }

  /** There is no conflict exactly when no other row has the destination or, on the same nexthop up to brackets,
      another username. */
  lemma {:induction false} NoConflictIff(rows: seq<Row>, destination: string, nexthop: string, username: string,
        exclude: Option<nat>)
    ensures Conflict(rows, destination, nexthop, username, exclude) == None <==>
            forall row :: row in rows && !Excluded(row, exclude) ==>
              && row.destination != destination
              && (StripBrackets(row.nexthop) == StripBrackets(nexthop) ==> row.username == username)
  {
    if rows != [] {
      NoConflictIff(rows[1..], destination, nexthop, username, exclude);
      assert forall row :: row in rows <==> row == rows[0] || row in rows[1..];
    }
  }

  /** Every row with exactly this nexthop takes the credentials. */
  function Synced(rows: seq<Row>, nexthop: string, username: string, password: string): seq<Row> {
    seq(|rows|, i requires 0 <= i < |rows| =>
      if rows[i].nexthop == nexthop then rows[i].(username := username, password := password) else rows[i])
  }

  function FindId(rows: seq<Row>, id: nat): Option<nat> {
    if rows == [] then None
    else if rows[0].id == id then Some(0)
    else
      var rest := FindId(rows[1..], id);
      if rest == None then None else Some(rest.value + 1)
  }

  lemma {:induction false} FindIdFinds(rows: seq<Row>, id: nat)
    ensures var at := FindId(rows, id);
            if at.Some? then at.value < |rows| && rows[at.value].id == id
            else forall i :: 0 <= i < |rows| ==> rows[i].id != id
  {
    if rows != [] && rows[0].id != id {
      FindIdFinds(rows[1..], id);
      assert FindId(rows, id) == None ==> forall i :: 0 < i < |rows| ==> rows[i] == rows[1..][i - 1];
    }
  }

  // ---- operations ----

  datatype TransportCreate = TransportCreate(
    destination: string, nexthop: string, username: string, password: string, isMx: bool, active: bool)

  datatype TransportUpdate = TransportUpdate(
    destination: Option<string>, nexthop: Option<string>, username: Option<string>, password: Option<string>,
    isMx: Option<bool>, active: Option<bool>)

  datatype Table = Table(rows: seq<Row>, nextId: nat)

  function CreateError(ctx: Context, t: Table, c: TransportCreate): Option<Error> {
    var nexthop, destination := Normalize(ctx, c.nexthop), Strip(c.destination);
    if nexthop == "" then Some(NexthopEmpty)
    else if DestinationError(ctx, destination, c.isMx).Some? then DestinationError(ctx, destination, c.isMx)
    else Conflict(t.rows, destination, nexthop, c.username, None)
  }

  function NewRow(ctx: Context, id: nat, c: TransportCreate): Row {
    Row(id, Strip(c.destination), Normalize(ctx, c.nexthop), c.username, c.password, c.isMx, c.active)
  }

  function Created(ctx: Context, t: Table, c: TransportCreate): Table {
    var row := NewRow(ctx, t.nextId, c);
    Table(Synced(t.rows + [row], row.nexthop, row.username, row.password), t.nextId + 1)
  }

  function Or<T>(o: Option<T>, otherwise: T): T {
    if o.Some? then o.value else otherwise
  }

  /** The row as an update leaves it; an empty username clears the password. */
  function Edited(ctx: Context, row: Row, u: TransportUpdate): Row {
    var username := Or(u.username, row.username);
    Row(row.id,
        if u.destination.Some? then Strip(u.destination.value) else row.destination,
        if u.nexthop.Some? then Normalize(ctx, u.nexthop.value) else row.nexthop,
        username, if username == "" then "" else Or(u.password, row.password),
        Or(u.isMx, row.isMx), Or(u.active, row.active))
  }

  function UpdateError(ctx: Context, t: Table, id: nat, u: TransportUpdate): Option<Error> {
    var at := FindId(t.rows, id);
    if at == None then Some(NotFound)
    else
      FindIdFinds(t.rows, id);
      var row := Edited(ctx, t.rows[at.value], u);
      if row.nexthop == "" then Some(NexthopEmpty)
      else if DestinationError(ctx, row.destination, row.isMx).Some? then
              DestinationError(ctx, row.destination, row.isMx)
      else Conflict(t.rows, row.destination, row.nexthop, row.username, Some(id))
  }

  /** Where the row stands and what the update makes of it. */
  function EditedAt(ctx: Context, t: Table, id: nat, u: TransportUpdate): (r: (nat, Row))
    requires FindId(t.rows, id).Some?
    ensures r.0 < |t.rows| && r.1 == Edited(ctx, t.rows[r.0], u)
  {
    FindIdFinds(t.rows, id);
    var i := FindId(t.rows, id).value;
    (i, Edited(ctx, t.rows[i], u))
  }

  /** The table after an update. The bulk update runs on the stored rows, so without autoflush it finds the edited row
      under its old nexthop only. The edited object itself it matches in memory, and replaces its pending username and
      password by the stored ones; the commit then writes the other columns. */
  function Updated(ctx: Context, t: Table, id: nat, u: TransportUpdate): Table
    requires FindId(t.rows, id).Some?
  {
    var (i, edited) := EditedAt(ctx, t, id, u);
    var seen := if ctx.autoflush then t.rows[i := edited] else t.rows;
    var synced := Synced(seen, edited.nexthop, edited.username, edited.password);
    t.(rows := synced[i := edited.(username := synced[i].username, password := synced[i].password)])
  }

  /** The bulk update reaches the edited row. */
  predicate Reached(ctx: Context, stored: Row, edited: Row) {
    ctx.autoflush || stored.nexthop == edited.nexthop
  }

  /** The edited row as it is finally stored. */
  function Landed(ctx: Context, stored: Row, edited: Row): Row {
    if Reached(ctx, stored, edited) then edited else edited.(username := stored.username, password := stored.password)
  }

  /** An update writes the credentials given to all other rows of the new nexthop, and the edited row as it lands. */
  lemma UpdatedRows(ctx: Context, t: Table, id: nat, u: TransportUpdate)
    requires FindId(t.rows, id).Some?
    ensures var (i, edited) := EditedAt(ctx, t, id, u);
            Updated(ctx, t, id, u).rows ==
            Synced(t.rows, edited.nexthop, edited.username, edited.password)[i := Landed(ctx, t.rows[i], edited)]
  {
  }

  function WithoutId(rows: seq<Row>, id: nat): seq<Row> {
    if rows == [] then [] else (if rows[0].id == id then [] else [rows[0]]) + WithoutId(rows[1..], id)
  }

  datatype Request = Create(create: TransportCreate) | Update(id: nat, update: TransportUpdate) | Delete(id: nat)

  function ErrorOf(ctx: Context, t: Table, r: Request): Option<Error> {
    match r
    case Create(c) => CreateError(ctx, t, c)
    case Update(id, u) => UpdateError(ctx, t, id, u)
    case Delete(id) => if FindId(t.rows, id) == None then Some(NotFound) else None
  }

  function Step(ctx: Context, t: Table, r: Request): Table {
    if ErrorOf(ctx, t, r).Some? then t
    else
      match r
      case Create(c) => Created(ctx, t, c)
      case Update(id, u) => Updated(ctx, t, id, u)
      case Delete(id) => t.(rows := WithoutId(t.rows, id))
  }

  function Run(ctx: Context, t: Table, rs: seq<Request>): Table
    decreases |rs|
  {
    if rs == [] then t else Run(ctx, Step(ctx, t, rs[0]), rs[1..])
  }

  // ---- what every run keeps ----

  /** Two rows that may stand in one table. */
  predicate Compatible(a: Row, b: Row) {
    && a.id != b.id && a.destination != b.destination
    && (StripBrackets(a.nexthop) == StripBrackets(b.nexthop) ==> a.username == b.username)
    && (a.nexthop == b.nexthop ==> a.password == b.password)
  }

  ghost predicate AllCompatible(rows: seq<Row>) {
    forall i, j :: 0 <= i < j < |rows| ==> Compatible(rows[i], rows[j])
  }

  ghost predicate Consistent(t: Table) {
    AllCompatible(t.rows) && forall row :: row in t.rows ==> row.id < t.nextId
  }

  /** Writing one row's credentials to its whole nexthop makes the table compatible, given that the other rows were
      and that the row does not clash with any of them. */
  lemma SyncRestores(rows: seq<Row>, i: nat)
    requires i < |rows|
    requires forall j, k :: 0 <= j < k < |rows| && j != i && k != i ==> Compatible(rows[j], rows[k])
    requires forall j :: 0 <= j < |rows| && j != i ==>
               rows[j].id != rows[i].id && rows[j].destination != rows[i].destination &&
               (StripBrackets(rows[j].nexthop) == StripBrackets(rows[i].nexthop) ==>
                   rows[j].username == rows[i].username)
    ensures AllCompatible(Synced(rows, rows[i].nexthop, rows[i].username, rows[i].password))
  {
    var row := rows[i];
    var after := Synced(rows, row.nexthop, row.username, row.password);
    forall j, k | 0 <= j < k < |rows| ensures Compatible(after[j], after[k]) {
      if j != i && k != i {
        assert Compatible(rows[j], rows[k]);
      }
    }
  }

  lemma AppendedAreCompatible(rows: seq<Row>, row: Row)
    requires AllCompatible(rows)
    ensures forall j, k :: 0 <= j < k < |rows| ==> Compatible((rows + [row])[j], (rows + [row])[k])
  {
    assert forall j :: 0 <= j < |rows| ==> (rows + [row])[j] == rows[j];
  }

  lemma CreateKeeps(ctx: Context, t: Table, c: TransportCreate)
    requires Consistent(t) && CreateError(ctx, t, c) == None
    ensures Consistent(Created(ctx, t, c))
  {
    var row := NewRow(ctx, t.nextId, c);
    var rows := t.rows + [row];
    NoConflictIff(t.rows, row.destination, row.nexthop, row.username, None);
    assert forall j :: 0 <= j < |t.rows| ==> rows[j] in t.rows;
    AppendedAreCompatible(t.rows, row);
    SyncRestores(rows, |t.rows|);
  }

  /** What a caller can check before an update: the row is reached, or, where it moves to, nobody has other credentials
      than the ones it is stored with. */
  ghost predicate Lands(ctx: Context, t: Table, id: nat, u: TransportUpdate)
    requires FindId(t.rows, id).Some?
  {
    var (i, edited) := EditedAt(ctx, t, id, u);
    var stored := t.rows[i];
    || Reached(ctx, stored, edited)
    || forall j :: 0 <= j < |t.rows| && j != i ==> FitsMoved(t.rows[j], stored, edited)
  }

  predicate FitsMoved(other: Row, stored: Row, edited: Row) {
    && (StripBrackets(other.nexthop) == StripBrackets(edited.nexthop) ==> stored.username == edited.username)
    && (other.nexthop == edited.nexthop ==> stored.password == edited.password)
  }

  /** An accepted update does not clash with any other row. */
  lemma AcceptedIsClear(ctx: Context, t: Table, id: nat, u: TransportUpdate, j: nat)
    requires Consistent(t) && UpdateError(ctx, t, id, u) == None
    requires j < |t.rows| && j != EditedAt(ctx, t, id, u).0
    ensures var edited := EditedAt(ctx, t, id, u).1;
            && t.rows[j].id != edited.id && t.rows[j].destination != edited.destination
            && (StripBrackets(t.rows[j].nexthop) == StripBrackets(edited.nexthop) ==>
               t.rows[j].username == edited.username)
  {
    FindIdFinds(t.rows, id);
    var (i, edited) := EditedAt(ctx, t, id, u);
    NoConflictIff(t.rows, edited.destination, edited.nexthop, edited.username, Some(id));
    assert Compatible(t.rows[if i < j then i else j], t.rows[if i < j then j else i]);
    assert t.rows[j] in t.rows && !Excluded(t.rows[j], Some(id));
  }

  /** A pair of rows, whichever comes first. */
  predicate CompatiblePair(rows: seq<Row>, i: nat, j: nat)
    requires i < |rows| && j < |rows|
  {
    Compatible(rows[i], rows[j]) && Compatible(rows[j], rows[i])
  }

  /** Rows other than the edited one stay compatible with each other. */
  lemma OthersStayCompatible(ctx: Context, t: Table, id: nat, u: TransportUpdate, j: nat, k: nat)
    requires Consistent(t) && UpdateError(ctx, t, id, u) == None
    requires j < k < |t.rows| && j != EditedAt(ctx, t, id, u).0 && k != EditedAt(ctx, t, id, u).0
    ensures Compatible(Updated(ctx, t, id, u).rows[j], Updated(ctx, t, id, u).rows[k])
  {
    UpdatedRows(ctx, t, id, u);
    AcceptedIsClear(ctx, t, id, u, j);
    AcceptedIsClear(ctx, t, id, u, k);
    assert Compatible(t.rows[j], t.rows[k]);
  }

  lemma LandedCompatibleIff(ctx: Context, other: Row, stored: Row, edited: Row)
    requires other.id != edited.id && other.destination != edited.destination
    requires StripBrackets(other.nexthop) == StripBrackets(edited.nexthop) ==> other.username == edited.username
    ensures var landed := Landed(ctx, stored, edited);
            var synced := if other.nexthop != edited.nexthop then other
                          else other.(username := edited.username, password := edited.password);
            Compatible(landed, synced) && Compatible(synced, landed) <==>
                Reached(ctx, stored, edited) || FitsMoved(other, stored, edited)
  {
  }

  /** The edited row is compatible with another one exactly when it is reached or fits it where it moves to. */
  lemma EditedCompatibleIff(ctx: Context, t: Table, id: nat, u: TransportUpdate, j: nat)
    requires Consistent(t) && UpdateError(ctx, t, id, u) == None
    requires j < |t.rows| && j != EditedAt(ctx, t, id, u).0
    ensures var (i, edited) := EditedAt(ctx, t, id, u);
            CompatiblePair(Updated(ctx, t, id, u).rows, i, j) <==>
            Reached(ctx, t.rows[i], edited) || FitsMoved(t.rows[j], t.rows[i], edited)
  {
    UpdatedRows(ctx, t, id, u);
    AcceptedIsClear(ctx, t, id, u, j);
    var (i, edited) := EditedAt(ctx, t, id, u);
    LandedCompatibleIff(ctx, t.rows[j], t.rows[i], edited);
  }

  /** Exactly when an accepted update keeps the table consistent. */
  lemma UpdateKeepsIff(ctx: Context, t: Table, id: nat, u: TransportUpdate)
    requires Consistent(t) && UpdateError(ctx, t, id, u) == None
    ensures Consistent(Updated(ctx, t, id, u)) <==> Lands(ctx, t, id, u)
  {
    var (i, edited) := EditedAt(ctx, t, id, u);
    var after := Updated(ctx, t, id, u).rows;
    UpdatedRows(ctx, t, id, u);
    UpdateKeepsIds(ctx, t, id, u);
    forall j | 0 <= j < |after| && j != i
      ensures CompatiblePair(after, i, j) <==>
              Reached(ctx, t.rows[i], edited) || FitsMoved(t.rows[j], t.rows[i], edited)
    {
      EditedCompatibleIff(ctx, t, id, u, j);
    }
    if Lands(ctx, t, id, u) {
      forall j, k | 0 <= j < k < |after| ensures Compatible(after[j], after[k]) {
        if j != i && k != i {
          OthersStayCompatible(ctx, t, id, u, j, k);
        } else {
          assert CompatiblePair(after, i, if j == i then k else j);
        }
      }
    }
    if AllCompatible(after) {
      forall j | 0 <= j < |after| && j != i ensures CompatiblePair(after, i, j) {
        assert Compatible(after[if i < j then i else j], after[if i < j then j else i]);
      }
    }
  }

  lemma UpdateKeepsIds(ctx: Context, t: Table, id: nat, u: TransportUpdate)
    requires Consistent(t) && FindId(t.rows, id).Some?
    ensures forall row :: row in Updated(ctx, t, id, u).rows ==> row.id < t.nextId
  {
    var after := Updated(ctx, t, id, u).rows;
    SameIds(ctx, t, id, u);
    forall row | row in after ensures row.id < t.nextId {
      var j :| 0 <= j < |after| && after[j] == row;
      assert t.rows[j] in t.rows;
    }
  }

  lemma SameIds(ctx: Context, t: Table, id: nat, u: TransportUpdate)
    requires FindId(t.rows, id).Some?
    ensures |Updated(ctx, t, id, u).rows| == |t.rows|
    ensures forall j :: 0 <= j < |t.rows| ==> Updated(ctx, t, id, u).rows[j].id == t.rows[j].id
  {
    var (i, edited) := EditedAt(ctx, t, id, u);
    UpdatedRows(ctx, t, id, u);
    assert Landed(ctx, t.rows[i], edited).id == t.rows[i].id;
  }

  lemma {:induction false} WithoutIdMembers(rows: seq<Row>, id: nat)
    ensures forall row :: row in WithoutId(rows, id) <==> row in rows && row.id != id
  {
    if rows != [] {
      WithoutIdMembers(rows[1..], id);
      assert forall row :: row in rows <==> row == rows[0] || row in rows[1..];
    }
  }

  lemma {:induction false} DeleteKeeps(rows: seq<Row>, id: nat)
    requires AllCompatible(rows)
    ensures AllCompatible(WithoutId(rows, id))
  {
    if rows != [] {
      var rest := WithoutId(rows[1..], id);
      DeleteKeeps(rows[1..], id);
      WithoutIdMembers(rows[1..], id);
      forall row | row in rest ensures Compatible(rows[0], row) {
        var k :| 0 <= k < |rows[1..]| && rows[1..][k] == row;
        assert rows[k + 1] == row;
      }
      assert AllCompatible([rows[0]] + rest);
      assert [] + rest == rest;
    }
  }

  ghost predicate StepLands(ctx: Context, t: Table, r: Request) {
    r.Update? && UpdateError(ctx, t, r.id, r.update) == None ==> Lands(ctx, t, r.id, r.update)
  }

  /** One request, of any kind, keeps the table consistent exactly when it is no update that fails to land. */
  lemma StepKeepsIff(ctx: Context, t: Table, r: Request)
    requires Consistent(t)
    ensures Consistent(Step(ctx, t, r)) <==> StepLands(ctx, t, r)
  {
    if ErrorOf(ctx, t, r) == None {
      match r
      case Create(c) => CreateKeeps(ctx, t, c);
      case Update(id, u) => UpdateKeepsIff(ctx, t, id, u);
      case Delete(id) =>
        DeleteKeeps(t.rows, id);
        WithoutIdMembers(t.rows, id);
    }
  }

  ghost predicate ConsistentThroughout(ctx: Context, t: Table, rs: seq<Request>)
    decreases |rs|
  {
    Consistent(t) && (rs == [] || ConsistentThroughout(ctx, Step(ctx, t, rs[0]), rs[1..]))
  }

  ghost predicate AllLand(ctx: Context, t: Table, rs: seq<Request>)
    decreases |rs|
  {
    rs == [] || (StepLands(ctx, t, rs[0]) && AllLand(ctx, Step(ctx, t, rs[0]), rs[1..]))
  }

  /** Destinations are distinct, rows with one bracket-stripped nexthop share a username, and rows with one nexthop
      share username and password, at every point of a run, exactly when each of its accepted updates lands. */
  lemma {:induction false} RunIsConsistentIff(ctx: Context, t: Table, rs: seq<Request>)
    requires Consistent(t)
    ensures ConsistentThroughout(ctx, t, rs) <==> AllLand(ctx, t, rs)
    decreases |rs|
  {
    if rs != [] {
      StepKeepsIff(ctx, t, rs[0]);
      if StepLands(ctx, t, rs[0]) {
        RunIsConsistentIff(ctx, Step(ctx, t, rs[0]), rs[1..]);
      }
    }
  }

  /** In a session that flushes before the bulk update, every run from a consistent table stays consistent. */
  lemma {:induction false} FlushedRunsAreConsistent(ctx: Context, t: Table, rs: seq<Request>)
    requires Consistent(t) && ctx.autoflush
    ensures ConsistentThroughout(ctx, t, rs) && Consistent(Run(ctx, t, rs))
    decreases |rs|
  {
    if rs != [] {
      StepKeepsIff(ctx, t, rs[0]);
      FlushedRunsAreConsistent(ctx, Step(ctx, t, rs[0]), rs[1..]);
    }
  }

  /** In the sessions the back end uses, a run of accepted requests can end inconsistent: a row moved to another nexthop
      with that nexthop's credentials keeps its old ones, and the credential lookup then depends on the row picked. */
  lemma MovedRowCounterexample(ctx: Context)
    requires !ctx.autoflush && !ctx.isIp("a") && !ctx.isIp("b") && ctx.compiles("1") && ctx.compiles("2")
    ensures var rs := [Create(TransportCreate("1", "a", "u", "p", true, true)),
            Create(TransportCreate("2", "b", "v", "q", true, true)),
                       Update(0, TransportUpdate(None, Some("b"), Some("v"), Some("q"), None, None))];
            var after := Run(ctx, Table([], 0), rs).rows;
            && after == [Row(0, "1", "b", "u", "p", true, true), Row(1, "2", "b", "v", "q", true, true)]
            && Selected(after[0], "b") && Selected(after[1], "b") && AuthData(after[0]) != AuthData(after[1])
            && !Consistent(Run(ctx, Table([], 0), rs))
  {
    var create1, create2 := TransportCreate("1", "a", "u", "p", true, true),
        TransportCreate("2", "b", "v", "q", true, true);
    var move := TransportUpdate(None, Some("b"), Some("v"), Some("q"), None, None);
    var one, two := Row(0, "1", "a", "u", "p", true, true), Row(1, "2", "b", "v", "q", true, true);
    var rs := [Create(create1), Create(create2), Update(0, move)];
    FirstRow(ctx, create1, one);
    SecondRow(ctx, create2, one, two);
    RowMoves(ctx, move, one, two);
    assert rs[1..] == [Create(create2), Update(0, move)] && rs[1..][1..] == [Update(0, move)] &&
           rs[1..][1..][1..] == [];
    var after := [one.(nexthop := "b"), two];
    assert Run(ctx, Table([one, two], 2), [Update(0, move)]) == Table(after, 2);
    assert Run(ctx, Table([one], 1), rs[1..]) == Table(after, 2);
    assert AuthData(after[0])[0] != AuthData(after[1])[0];
    assert !Compatible(after[0], after[1]);
  }

  lemma FirstRow(ctx: Context, c: TransportCreate, row: Row)
    requires c == TransportCreate("1", "a", "u", "p", true, true) && row == Row(0, "1", "a", "u", "p", true, true)
    requires !ctx.isIp("a") && ctx.compiles("1")
    ensures Step(ctx, Table([], 0), Create(c)) == Table([row], 1)
  {
    assert Strip("a") == "a" && Strip("1") == "1";
    assert Created(ctx, Table([], 0), c).rows == [row];
  }

  lemma SecondRow(ctx: Context, c: TransportCreate, one: Row, two: Row)
    requires c == TransportCreate("2", "b", "v", "q", true, true)
    requires one == Row(0, "1", "a", "u", "p", true, true) && two == Row(1, "2", "b", "v", "q", true, true)
    requires !ctx.isIp("b") && ctx.compiles("2")
    ensures Step(ctx, Table([one], 1), Create(c)) == Table([one, two], 2)
  {
    assert Strip("b") == "b" && Strip("2") == "2";
    assert StripBrackets("a") == "a" && StripBrackets("b") == "b";
    assert Conflict([one], "2", "b", "v", None) == None;
    assert Created(ctx, Table([one], 1), c).rows == [one, two];
  }

  lemma RowMoves(ctx: Context, u: TransportUpdate, one: Row, two: Row)
    requires u == TransportUpdate(None, Some("b"), Some("v"), Some("q"), None, None)
    requires one == Row(0, "1", "a", "u", "p", true, true) && two == Row(1, "2", "b", "v", "q", true, true)
    requires !ctx.autoflush && !ctx.isIp("b") && ctx.compiles("1")
    ensures Step(ctx, Table([one, two], 2), Update(0, u)) == Table([one.(nexthop := "b"), two], 2)
  {
    var t := Table([one, two], 2);
    assert Strip("b") == "b";
    assert FindId(t.rows, 0) == Some(0);
    assert Edited(ctx, one, u) == Row(0, "1", "b", "v", "q", true, true);
    assert t.rows[1..] == [two] && Conflict([two], "1", "b", "v", Some(0)) == None;
    assert UpdateError(ctx, t, 0, u) == None;
    UpdatedRows(ctx, t, 0, u);
    assert Updated(ctx, t, 0, u).rows == [one.(nexthop := "b"), two];
  }

  // ---- the credential lookup ----

  /** The rows Postfix's credential query selects for a nexthop, before its LIMIT 1. */
  predicate Selected(row: Row, nexthop: string) {
    row.nexthop == nexthop && row.active && row.username != ""
  }

  function AuthData(row: Row): string {
    row.username + ":" + row.password
  }

  /** Whichever row the limited query returns, Postfix gets the same credentials. */
  lemma LookupIgnoresChoice(t: Table, nexthop: string, a: Row, b: Row)
    requires Consistent(t) && a in t.rows && b in t.rows && Selected(a, nexthop) && Selected(b, nexthop)
    ensures AuthData(a) == AuthData(b)
  {
    var i :| 0 <= i < |t.rows| && t.rows[i] == a;
    var j :| 0 <= j < |t.rows| && t.rows[j] == b;
    if i < j {
      assert Compatible(t.rows[i], t.rows[j]);
    } else if j < i {
      assert Compatible(t.rows[j], t.rows[i]);
    }
  }

  /** After a create, the new credentials are those of every row of its nexthop; all other rows are as they were. */
  lemma CreateSetsNexthop(ctx: Context, t: Table, c: TransportCreate, row: Row)
    requires row in Created(ctx, t, c).rows
    ensures row.nexthop == Normalize(ctx, c.nexthop) ==> row.username == c.username && row.password == c.password
    ensures row.nexthop != Normalize(ctx, c.nexthop) ==> row in t.rows
  {
    var added := NewRow(ctx, t.nextId, c);
    var i :| 0 <= i < |Created(ctx, t, c).rows| && Created(ctx, t, c).rows[i] == row;
    assert i < |t.rows| ==> (t.rows + [added])[i] in t.rows;
  }

  predicate HasCredentials(row: Row, other: Row) {
    row.username == other.username && row.password == other.password
  }

  /** After an update every other row of the new nexthop carries the credentials given, and no password without a
      username; the edited row carries them too exactly when it is reached or was stored with them; rows of other
      nexthops are as they were. */
  lemma UpdateSetsNexthop(ctx: Context, t: Table, id: nat, u: TransportUpdate, j: nat)
    requires FindId(t.rows, id).Some? && j < |t.rows|
    ensures |Updated(ctx, t, id, u).rows| == |t.rows|
    ensures var (i, edited) := EditedAt(ctx, t, id, u);
            var row := Updated(ctx, t, id, u).rows[j];
            && (edited.username == "" ==> edited.password == "")
            && (j != i && row.nexthop != edited.nexthop ==> row == t.rows[j])
            && (j != i && row.nexthop == edited.nexthop ==>
               row.username == edited.username && row.password == edited.password)
            && (j == i ==> (row == edited <==> Reached(ctx, t.rows[i], edited)
                                               || HasCredentials(t.rows[i], edited)))
  {
    UpdatedRows(ctx, t, id, u);
  }

  /** An update that gives no field leaves a consistent table as it is, exactly when the row does not hold a password
      without a username (such a password is cleared). */
  lemma EmptyUpdateKeepsIff(ctx: Context, t: Table, id: nat)
    requires Consistent(t) && FindId(t.rows, id).Some?
    ensures FindId(t.rows, id).value < |t.rows|
    ensures Updated(ctx, t, id, TransportUpdate(None, None, None, None, None, None)) == t <==>
            var row := t.rows[FindId(t.rows, id).value];
            row.username != "" || row.password == ""
  {
    var u := TransportUpdate(None, None, None, None, None, None);
    var (i, edited) := EditedAt(ctx, t, id, u);
    var row := t.rows[i];
    var after := Updated(ctx, t, id, u);
    UpdatedRows(ctx, t, id, u);
    assert after.rows[i].password == edited.password;
    if edited == row {
      forall j | 0 <= j < |t.rows| ensures after.rows[j] == t.rows[j] {
        if j != i && t.rows[j].nexthop == row.nexthop {
          assert Compatible(t.rows[if i < j then i else j], t.rows[if i < j then j else i]);
        }
      }
      assert after.rows == t.rows;
    }
  }

  // ---- what an update writes, and what it accepts ----

  /** The edited row takes each destination, nexthop, kind and flag given, white space trimmed and a bare address in
      brackets, and keeps the others; other rows keep all of these. */
  lemma UpdateWrites(ctx: Context, t: Table, id: nat, u: TransportUpdate, j: nat)
    requires FindId(t.rows, id).Some? && j < |t.rows|
    ensures var (i, _) := EditedAt(ctx, t, id, u);
            var stored, row := t.rows[j], Updated(ctx, t, id, u).rows[j];
            && row.id == stored.id
            && row.destination ==
                 (if j == i && u.destination.Some? then Strip(u.destination.value) else stored.destination)
            && row.nexthop == (if j == i && u.nexthop.Some? then Normalize(ctx, u.nexthop.value) else stored.nexthop)
            && row.isMx == (if j == i && u.isMx.Some? then u.isMx.value else stored.isMx)
            && row.active == (if j == i && u.active.Some? then u.active.value else stored.active)
  {
    UpdatedRows(ctx, t, id, u);
  }

  /** The credentials an update asks for: what is given, else what is stored, and no password without a username. */
  lemma UpdateAsks(ctx: Context, t: Table, id: nat, u: TransportUpdate)
    requires FindId(t.rows, id).Some?
    ensures var (i, edited) := EditedAt(ctx, t, id, u);
            var stored := t.rows[i];
            && stored.id == id
            && edited.username == (if u.username.Some? then u.username.value else stored.username)
            && (edited.username == "" ==> edited.password == "")
            && (edited.username != "" ==>
                  edited.password == if u.password.Some? then u.password.value else stored.password)
  {
    FindIdFinds(t.rows, id);
  }

  predicate AllSpace(s: string) {
    forall i :: 0 <= i < |s| ==> IsSpace(s[i])
  }

  /** Stripping takes white space at the ends and nothing else. */
  lemma {:induction false} StripTakesSpaceOnly(s: string) returns (before: string, after: string)
    ensures AllSpace(before) && AllSpace(after) && s == before + Strip(s) + after
    decreases |s|
  {
    if s == "" {
      before, after := "", "";
    } else if IsSpace(s[0]) {
      before, after := StripTakesSpaceOnly(s[1..]);
      before := [s[0]] + before;
    } else if IsSpace(s[|s| - 1]) {
      before, after := StripTakesSpaceOnly(s[..|s| - 1]);
      after := after + [s[|s| - 1]];
    } else {
      before, after := "", "";
    }
  }

  /** A nexthop is stored stripped, and in brackets exactly when it is a bare address. */
  lemma NormalizeMeans(ctx: Context, nexthop: string)
    ensures ctx.isIp(Strip(nexthop)) ==> Normalize(ctx, nexthop) == "[" + Strip(nexthop) + "]"
    ensures !ctx.isIp(Strip(nexthop)) ==> Normalize(ctx, nexthop) == Strip(nexthop)
  {
  }

  /** A create adds one row with a new id and what was given, and nothing else but the credentials of its nexthop. */
  lemma CreateWrites(ctx: Context, t: Table, c: TransportCreate, j: nat)
    requires j <= |t.rows|
    ensures var after := Created(ctx, t, c);
            && |after.rows| == |t.rows| + 1 && after.nextId == t.nextId + 1
            && (j == |t.rows| ==>
                  after.rows[j] == Row(t.nextId, Strip(c.destination), Normalize(ctx, c.nexthop), c.username,
                                       c.password, c.isMx, c.active))
            && (j < |t.rows| ==>
                  after.rows[j] == if t.rows[j].nexthop == Normalize(ctx, c.nexthop)
                                   then t.rows[j].(username := c.username, password := c.password) else t.rows[j])
  {
    CreatedRows(ctx, t, c);
  }

  /** The error of a conflict is that of the first row in the way: the destination exists, or the nexthop has another
      username. */
  lemma {:induction false} ConflictIsFirst(rows: seq<Row>, destination: string, nexthop: string, username: string,
        exclude: Option<nat>, i: nat)
    requires i < |rows| && !Excluded(rows[i], exclude) && Clashes(rows[i], destination, nexthop, username)
    requires forall k :: 0 <= k < i ==> Excluded(rows[k], exclude) || !Clashes(rows[k], destination, nexthop, username)
    ensures Conflict(rows, destination, nexthop, username, exclude) ==
            Some(if rows[i].destination == destination then AlreadyExists else CredentialsMismatch)
  {
    if i > 0 {
      ConflictIsFirst(rows[1..], destination, nexthop, username, exclude, i - 1);
    }
  }

  /** A create is accepted exactly with a nexthop, an accepted destination, and no conflict with any row. */
  lemma CreateAcceptedIff(ctx: Context, t: Table, c: TransportCreate)
    ensures var destination, nexthop := Strip(c.destination), Normalize(ctx, c.nexthop);
            CreateError(ctx, t, c) == None <==>
            && nexthop != "" && DestinationError(ctx, destination, c.isMx) == None
            && forall row :: row in t.rows ==>
                 && row.destination != destination
                 && (StripBrackets(row.nexthop) == StripBrackets(nexthop) ==> row.username == c.username)
  {
    NoConflictIff(t.rows, Strip(c.destination), Normalize(ctx, c.nexthop), c.username, None);
  }

  /** An update is accepted exactly when its row exists and, as edited, has a nexthop, an accepted destination, and no
      conflict with any other row. */
  lemma UpdateAcceptedIff(ctx: Context, t: Table, id: nat, u: TransportUpdate)
    ensures UpdateError(ctx, t, id, u) == None <==>
            && FindId(t.rows, id).Some?
            && var (_, edited) := EditedAt(ctx, t, id, u);
               && edited.nexthop != "" && DestinationError(ctx, edited.destination, edited.isMx) == None
               && forall row :: row in t.rows && row.id != id ==>
                    && row.destination != edited.destination
                    && (StripBrackets(row.nexthop) == StripBrackets(edited.nexthop) ==> row.username == edited.username)
  {
    if FindId(t.rows, id).Some? {
      var (_, edited) := EditedAt(ctx, t, id, u);
      NoConflictIff(t.rows, edited.destination, edited.nexthop, edited.username, Some(id));
    }
  }

  /** A name that IDNA encodes to two labels or more. */
  ghost predicate HasTwoLabels(ctx: Context, name: string) {
    name != "" && exists a, b :: ctx.idna(name) == Some(a + "." + b)
  }

  lemma ValidDomainIff(ctx: Context, name: string)
    ensures IsValidDomain(ctx, name) <==> HasTwoLabels(ctx, name)
  {
    if name != "" && ctx.idna(name).Some? {
      var ascii := ctx.idna(name).value;
      if '.' in ascii {
        var k := IndexOf(ascii, '.');
        assert ascii == ascii[..k] + "." + ascii[k + 1..];
      }
      if a, b :| ctx.idna(name) == Some(a + "." + b) {
        assert ascii[|a|] == '.';
      }
    }
  }

  /** Which destinations are accepted: patterns that compile for MX-based rows; for the others `*`, an address, or a
      domain of two labels or more, with or without one leading dot. */
  lemma DestinationAcceptedIff(ctx: Context, destination: string, isMx: bool)
    ensures DestinationError(ctx, destination, isMx) == None <==>
            && destination != ""
            && if isMx then ctx.compiles(destination)
               else
                 || destination == "*" || ctx.isEmail(destination)
                 || (destination[0] != '.' && HasTwoLabels(ctx, destination))
                 || (exists name :: destination == "." + name && HasTwoLabels(ctx, name))
    ensures DestinationError(ctx, destination, isMx) == Some(DestinationEmpty) <==> destination == ""
  {
    if destination != "" {
      if destination[0] == '.' {
        assert destination == "." + destination[1..];
        ValidDomainIff(ctx, destination[1..]);
        forall name | destination == "." + name ensures name == destination[1..] {
        }
      } else {
        ValidDomainIff(ctx, destination);
      }
    }
  }

  // ---- spellings of one nexthop ----

  /** Rows with one bracket-stripped nexthop share a password. */
  ghost predicate SpellingsAgree(rows: seq<Row>) {
    forall j, k :: 0 <= j < k < |rows| ==> SamePassword(rows[j], rows[k])
  }

  predicate SamePassword(a: Row, b: Row) {
    StripBrackets(a.nexthop) == StripBrackets(b.nexthop) ==> a.password == b.password
  }

  /** Another spelling of the nexthop. */
  predicate OtherSpelling(row: Row, nexthop: string) {
    row.nexthop != nexthop && StripBrackets(row.nexthop) == StripBrackets(nexthop)
  }

  /** If rows off the nexthop of row `i` agree, all agree exactly when each agrees with row `i`. */
  lemma AgreeThroughOne(rows: seq<Row>, i: nat)
    requires i < |rows|
    requires forall j, k :: 0 <= j < k < |rows| && StripBrackets(rows[j].nexthop) != StripBrackets(rows[i].nexthop) ==>
               SamePassword(rows[j], rows[k])
    ensures SpellingsAgree(rows) <==> forall j :: 0 <= j < |rows| ==> SamePassword(rows[j], rows[i])
  {
    if SpellingsAgree(rows) {
      forall j | 0 <= j < |rows| ensures SamePassword(rows[j], rows[i]) {
        if j != i {
          assert SamePassword(rows[if i < j then i else j], rows[if i < j then j else i]);
        }
      }
    }
  }

  /** A new row's password is that of every other spelling of its nexthop. */
  ghost predicate CreateMatches(ctx: Context, t: Table, c: TransportCreate) {
    forall j :: 0 <= j < |t.rows| && OtherSpelling(t.rows[j], Normalize(ctx, c.nexthop)) ==>
      t.rows[j].password == c.password
  }

  /** A create keeps passwords equal across spellings exactly when every other spelling already has the new password. */
  lemma CreateKeepsSpellingsIff(ctx: Context, t: Table, c: TransportCreate)
    requires SpellingsAgree(t.rows)
    ensures SpellingsAgree(Created(ctx, t, c).rows) <==> CreateMatches(ctx, t, c)
  {
    var n := |t.rows|;
    var after := Created(ctx, t, c).rows;
    CreatedRows(ctx, t, c);
    forall j, k | 0 <= j < k < |after| && StripBrackets(after[j].nexthop) != StripBrackets(after[n].nexthop)
      ensures SamePassword(after[j], after[k])
    {
      if k < n {
        assert SamePassword(t.rows[j], t.rows[k]);
      }
    }
    AgreeThroughOne(after, n);
    forall j | 0 <= j < n
      ensures SamePassword(after[j], after[n]) <==>
              (OtherSpelling(t.rows[j], after[n].nexthop) ==> t.rows[j].password == c.password)
    {
    }
  }

  /** The table after a create, row by row. */
  lemma CreatedRows(ctx: Context, t: Table, c: TransportCreate)
    ensures var after := Created(ctx, t, c).rows;
            && |after| == |t.rows| + 1 && after[|t.rows|] == NewRow(ctx, t.nextId, c)
            && forall j :: 0 <= j < |t.rows| ==>
                 after[j] == if t.rows[j].nexthop == Normalize(ctx, c.nexthop)
                             then t.rows[j].(username := c.username, password := c.password) else t.rows[j]
  {
  }

  /** The password another row ends up with. */
  function PasswordAfter(other: Row, edited: Row): string {
    if other.nexthop == edited.nexthop then edited.password else other.password
  }

  /** Every other row of the new nexthop, in any spelling, ends up with the password the edited row lands with. */
  ghost predicate UpdateMatches(ctx: Context, t: Table, id: nat, u: TransportUpdate)
    requires FindId(t.rows, id).Some?
  {
    var (i, edited) := EditedAt(ctx, t, id, u);
    forall j | 0 <= j < |t.rows| && j != i && StripBrackets(t.rows[j].nexthop) == StripBrackets(edited.nexthop) ::
      PasswordAfter(t.rows[j], edited) == Landed(ctx, t.rows[i], edited).password
  }

  /** An update keeps passwords equal across spellings exactly when every other row of the new nexthop, in any
      spelling, ends up with the password the edited row lands with. */
  lemma UpdateKeepsSpellingsIff(ctx: Context, t: Table, id: nat, u: TransportUpdate)
    requires FindId(t.rows, id).Some? && SpellingsAgree(t.rows)
    ensures SpellingsAgree(Updated(ctx, t, id, u).rows) <==> UpdateMatches(ctx, t, id, u)
  {
    var (i, edited) := EditedAt(ctx, t, id, u);
    var after := Updated(ctx, t, id, u).rows;
    PasswordsAfter(ctx, t, id, u);
    forall j, k | 0 <= j < k < |after| && StripBrackets(after[j].nexthop) != StripBrackets(after[i].nexthop)
      ensures SamePassword(after[j], after[k])
    {
      if k != i {
        assert SamePassword(t.rows[j], t.rows[k]);
      }
    }
    AgreeThroughOne(after, i);
    forall j | 0 <= j < |after| && j != i
      ensures SamePassword(after[j], after[i]) <==>
              (StripBrackets(t.rows[j].nexthop) == StripBrackets(edited.nexthop) ==>
                 PasswordAfter(t.rows[j], edited) == after[i].password)
    {
    }
  }

  lemma PasswordsAfter(ctx: Context, t: Table, id: nat, u: TransportUpdate)
    requires FindId(t.rows, id).Some?
    ensures var (i, edited) := EditedAt(ctx, t, id, u);
            var after := Updated(ctx, t, id, u).rows;
            && |after| == |t.rows| && after[i] == Landed(ctx, t.rows[i], edited)
            && forall j :: 0 <= j < |after| && j != i ==>
                 after[j].nexthop == t.rows[j].nexthop && after[j].password == PasswordAfter(t.rows[j], edited)
  {
    UpdatedRows(ctx, t, id, u);
  }

  /** Where the bulk update reaches the row, the condition is that every other spelling already has its password. */
  lemma ReachedKeepsSpellingsIff(ctx: Context, t: Table, id: nat, u: TransportUpdate)
    requires FindId(t.rows, id).Some? && SpellingsAgree(t.rows)
    requires Reached(ctx, t.rows[EditedAt(ctx, t, id, u).0], EditedAt(ctx, t, id, u).1)
    ensures var (i, edited) := EditedAt(ctx, t, id, u);
            SpellingsAgree(Updated(ctx, t, id, u).rows) <==>
            forall j :: 0 <= j < |t.rows| && j != i && OtherSpelling(t.rows[j], edited.nexthop) ==>
                t.rows[j].password == edited.password
  {
    UpdateKeepsSpellingsIff(ctx, t, id, u);
  }

  lemma {:induction false} DeleteKeepsSpellings(rows: seq<Row>, id: nat)
    requires SpellingsAgree(rows)
    ensures SpellingsAgree(WithoutId(rows, id))
  {
    if rows != [] {
      var rest := WithoutId(rows[1..], id);
      DeleteKeepsSpellings(rows[1..], id);
      WithoutIdMembers(rows[1..], id);
      forall row | row in rest ensures SamePassword(rows[0], row) {
        var k :| 0 <= k < |rows[1..]| && rows[1..][k] == row;
        assert rows[k + 1] == row;
      }
      assert SpellingsAgree([rows[0]] + rest);
      assert [] + rest == rest;
    }
  }

  ghost predicate StepMatches(ctx: Context, t: Table, r: Request) {
    ErrorOf(ctx, t, r) == None ==>
      && (r.Create? ==> CreateMatches(ctx, t, r.create))
      && (r.Update? ==> UpdateMatches(ctx, t, r.id, r.update))
  }

  lemma StepKeepsSpellingsIff(ctx: Context, t: Table, r: Request)
    requires SpellingsAgree(t.rows)
    ensures SpellingsAgree(Step(ctx, t, r).rows) <==> StepMatches(ctx, t, r)
  {
    if ErrorOf(ctx, t, r) == None {
      match r
      case Create(c) => CreateKeepsSpellingsIff(ctx, t, c);
      case Update(id, u) => UpdateKeepsSpellingsIff(ctx, t, id, u);
      case Delete(id) => DeleteKeepsSpellings(t.rows, id);
    }
  }

  ghost predicate SpellingsAgreeThroughout(ctx: Context, t: Table, rs: seq<Request>)
    decreases |rs|
  {
    SpellingsAgree(t.rows) && (rs == [] || SpellingsAgreeThroughout(ctx, Step(ctx, t, rs[0]), rs[1..]))
  }

  ghost predicate AllMatch(ctx: Context, t: Table, rs: seq<Request>)
    decreases |rs|
  {
    rs == [] || (StepMatches(ctx, t, rs[0]) && AllMatch(ctx, Step(ctx, t, rs[0]), rs[1..]))
  }

  /** Rows with one bracket-stripped nexthop share a password at every point of a run, exactly when each accepted create
      and update gives its row the password that the other rows of its nexthop have or take, in any spelling. */
  lemma {:induction false} RunKeepsSpellingsIff(ctx: Context, t: Table, rs: seq<Request>)
    requires SpellingsAgree(t.rows)
    ensures SpellingsAgreeThroughout(ctx, t, rs) <==> AllMatch(ctx, t, rs)
    decreases |rs|
  {
    if rs != [] {
      StepKeepsSpellingsIff(ctx, t, rs[0]);
      if StepMatches(ctx, t, rs[0]) {
        RunKeepsSpellingsIff(ctx, Step(ctx, t, rs[0]), rs[1..]);
      }
    }
  }

  /** Spellings of one nexthop with and without brackets may end up with different passwords: only exact nexthops are
      synchronised. */
  lemma BracketSpellingCounterexample(ctx: Context)
    requires !ctx.isIp("[mx]") && ctx.compiles("b")
    ensures var first := Row(0, "a", "mx", "u", "1", true, true);
            var create := TransportCreate("b", "[mx]", "u", "2", true, true);
            && CreateError(ctx, Table([first], 1), create) == None
            && Created(ctx, Table([first], 1), create).rows == [first, Row(1, "b", "[mx]", "u", "2", true, true)]
            && StripBrackets("mx") == StripBrackets("[mx]")
  {
    var first, second := Row(0, "a", "mx", "u", "1", true, true), Row(1, "b", "[mx]", "u", "2", true, true);
    assert Strip("[mx]") == "[mx]" && Strip("b") == "b";
    assert Conflict([first], "b", "[mx]", "u", None) == None;
    assert Synced([first] + [second], "[mx]", "u", "2") == [first, second];
    BracketsOfMx();
  }

  lemma BracketsOfMx()
    ensures StripBrackets("[mx]") == "mx"
  {
    var s := "[mx]";
    assert Splits(s, "mx");
    BracketsAreGreedy(s, "mx");
    var g := StripBrackets(s);
    assert ("[" + g + "]") <= s;
    assert g[0] == ("[" + g + "]")[1] && g[1] == ("[" + g + "]")[2];
  }
}
