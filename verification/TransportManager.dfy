/** The transport manager over its table; each method is proved to take the step Transports describes. */
module TransportManager {
  import opened Text
  import opened Transports

  class Manager {
    const ctx: Context
    var rows: seq<Row>
    var nextId: nat
    var saved: Table

    ghost function Now(): Table reads this {
      Table(rows, nextId)
    }

    ghost predicate Clean() reads this {
      Now() == saved
    }

    constructor (ctx: Context)
      ensures Clean() && this.ctx == ctx && saved == Table([], 0)
    {
      this.ctx, rows, nextId, saved := ctx, [], 0, Table([], 0);
    }

    /** The first row in the way decides the error. */
    method CheckConflicts(destination: string, nexthop: string, username: string, exclude: Option<nat>)
           returns (error: Option<Error>)
      ensures error == Conflict(rows, destination, nexthop, username, exclude)
    {
      var clean := StripBrackets(nexthop);
      assert rows[0..] == rows;
      for i := 0 to |rows|
        invariant Conflict(rows[i..], destination, nexthop, username, exclude) ==
                  Conflict(rows, destination, nexthop, username, exclude)
      {
        assert rows[i..][1..] == rows[i + 1..];
        var existing := rows[i];
        if exclude.Some? && existing.id == exclude.value {
          continue;
        }
        if existing.destination == destination {
          return Some(AlreadyExists);
        }
        var same := existing.nexthop == nexthop || StripBrackets(existing.nexthop) == clean;
        if same && existing.username != username {
          return Some(CredentialsMismatch);
        }
      }
      error := None;
    }

    /** The bulk update: every row with exactly this nexthop takes the credentials. */
    method SyncCredentials(nexthop: string, username: string, password: string)
      modifies this`rows
      ensures rows == Synced(old(rows), nexthop, username, password)
    {
      var i := 0;
      while i < |rows|
        invariant 0 <= i <= |rows| == |old(rows)|
        invariant forall k :: 0 <= k < i ==> rows[k] == Synced(old(rows), nexthop, username, password)[k]
        invariant forall k :: i <= k < |rows| ==> rows[k] == old(rows)[k]
      {
        if rows[i].nexthop == nexthop {
          rows := rows[i := rows[i].(username := username, password := password)];
        }
        i := i + 1;
      }
    }

    method Create(c: TransportCreate) returns (error: Option<Error>)
      modifies this`rows, this`nextId
      ensures error == CreateError(ctx, old(Now()), c)
      ensures error == None ==> Now() == Created(ctx, old(Now()), c)
    {
      var nexthop := Normalize(ctx, c.nexthop);
      if nexthop == "" {
        return Some(NexthopEmpty);
      }
      var destination := Strip(c.destination);
      var invalid := DestinationError(ctx, destination, c.isMx);
      if invalid.Some? {
        return invalid;
      }
      error := CheckConflicts(destination, nexthop, c.username, None);
      if error.Some? {
        return;
      }
      rows := rows + [Row(nextId, destination, nexthop, c.username, c.password, c.isMx, c.active)];
      nextId := nextId + 1;
      SyncCredentials(nexthop, c.username, c.password);
    }

    /** The row's fields after the update, assigned one by one. */
    method Assign(row: Row, u: TransportUpdate) returns (model: Row)
      ensures model == Edited(ctx, row, u)
    {
      var destination := if u.destination.Some? then Strip(u.destination.value) else row.destination;
      var nexthop := if u.nexthop.Some? then Normalize(ctx, u.nexthop.value) else row.nexthop;
      model := row.(destination := destination, nexthop := nexthop,
                    isMx := Or(u.isMx, row.isMx), username := Or(u.username, row.username));
      if u.password.Some? {
        model := model.(password := u.password.value);
      }
      if u.active.Some? {
        model := model.(active := u.active.value);
      }
      if model.username == "" {
        model := model.(password := "");
      }
    }

    method Update(id: nat, u: TransportUpdate) returns (error: Option<Error>)
      modifies this`rows
      ensures error == UpdateError(ctx, old(Now()), id, u)
      ensures error == None ==> FindId(old(rows), id).Some? && Now() == Updated(ctx, old(Now()), id, u)
    {
      var at := FindId(rows, id);
      if at == None {
        return Some(NotFound);
      }
      FindIdFinds(rows, id);
      var edited := Assign(rows[at.value], u);
      if edited.nexthop == "" {
        return Some(NexthopEmpty);
      }
      var invalid := DestinationError(ctx, edited.destination, edited.isMx);
      if invalid.Some? {
        return invalid;
      }
      error := CheckConflicts(edited.destination, edited.nexthop, edited.username, Some(id));
      if error.Some? {
        return;
      }
      if ctx.autoflush {
        rows := rows[at.value := edited];
      }
      SyncCredentials(edited.nexthop, edited.username, edited.password);
      // The commit writes the pending columns; username and password are as the statement left them.
      var stored := rows[at.value];
      rows := rows[at.value := edited.(username := stored.username, password := stored.password)];
    }

    method Delete(id: nat) returns (error: Option<Error>)
      modifies this`rows
      ensures error == if FindId(old(rows), id) == None then Some(NotFound) else None
      ensures rows == WithoutId(old(rows), id)
    {
      var before := rows;
      rows := WithoutId(rows, id);
      FindIdFinds(before, id);
      RowCount(before, id);
      if |before| == |rows| {
        return Some(NotFound);
      }
      error := None;
    }

    /** One request: committed when it succeeds, rolled back when it raises. */
    method Transact(r: Request) returns (error: Option<Error>)
      requires Clean()
      modifies this
      ensures Clean() && saved == Step(ctx, old(saved), r) && error == ErrorOf(ctx, old(saved), r)
    {
      match r {
        case Create(c) => error := Create(c);
        case Update(id, u) => error := Update(id, u);
        case Delete(id) => error := Delete(id);
      }
      if error == None {
        saved := Table(rows, nextId);
      } else {
        rows, nextId := saved.rows, saved.nextId;
      }
    }
  }

  /** The delete statement's row count is zero exactly when no row has the id. */
  lemma {:induction false} RowCount(rows: seq<Row>, id: nat)
    ensures |WithoutId(rows, id)| <= |rows|
    ensures |WithoutId(rows, id)| == |rows| <==> forall i :: 0 <= i < |rows| ==> rows[i].id != id
  {
    if rows != [] {
      RowCount(rows[1..], id);
      assert forall i :: 0 < i < |rows| ==> rows[i] == rows[1..][i - 1];
      assert forall i :: 0 <= i < |rows[1..]| ==> rows[1..][i] == rows[i + 1];
    }
  }
}
