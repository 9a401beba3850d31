/** The key/value store interface as operations on a value, and its memcached representation as JSON texts: the two
    return the same replies. */
module Stores {
  import opened Text

  /** A Python dict of strings, in insertion order. */
  type Dict = seq<(string, string)>

  ghost predicate DistinctFields(d: Dict) {
    forall i, j :: 0 <= i < j < |d| ==> d[i].0 != d[j].0
  }

  predicate Has(d: Dict, f: string) {
    d != [] && (d[0].0 == f || Has(d[1..], f))
  }

  function Lookup(d: Dict, f: string): Option<string> {
    if d == [] then None else if d[0].0 == f then Some(d[0].1) else Lookup(d[1..], f)
  }

  /** `d[f] = v`: in place when the field exists, at the end otherwise. */
  function Put(d: Dict, f: string, v: string): Dict {
    if d == [] then [(f, v)] else if d[0].0 == f then [(f, v)] + d[1..] else [d[0]] + Put(d[1..], f, v)
  }

  /** `del d[f]`. */
  function Drop(d: Dict, f: string): Dict {
    if d == [] then [] else if d[0].0 == f then d[1..] else [d[0]] + Drop(d[1..], f)
  }

  function DropAll(d: Dict, fields: seq<string>): Dict
    decreases |fields|
  {
    if fields == [] then d else DropAll(Drop(d, fields[0]), fields[1..])
  }

  /** How many of the deletions find their field. */
  function DropCount(d: Dict, fields: seq<string>): nat
    decreases |fields|
  {
    if fields == [] then 0 else (if Has(d, fields[0]) then 1 else 0) + DropCount(Drop(d, fields[0]), fields[1..])
  }

  function Names(d: Dict): seq<string> {
    seq(|d|, i requires 0 <= i < |d| => d[i].0)
  }

  datatype Operation =
    | Get(key: string)
    | Set(key: string, value: string)
    | Delete(keys: seq<string>)
    | HGet(key: string, field: string)
    | HGetAll(key: string)
    | HSet(key: string, field: string, value: string)
    | HDel(key: string, fields: seq<string>)
    | HKeys(key: string)
    | FlushAll

  datatype Reply =
    | Nothing
    | Found(text: string)
    | Count(n: nat)
    | Fields(d: Dict)
    | FieldNames(names: seq<string>)
    | Done
    | TypeError
    | AttributeError
    | NotADict

  // ---- the memory store, as a value ----

  datatype Value = Text(s: string) | Hash(d: Dict)

  type Memory = map<string, Value>

  function MemDelete(m: Memory, keys: seq<string>): Memory
    decreases |keys|
  {
    if keys == [] then m else MemDelete(m - {keys[0]}, keys[1..])
  }

  function MemDeleteCount(m: Memory, keys: seq<string>): nat
    decreases |keys|
  {
    if keys == [] then 0 else (if keys[0] in m then 1 else 0) + MemDeleteCount(m - {keys[0]}, keys[1..])
  }

  function MemAfter(m: Memory, op: Operation): Memory {
    match op
    case Set(key, value) => m[key := Text(value)]
    case Delete(keys) => MemDelete(m, keys)
    case HSet(key, field, value) =>
      if key !in m then m[key := Hash([(field, value)])]
      else if m[key].Text? then m
      else m[key := Hash(Put(m[key].d, field, value))]
    case HDel(key, fields) =>
      if key in m && m[key].Hash? then m[key := Hash(DropAll(m[key].d, fields))] else m
    case FlushAll => map[]
    case _ => m
  }

  function MemReply(m: Memory, op: Operation): Reply {
    match op
    case Get(key) => if key !in m then Nothing else if m[key].Hash? then TypeError else Found(m[key].s)
    case Set(_, _) => Done
    case Delete(keys) => Count(MemDeleteCount(m, keys))
    case HGet(key, field) =>
      if key !in m then Nothing else if m[key].Text? then TypeError
      else if Lookup(m[key].d, field).Some? then Found(Lookup(m[key].d, field).value) else Nothing
    case HGetAll(key) => if key !in m then Fields([]) else if m[key].Text? then TypeError else Fields(m[key].d)
    case HSet(key, field, _) =>
      if key !in m then Count(1) else if m[key].Text? then TypeError else Count(if Has(m[key].d, field) then 0 else 1)
    case HDel(key, fields) =>
      if key !in m then Count(0) else if m[key].Text? then TypeError else Count(DropCount(m[key].d, fields))
    case HKeys(key) =>
      if key !in m then FieldNames([]) else if m[key].Text? then TypeError else FieldNames(Names(m[key].d))
    case FlushAll => Done
  }

  // ---- the memcached store, as a value ----

  /** What `json.loads` makes of a text; it raises on anything that is not a JSON document. */
  datatype Loaded = NotJson | Object(d: Dict) | OtherJson

  datatype Codec = Codec(dumps: Dict -> string, loads: string -> Loaded) {
    /** A dict of strings survives the round trip through its JSON text. */
    ghost predicate Lawful() {
      forall d :: DistinctFields(d) ==> loads(dumps(d)) == Object(d)
    }
  }

  type Cache = map<string, string>

  function CacheDelete(c: Cache, keys: seq<string>): Cache
    decreases |keys|
  {
    if keys == [] then c else CacheDelete(c - {keys[0]}, keys[1..])
  }

  function CacheDeleteCount(c: Cache, keys: seq<string>): nat
    decreases |keys|
  {
    if keys == [] then 0 else (if keys[0] in c then 1 else 0) + CacheDeleteCount(c - {keys[0]}, keys[1..])
  }

  /** The document stored under a key; a missing key reads as the empty object. */
  function Load(codec: Codec, c: Cache, key: string): Loaded {
    if key in c then codec.loads(c[key]) else Object([])
  }

  function CacheAfter(codec: Codec, c: Cache, op: Operation): Cache {
    match op
    case Set(key, value) => c[key := value]
    case Delete(keys) => CacheDelete(c, keys)
    case HSet(key, field, value) =>
      var data := Load(codec, c, key);
      if data.Object? then c[key := codec.dumps(Put(data.d, field, value))] else c
    case HDel(key, fields) =>
      var data := Load(codec, c, key);
      if data.Object? && DropCount(data.d, fields) > 0 then c[key := codec.dumps(DropAll(data.d, fields))] else c
    case FlushAll => map[]
    case _ => c
  }

  function CacheReply(codec: Codec, c: Cache, op: Operation): Reply {
    match op
    case Get(key) => if key !in c then Nothing else if codec.loads(c[key]).Object? then TypeError else Found(c[key])
    case Set(_, _) => Done
    case Delete(keys) => Count(CacheDeleteCount(c, keys))
    case HGet(key, field) =>
      (match Load(codec, c, key)
       case NotJson => TypeError
       case OtherJson => AttributeError
       case Object(d) => if Lookup(d, field).Some? then Found(Lookup(d, field).value) else Nothing)
    case HGetAll(key) =>
      (match Load(codec, c, key)
       case NotJson => TypeError
       case OtherJson => NotADict
       case Object(d) => Fields(d))
    case HSet(key, field, _) =>
      (match Load(codec, c, key)
       case Object(d) => Count(if Has(d, field) then 0 else 1)
       case _ => TypeError)
    case HDel(key, fields) =>
      (match Load(codec, c, key)
       case NotJson => TypeError
       case OtherJson => if fields == [] then Count(0) else TypeError
       case Object(d) => Count(DropCount(d, fields)))
    case HKeys(key) =>
      (match Load(codec, c, key)
       case NotJson => TypeError
       case OtherJson => AttributeError
       case Object(d) => FieldNames(Names(d)))
    case FlushAll => Done
  }

  // ---- simulation ----

  /** Plain values are not JSON documents; hashes are the JSON text of the same dict, in the same order. */
  ghost predicate Represents(codec: Codec, v: Value, text: string) {
    match v
    case Text(s) => text == s && codec.loads(s) == NotJson
    case Hash(d) => text == codec.dumps(d) && DistinctFields(d)
  }

  ghost predicate Simulates(codec: Codec, m: Memory, c: Cache) {
    m.Keys == c.Keys && forall k :: k in m ==> Represents(codec, m[k], c[k])
  }

  predicate Plain(codec: Codec, op: Operation) {
    op.Set? ==> codec.loads(op.value) == NotJson
  }

  lemma {:induction false} PutFields(d: Dict, f: string, v: string)
    requires DistinctFields(d)
    ensures DistinctFields(Put(d, f, v))
    ensures forall i :: 0 <= i < |Put(d, f, v)| ==>
            Put(d, f, v)[i].0 == f || exists j :: 0 <= j < |d| && d[j].0 == Put(d, f, v)[i].0
  {
    if d != [] && d[0].0 != f {
      PutFields(d[1..], f, v);
      assert forall j :: 0 <= j < |d[1..]| ==> d[1..][j] == d[j + 1];
    }
  }

  lemma DistinctTail(d: Dict)
    requires d != [] && DistinctFields(d)
    ensures DistinctFields(d[1..]) && forall p :: p in d[1..] ==> p.0 != d[0].0
  {
  }

  lemma DistinctMore(p: (string, string), rest: Dict)
    requires DistinctFields(rest) && forall q :: q in rest ==> q.0 != p.0
    ensures DistinctFields([p] + rest)
  {
  }

  lemma {:induction false} DropFields(d: Dict, f: string)
    requires DistinctFields(d)
    ensures DistinctFields(Drop(d, f))
    ensures forall p :: p in Drop(d, f) ==> p in d
    ensures !Has(d, f) ==> Drop(d, f) == d
  {
    if d != [] {
      DistinctTail(d);
      if d[0].0 != f {
        DropFields(d[1..], f);
        DistinctMore(d[0], Drop(d[1..], f));
        assert d == [d[0]] + d[1..];
      }
    }
  }

  lemma {:induction false} DropAllFields(d: Dict, fields: seq<string>)
    requires DistinctFields(d)
    ensures DistinctFields(DropAll(d, fields))
    ensures DropCount(d, fields) == 0 ==> DropAll(d, fields) == d
    ensures d == [] ==> DropCount(d, fields) == 0
    decreases |fields|
  {
    if fields != [] {
      DropFields(d, fields[0]);
      DropAllFields(Drop(d, fields[0]), fields[1..]);
    }
  }

  lemma {:induction false} DeleteSimulates(codec: Codec, m: Memory, c: Cache, keys: seq<string>)
    requires Simulates(codec, m, c)
    ensures Simulates(codec, MemDelete(m, keys), CacheDelete(c, keys))
    ensures MemDeleteCount(m, keys) == CacheDeleteCount(c, keys)
    decreases |keys|
  {
    if keys != [] {
      DeleteSimulates(codec, m - {keys[0]}, c - {keys[0]}, keys[1..]);
    }
  }

  lemma SimulatedLoad(codec: Codec, m: Memory, c: Cache, key: string)
    requires codec.Lawful() && Simulates(codec, m, c)
    ensures Load(codec, c, key) == if key !in m then Object([]) else if m[key].Text? then NotJson else Object(m[key].d)
    ensures key in m && m[key].Hash? ==> DistinctFields(m[key].d)
  {
    if key in m {
      assert Represents(codec, m[key], c[key]);
    }
  }

  /** Every operation gets the same reply from both stores and leaves them simulating each other. */
  lemma OperationSimulates(codec: Codec, m: Memory, c: Cache, op: Operation)
    requires codec.Lawful() && Simulates(codec, m, c) && Plain(codec, op)
    ensures MemReply(m, op) == CacheReply(codec, c, op)
    ensures Simulates(codec, MemAfter(m, op), CacheAfter(codec, c, op))
  {
    match op
    case Get(key) => SimulatedLoad(codec, m, c, key);
    case Set(_, _) =>
    case Delete(keys) => DeleteSimulates(codec, m, c, keys);
    case HGet(key, _) => SimulatedLoad(codec, m, c, key);
    case HGetAll(key) => SimulatedLoad(codec, m, c, key);
    case HSet(key, field, value) =>
      SimulatedLoad(codec, m, c, key);
      PutFields(if key in m && m[key].Hash? then m[key].d else [], field, value);
    case HDel(key, fields) =>
      SimulatedLoad(codec, m, c, key);
      DropAllFields(if key in m && m[key].Hash? then m[key].d else [], fields);
    case HKeys(key) => SimulatedLoad(codec, m, c, key);
    case FlushAll =>
  }

  function MemReplies(m: Memory, ops: seq<Operation>): seq<Reply>
    decreases |ops|
  {
    if ops == [] then [] else [MemReply(m, ops[0])] + MemReplies(MemAfter(m, ops[0]), ops[1..])
  }

  function CacheReplies(codec: Codec, c: Cache, ops: seq<Operation>): seq<Reply>
    decreases |ops|
  {
    if ops == [] then []
    else [CacheReply(codec, c, ops[0])] + CacheReplies(codec, CacheAfter(codec, c, ops[0]), ops[1..])
  }

  /** For every sequence of operations whose plain values are not JSON documents, the two stores return the same
      replies: results, counts, key order and errors. */
  lemma {:induction false} StoresAgree(codec: Codec, m: Memory, c: Cache, ops: seq<Operation>)
    requires codec.Lawful() && Simulates(codec, m, c)
    requires forall i :: 0 <= i < |ops| ==> Plain(codec, ops[i])
    ensures MemReplies(m, ops) == CacheReplies(codec, c, ops)
    decreases |ops|
  {
    if ops != [] {
      OperationSimulates(codec, m, c, ops[0]);
      StoresAgree(codec, MemAfter(m, ops[0]), CacheAfter(codec, c, ops[0]), ops[1..]);
    }
  }

  /** The two stores give the same replies to every sequence of operations that sets plain values only. */
  ghost predicate AgreeFrom(codec: Codec, m: Memory, c: Cache) {
    forall ops :: (forall i :: 0 <= i < |ops| ==> Plain(codec, ops[i])) ==>
        MemReplies(m, ops) == CacheReplies(codec, c, ops)
  }

  /** The hypothesis is exact: when a plain value is set in stores that correspond, all further sequences of operations
      agree if and only if that value is not a JSON document. */
  lemma PlainIsExact(codec: Codec, m: Memory, c: Cache, key: string, value: string)
    requires codec.Lawful() && Simulates(codec, m, c)
    ensures codec.loads(value) == NotJson <==> AgreeFrom(codec, m[key := Text(value)], c[key := value])
  {
    var m1, c1 := m[key := Text(value)], c[key := value];
    if codec.loads(value) == NotJson {
      forall ops | forall i :: 0 <= i < |ops| ==> Plain(codec, ops[i])
        ensures MemReplies(m1, ops) == CacheReplies(codec, c1, ops)
      {
        StoresAgree(codec, m1, c1, ops);
      }
    } else {
      var probe := if codec.loads(value).Object? then Get(key) else HGet(key, "");
      assert MemReply(m1, probe) != CacheReply(codec, c1, probe);
      assert MemReplies(m1, [probe])[0] == MemReply(m1, probe) &&
             CacheReplies(codec, c1, [probe])[0] == CacheReply(codec, c1, probe);
    }
  }
}
