/** What the store operations mean to a caller: the replies after an operation, given those before it. */
module StoreLaws {
  import opened Text
  import opened Stores

  // ---- dicts ----

  lemma {:induction false} HasIsNamed(d: Dict, f: string)
    ensures Has(d, f) <==> f in Names(d)
    ensures Has(d, f) <==> Lookup(d, f).Some?
  {
    if d != [] {
      HasIsNamed(d[1..], f);
      assert Names(d) == [d[0].0] + Names(d[1..]);
    }
  }

  /** The field put has the value put, every other field the value it had. */
  lemma {:induction false} LookupPut(d: Dict, f: string, v: string, g: string)
    ensures Lookup(Put(d, f, v), g) == if g == f then Some(v) else Lookup(d, g)
  {
    if d != [] && d[0].0 != f {
      LookupPut(d[1..], f, v, g);
    }
  }

  /** A field keeps its place; a new one goes last. */
  lemma {:induction false} NamesPut(d: Dict, f: string, v: string)
    ensures Names(Put(d, f, v)) == if f in Names(d) then Names(d) else Names(d) + [f]
  {
    if d != [] {
      assert Names(d) == [d[0].0] + Names(d[1..]);
      if d[0].0 != f {
        NamesPut(d[1..], f, v);
        assert Names(Put(d, f, v)) == [d[0].0] + Names(Put(d[1..], f, v));
      }
    }
  }

  /** The names that are not among the fields, in order. */
  function Others(names: seq<string>, fields: seq<string>): seq<string> {
    if names == [] then []
    else (if names[0] in fields then [] else [names[0]]) + Others(names[1..], fields)
  }

  lemma {:induction false} OthersOfNone(names: seq<string>, fields: seq<string>)
    requires forall f :: f in fields ==> f !in names
    ensures Others(names, fields) == names
  {
    if names != [] {
      assert names[0] in names && forall n :: n in names[1..] ==> n in names;
      OthersOfNone(names[1..], fields);
    }
  }

  lemma {:induction false} OthersTwice(names: seq<string>, f: string, fields: seq<string>)
    ensures Others(Others(names, [f]), fields) == Others(names, [f] + fields)
  {
    if names != [] {
      OthersTwice(names[1..], f, fields);
      var rest := Others(names[1..], [f]);
      assert ([names[0]] + rest)[1..] == rest && [] + rest == rest;
    }
  }

  lemma {:induction false} LookupDrop(d: Dict, f: string, g: string)
    requires DistinctFields(d)
    ensures Lookup(Drop(d, f), g) == if g == f then None else Lookup(d, g)
  {
    if d != [] {
      DistinctTail(d);
      if d[0].0 == f {
        NotNamed(d[1..], f);
      } else {
        LookupDrop(d[1..], f, g);
      }
    }
  }

  lemma NotNamed(d: Dict, f: string)
    requires forall p :: p in d ==> p.0 != f
    ensures f !in Names(d) && Lookup(d, f) == None
  {
    forall i | 0 <= i < |d| ensures Names(d)[i] != f {
      assert d[i] in d;
    }
    HasIsNamed(d, f);
  }

  lemma {:induction false} NamesDrop(d: Dict, f: string)
    requires DistinctFields(d)
    ensures Names(Drop(d, f)) == Others(Names(d), [f])
  {
    if d != [] {
      var tail := Names(d[1..]);
      DistinctTail(d);
      assert Names(d) == [d[0].0] + tail && Names(d)[1..] == tail;
      if d[0].0 == f {
        NotNamed(d[1..], f);
        OthersOfNone(tail, [f]);
      } else {
        NamesDrop(d[1..], f);
        assert Names(Drop(d, f)) == [d[0].0] + Names(Drop(d[1..], f));
      }
    }
  }

  /** Exactly the fields named are gone; the rest keep their values and order. */
  lemma {:induction false} LookupDropAll(d: Dict, fields: seq<string>, g: string)
    requires DistinctFields(d)
    ensures Lookup(DropAll(d, fields), g) == if g in fields then None else Lookup(d, g)
    ensures Names(DropAll(d, fields)) == Others(Names(d), fields)
    decreases |fields|
  {
    if fields == [] {
      OthersOfNone(Names(d), []);
    } else {
      var f := fields[0];
      LookupDrop(d, f, g);
      NamesDrop(d, f);
      DropFields(d, f);
      LookupDropAll(Drop(d, f), fields[1..], g);
      OthersTwice(Names(d), f, fields[1..]);
      assert fields == [f] + fields[1..];
    }
  }

  lemma {:induction false} DropSize(d: Dict, f: string)
    ensures |Drop(d, f)| == |d| - if Has(d, f) then 1 else 0
  {
    if d != [] && d[0].0 != f {
      DropSize(d[1..], f);
    }
  }

  /** The count is the number of fields that went. */
  lemma {:induction false} DropCountIsLoss(d: Dict, fields: seq<string>)
    ensures DropCount(d, fields) == |d| - |DropAll(d, fields)|
    decreases |fields|
  {
    if fields != [] {
      DropSize(d, fields[0]);
      DropCountIsLoss(Drop(d, fields[0]), fields[1..]);
    }
  }

  // ---- replies of the memory store ----

  /** Every dict has each field once, as Python dicts do. */
  ghost predicate Proper(m: Memory) {
    forall k :: k in m && m[k].Hash? ==> DistinctFields(m[k].d)
  }

  predicate HoldsText(m: Memory, key: string) {
    key in m && m[key].Text?
  }

  /** The dict a key stands for. */
  function DictOf(m: Memory, key: string): Dict {
    if key in m && m[key].Hash? then m[key].d else []
  }

  lemma ProperStays(m: Memory, op: Operation)
    requires Proper(m)
    ensures Proper(MemAfter(m, op))
  {
    match op
    case HSet(key, field, value) => PutFields(DictOf(m, key), field, value);
    case HDel(key, fields) => DropAllFields(DictOf(m, key), fields);
    case Delete(keys) => DeletedKeys(m, keys);
    case _ =>
  }

  /** Nothing a caller can ask about the key tells the two states apart. */
  ghost predicate SameKey(m1: Memory, m2: Memory, key: string) {
    && MemReply(m1, Get(key)) == MemReply(m2, Get(key))
    && MemReply(m1, HGetAll(key)) == MemReply(m2, HGetAll(key))
    && MemReply(m1, HKeys(key)) == MemReply(m2, HKeys(key))
    && forall field :: MemReply(m1, HGet(key, field)) == MemReply(m2, HGet(key, field))
  }

  /** The key is missing to every caller. */
  ghost predicate Missing(m: Memory, key: string) {
    && MemReply(m, Get(key)) == Nothing && MemReply(m, HGetAll(key)) == Fields([])
    && MemReply(m, HKeys(key)) == FieldNames([])
    && forall field :: MemReply(m, HGet(key, field)) == Nothing
  }

  lemma SameRow(m1: Memory, m2: Memory, key: string)
    requires key in m1 <==> key in m2
    requires key in m1 ==> m1[key] == m2[key]
    ensures SameKey(m1, m2, key)
  {
  }

  /** An operation on one key leaves every other key as it was. */
  lemma OtherKeysStay(m: Memory, op: Operation, key: string)
    requires (op.Set? || op.HSet? || op.HDel?) && op.key != key
    ensures SameKey(MemAfter(m, op), m, key)
  {
    SameRow(MemAfter(m, op), m, key);
  }

  /** A plain value refuses hset and hdel, and stays. */
  lemma TextRefuses(m: Memory, op: Operation)
    requires (op.HSet? || op.HDel?) && HoldsText(m, op.key)
    ensures MemReply(m, op) == TypeError && MemAfter(m, op) == m
  {
  }

  lemma DictAfterHSet(m: Memory, key: string, field: string, value: string)
    requires !HoldsText(m, key)
    ensures MemAfter(m, HSet(key, field, value)) == m[key := Hash(Put(DictOf(m, key), field, value))]
  {
  }

  /** After hset the field reads as the value set and every other field as before; the set was counted exactly when the
      field was not there. */
  lemma HSetLaw(m: Memory, key: string, field: string, value: string, other: string)
    requires !HoldsText(m, key)
    ensures var after := MemAfter(m, HSet(key, field, value));
            MemReply(after, HGet(key, other)) ==
            if other == field then Found(value) else MemReply(m, HGet(key, other))
    ensures MemReply(m, HSet(key, field, value)) == Count(if MemReply(m, HGet(key, field)) == Nothing then 1 else 0)
  {
    DictAfterHSet(m, key, field, value);
    LookupPut(DictOf(m, key), field, value, other);
    HasIsNamed(DictOf(m, key), field);
  }

  /** After hset a field keeps its place, and a new one goes last. */
  lemma HSetKeepsOrder(m: Memory, key: string, field: string, value: string)
    requires !HoldsText(m, key)
    ensures var names := MemReply(m, HKeys(key)).names;
            MemReply(MemAfter(m, HSet(key, field, value)), HKeys(key)) ==
            FieldNames(if field in names then names else names + [field])
  {
    DictAfterHSet(m, key, field, value);
    NamesPut(DictOf(m, key), field, value);
  }

  /** After hdel exactly the fields named read as missing. */
  lemma HDelLaw(m: Memory, key: string, fields: seq<string>, field: string)
    requires Proper(m) && !HoldsText(m, key)
    ensures MemReply(MemAfter(m, HDel(key, fields)), HGet(key, field)) ==
            if field in fields then Nothing else MemReply(m, HGet(key, field))
  {
    LookupDropAll(DictOf(m, key), fields, field);
  }

  /** The other fields keep their order, and those that went were counted. */
  lemma HDelKeepsOrder(m: Memory, key: string, fields: seq<string>)
    requires Proper(m) && !HoldsText(m, key)
    ensures var names := MemReply(m, HKeys(key)).names;
            && MemReply(MemAfter(m, HDel(key, fields)), HKeys(key)) == FieldNames(Others(names, fields))
            && MemReply(m, HDel(key, fields)).n + |Others(names, fields)| == |names|
  {
    var d := DictOf(m, key);
    LookupDropAll(d, fields, "");
    DropCountIsLoss(d, fields);
  }

  /** After set the value reads back, as text only. */
  lemma SetLaw(m: Memory, key: string, value: string)
    ensures var after := MemAfter(m, Set(key, value));
            MemReply(after, Get(key)) == Found(value) && MemReply(after, HGetAll(key)) == TypeError
  {
  }

  lemma {:induction false} DeletedKeys(m: Memory, keys: seq<string>)
    ensures forall k :: k in MemDelete(m, keys) <==> k in m && k !in keys
    ensures forall k :: k in MemDelete(m, keys) ==> MemDelete(m, keys)[k] == m[k]
    ensures MemDeleteCount(m, keys) == |m.Keys| - |MemDelete(m, keys).Keys|
    decreases |keys|
  {
    if keys != [] {
      var rest := m - {keys[0]};
      DeletedKeys(rest, keys[1..]);
      assert keys == [keys[0]] + keys[1..];
      assert rest.Keys == m.Keys - {keys[0]};
    }
  }

  lemma NoRow(m: Memory, key: string)
    requires key !in m
    ensures Missing(m, key)
  {
  }

  /** After delete exactly the keys named are missing. */
  lemma DeleteLaw(m: Memory, keys: seq<string>, key: string)
    ensures var after := MemAfter(m, Delete(keys));
            if key in keys then Missing(after, key) else SameKey(after, m, key)
  {
    DeletedKeys(m, keys);
    if key in keys {
      NoRow(MemDelete(m, keys), key);
    } else {
      SameRow(MemDelete(m, keys), m, key);
    }
  }

  /** Those that were there were counted. */
  lemma DeleteCounts(m: Memory, keys: seq<string>)
    ensures MemReply(m, Delete(keys)).n + |MemAfter(m, Delete(keys)).Keys| == |m.Keys|
  {
    DeletedKeys(m, keys);
  }

  lemma FlushLaw(m: Memory, key: string)
    ensures Missing(MemAfter(m, FlushAll), key)
  {
  }

  /** hgetall lists the names of hkeys, each with the value hget gives. */
  lemma HGetAllLaw(m: Memory, key: string, i: nat)
    requires Proper(m) && !HoldsText(m, key)
    ensures MemReply(m, HGetAll(key)).Fields? && MemReply(m, HKeys(key)).FieldNames?
    ensures var d, names := MemReply(m, HGetAll(key)).d, MemReply(m, HKeys(key)).names;
            && |d| == |names|
            && (i < |d| ==> names[i] == d[i].0 && MemReply(m, HGet(key, d[i].0)) == Found(d[i].1))
  {
    LookupAt(DictOf(m, key), i);
  }

  lemma {:induction false} LookupAt(d: Dict, i: nat)
    requires DistinctFields(d)
    ensures i < |d| ==> Lookup(d, d[i].0) == Some(d[i].1)
  {
    if 0 < i < |d| {
      LookupAt(d[1..], i - 1);
      assert d[0].0 != d[i].0;
    }
  }

  // ---- the memcached store obeys the same laws ----

  ghost predicate PlainOps(codec: Codec, ops: seq<Operation>) {
    forall i :: 0 <= i < |ops| ==> Plain(codec, ops[i])
  }

  function MemRun(m: Memory, ops: seq<Operation>): Memory
    decreases |ops|
  {
    if ops == [] then m else MemRun(MemAfter(m, ops[0]), ops[1..])
  }

  function CacheRun(codec: Codec, c: Cache, ops: seq<Operation>): Cache
    decreases |ops|
  {
    if ops == [] then c else CacheRun(codec, CacheAfter(codec, c, ops[0]), ops[1..])
  }

  /** After any plain operations both stores reply alike, and the memory store is one of proper dicts: the laws above
      hold of both at every point of every run from empty stores. */
  lemma {:induction false} LawsHoldThroughout(codec: Codec, m: Memory, c: Cache, ops: seq<Operation>, query: Operation)
    requires codec.Lawful() && Simulates(codec, m, c) && Proper(m) && PlainOps(codec, ops) && Plain(codec, query)
    ensures CacheReply(codec, CacheRun(codec, c, ops), query) == MemReply(MemRun(m, ops), query)
    ensures Simulates(codec, MemRun(m, ops), CacheRun(codec, c, ops)) && Proper(MemRun(m, ops))
    decreases |ops|
  {
    if ops == [] {
      OperationSimulates(codec, m, c, query);
    } else {
      OperationSimulates(codec, m, c, ops[0]);
      ProperStays(m, ops[0]);
      LawsHoldThroughout(codec, MemAfter(m, ops[0]), CacheAfter(codec, c, ops[0]), ops[1..], query);
    }
  }

  /** A JSON document other than an object, once set, reads back as text and fails every hash operation of the memcached
      store, each in its own way. */
  lemma OtherJsonReplies(codec: Codec, c: Cache, key: string, value: string, field: string)
    requires codec.loads(value) == OtherJson
    ensures var after := CacheAfter(codec, c, Set(key, value));
            && CacheReply(codec, after, Get(key)) == Found(value)
            && CacheReply(codec, after, HGet(key, field)) == AttributeError
            && CacheReply(codec, after, HGetAll(key)) == NotADict
            && CacheReply(codec, after, HKeys(key)) == AttributeError
            && CacheReply(codec, after, HSet(key, field, "")) == TypeError
            && CacheReply(codec, after, HDel(key, [field])) == TypeError
            && CacheReply(codec, after, HDel(key, [])) == Count(0)
  {
  }
}
