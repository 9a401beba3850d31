/** The two store implementations as objects. The memory store hands out its live dicts, and deletes fields through
    them; the memcached store rewrites one JSON text per key. */
module StoreObjects {
  import opened Text
  import opened Stores

  /** A Python dict object. */
  class DictObject {
    var items: Dict

    constructor (items: Dict)
      ensures this.items == items
    {
      this.items := items;
    }
  }

  datatype Record = TextRecord(s: string) | HashRecord(data: DictObject)

  /** Deletes fields from a dict in place, counting those that are there. */
  method DeleteFields(data: DictObject, fields: seq<string>) returns (count: nat)
    modifies data
    ensures data.items == DropAll(old(data.items), fields) && count == DropCount(old(data.items), fields)
  {
    count := 0;
    assert fields[0..] == fields;
    for i := 0 to |fields|
      invariant DropAll(data.items, fields[i..]) == DropAll(old(data.items), fields)
      invariant count + DropCount(data.items, fields[i..]) == DropCount(old(data.items), fields)
    {
      assert fields[i..][1..] == fields[i + 1..];
      if Has(data.items, fields[i]) {
        data.items := Drop(data.items, fields[i]);
        count := count + 1;
      } else {
        DropMissing(data.items, fields[i]);
      }
    }
  }

  class MemoryStore {
    var records: map<string, Record>
    ghost var Repr: set<DictObject>

    /** No two keys share a dict. */
    ghost predicate Valid()
      reads this, Repr
    {
      && (forall k :: k in records && records[k].HashRecord? ==> records[k].data in Repr)
      && (forall k, l :: k in records && l in records && records[k].HashRecord? && records[l].HashRecord? && k != l ==>
            records[k].data != records[l].data)
    }

    ghost function Contents(): Memory
      requires Valid()
      reads this, Repr
    {
      map k | k in records :: ValueOf(k)
    }

    /** The dict a key holds, and hands out. What is handed out changes with that key's fields, and with nothing
        else. */
    ghost predicate IsDictOf(k: string, d: DictObject)
      reads this
    {
      k in records && records[k] == HashRecord(d)
    }

    ghost function ValueOf(k: string): Value
      requires Valid() && k in records
      reads this, Repr
    {
      match records[k]
      case TextRecord(s) => Text(s)
      case HashRecord(data) => Hash(data.items)
    }

    constructor ()
      ensures Valid() && Contents() == map[] && fresh(Repr)
    {
      records, Repr := map[], {};
    }

    method Get(key: string) returns (r: Reply)
      requires Valid()
      ensures r == MemReply(Contents(), Operation.Get(key))
    {
      if key !in records {
        return Nothing;
      }
      match records[key]
      case HashRecord(_) => return TypeError;
      case TextRecord(s) => return Found(s);
    }

    method Set(key: string, value: string) returns (r: Reply)
      requires Valid()
      modifies this
      ensures Valid() && Repr == old(Repr)
      ensures Contents() == MemAfter(old(Contents()), Operation.Set(key, value)) && r == Done
    {
      records := records[key := TextRecord(value)];
      r := Done;
    }

    method Delete(keys: seq<string>) returns (r: Reply)
      requires Valid()
      modifies this
      ensures Valid() && Repr == old(Repr)
      ensures Contents() == MemAfter(old(Contents()), Operation.Delete(keys))
      ensures r == MemReply(old(Contents()), Operation.Delete(keys))
    {
      var count := 0;
      assert keys[0..] == keys;
      for i := 0 to |keys|
        invariant Valid() && Repr == old(Repr)
        invariant MemDelete(Contents(), keys[i..]) == MemDelete(old(Contents()), keys)
        invariant count + MemDeleteCount(Contents(), keys[i..]) == MemDeleteCount(old(Contents()), keys)
      {
        ghost var before := Contents();
        assert keys[i..][1..] == keys[i + 1..];
        if keys[i] in records {
          records := records - {keys[i]};
          count := count + 1;
        }
        assert Contents() == before - {keys[i]};
      }
      r := Count(count);
    }

    method HGet(key: string, field: string) returns (r: Reply)
      requires Valid()
      ensures r == MemReply(Contents(), Operation.HGet(key, field))
    {
      if key !in records {
        return Nothing;
      }
      match records[key]
      case TextRecord(_) => return TypeError;
      case HashRecord(data) =>
        var v := Lookup(data.items, field);
        return if v.Some? then Found(v.value) else Nothing;
    }

    /** Returns the live dict of the key, not a copy; a fresh empty dict when the key is missing, None on a wrong
        type. */
    method HGetAll(key: string) returns (data: Option<DictObject>)
      requires Valid()
      ensures data.None? <==> MemReply(Contents(), Operation.HGetAll(key)) == TypeError
      ensures data.Some? ==> MemReply(Contents(), Operation.HGetAll(key)) == Fields(data.value.items)
      ensures key in records && data.Some? ==> records[key] == HashRecord(data.value)
      ensures key !in records ==> data.Some? && fresh(data.value)
    {
      if key !in records {
        var empty := new DictObject([]);
        return Some(empty);
      }
      match records[key]
      case TextRecord(_) => return None;
      case HashRecord(d) => return Some(d);
    }

    method HSet(key: string, field: string, value: string) returns (r: Reply)
      requires Valid()
      modifies this, Repr
      ensures Valid() && fresh(Repr - old(Repr))
      ensures Contents() == MemAfter(old(Contents()), Operation.HSet(key, field, value))
      ensures r == MemReply(old(Contents()), Operation.HSet(key, field, value))
      ensures forall d :: d in old(Repr) && !old(IsDictOf(key, d)) ==> d.items == old(d.items)
    {
      if key !in records {
        var data := new DictObject([]);
        Repr := Repr + {data};
        records := records[key := HashRecord(data)];
      }
      match records[key]
      case TextRecord(_) => return TypeError;
      case HashRecord(data) =>
        r := Count(if Has(data.items, field) then 0 else 1);
        data.items := Put(data.items, field, value);
    }

    /** Deletes through the dict that `HGetAll` returns: the record changes because that dict is the live one. */
    method HDel(key: string, fields: seq<string>) returns (r: Reply)
      requires Valid()
      modifies Repr
      ensures Valid() && Repr == old(Repr) && records == old(records)
      ensures Contents() == MemAfter(old(Contents()), Operation.HDel(key, fields))
      ensures r == MemReply(old(Contents()), Operation.HDel(key, fields))
      ensures forall d :: d in Repr && !IsDictOf(key, d) ==> d.items == old(d.items)
    {
      var found := HGetAll(key);
      if found.None? {
        return TypeError;
      }
      DropAllFieldsOfEmpty(fields);
      var count := DeleteFields(found.value, fields);
      r := Count(count);
    }

    method HKeys(key: string) returns (r: Reply)
      requires Valid()
      ensures r == MemReply(Contents(), Operation.HKeys(key))
    {
      var data := HGetAll(key);
      r := if data.None? then TypeError else FieldNames(Names(data.value.items));
    }

    method FlushAll() returns (r: Reply)
      requires Valid()
      modifies this
      ensures Valid() && Repr == old(Repr) && Contents() == map[] && r == Done
    {
      records := map[];
      r := Done;
    }
  }

  lemma {:induction false} DropMissing(d: Dict, f: string)
    requires !Has(d, f)
    ensures Drop(d, f) == d
  {
    if d != [] {
      DropMissing(d[1..], f);
      assert d == [d[0]] + d[1..];
    }
  }

  lemma {:induction false} DropAllFieldsOfEmpty(fields: seq<string>)
    ensures DropCount([], fields) == 0
    decreases |fields|
  {
    if fields != [] {
      DropAllFieldsOfEmpty(fields[1..]);
    }
  }

  class MemcachedStore {
    const codec: Codec
    var client: Cache

    constructor (codec: Codec)
      ensures this.codec == codec && client == map[]
    {
      this.codec, client := codec, map[];
    }

    method Get(key: string) returns (r: Reply)
      ensures r == CacheReply(codec, client, Operation.Get(key))
    {
      if key !in client {
        return Nothing;
      }
      if codec.loads(client[key]).Object? {
        return TypeError;
      }
      r := Found(client[key]);
    }

    method Set(key: string, value: string) returns (r: Reply)
      modifies this
      ensures client == CacheAfter(codec, old(client), Operation.Set(key, value)) && r == Done
    {
      client := client[key := value];
      r := Done;
    }

    method Delete(keys: seq<string>) returns (r: Reply)
      modifies this
      ensures client == CacheAfter(codec, old(client), Operation.Delete(keys))
      ensures r == CacheReply(codec, old(client), Operation.Delete(keys))
    {
      var count := 0;
      assert keys[0..] == keys;
      for i := 0 to |keys|
        invariant CacheDelete(client, keys[i..]) == CacheDelete(old(client), keys)
        invariant count + CacheDeleteCount(client, keys[i..]) == CacheDeleteCount(old(client), keys)
      {
        assert keys[i..][1..] == keys[i + 1..];
        count := count + if keys[i] in client then 1 else 0;
        client := client - {keys[i]};
      }
      r := Count(count);
    }

    method HGet(key: string, field: string) returns (r: Reply)
      ensures r == CacheReply(codec, client, Operation.HGet(key, field))
    {
      match Load(codec, client, key)
      case NotJson => return TypeError;
      case OtherJson => return AttributeError;
      case Object(data) =>
        var v := Lookup(data, field);
        return if v.Some? then Found(v.value) else Nothing;
    }

    /** Returns a dict decoded afresh on every call. */
    method HGetAll(key: string) returns (r: Reply)
      ensures r == CacheReply(codec, client, Operation.HGetAll(key))
    {
      match Load(codec, client, key)
      case NotJson => return TypeError;
      case OtherJson => return NotADict;
      case Object(data) => return Fields(data);
    }

    method HSet(key: string, field: string, value: string) returns (r: Reply)
      modifies this
      ensures client == CacheAfter(codec, old(client), Operation.HSet(key, field, value))
      ensures r == CacheReply(codec, old(client), Operation.HSet(key, field, value))
    {
      var data := Load(codec, client, key);
      if !data.Object? {
        return TypeError;
      }
      var count := if Has(data.d, field) then 0 else 1;
      client := client[key := codec.dumps(Put(data.d, field, value))];
      r := Count(count);
    }

    method HDel(key: string, fields: seq<string>) returns (r: Reply)
      modifies this
      ensures client == CacheAfter(codec, old(client), Operation.HDel(key, fields))
      ensures r == CacheReply(codec, old(client), Operation.HDel(key, fields))
    {
      var loaded := Load(codec, client, key);
      if loaded.NotJson? || (loaded.OtherJson? && fields != []) {
        return TypeError;
      }
      if loaded.OtherJson? {
        return Count(0);
      }
      var data := loaded.d;
      var count := 0;
      assert fields[0..] == fields;
      for i := 0 to |fields|
        invariant client == old(client)
        invariant DropAll(data, fields[i..]) == DropAll(loaded.d, fields)
        invariant count + DropCount(data, fields[i..]) == DropCount(loaded.d, fields)
      {
        assert fields[i..][1..] == fields[i + 1..];
        if Has(data, fields[i]) {
          data := Drop(data, fields[i]);
          count := count + 1;
        } else {
          DropMissing(data, fields[i]);
        }
      }
      if count > 0 {
        client := client[key := codec.dumps(data)];
      }
      r := Count(count);
    }

    method HKeys(key: string) returns (r: Reply)
      ensures r == CacheReply(codec, client, Operation.HKeys(key))
    {
      match Load(codec, client, key)
      case NotJson => return TypeError;
      case OtherJson => return AttributeError;
      case Object(data) => return FieldNames(Names(data));
    }

    method FlushAll() returns (r: Reply)
      modifies this
      ensures client == map[] && r == Done
    {
      client := map[];
      r := Done;
    }
  }
}
