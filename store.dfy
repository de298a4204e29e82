/**
  The wizard step store: one table row per identity (a logged-in user id, else the
  client IP address), whose decoded payload maps each wizard name to that wizard's
  sub-document. The table is an in-memory map from identity to payload; the readers
  are functions of that map and of the request context, the writers are methods of
  the `DatabaseStore` class that holds it.
 */
module WizardStore {
  import opened Php

  /** The reserved key under which `set` records the last processed step. */
  const LastIndexKey: string := "_last_index"

  /** What the request supplies: the auth guard's user id (if any) and the client IP. */
  datatype Context = Context(userId: Option<int>, ip: string)

  /** The column and value that select a row: `user_id = id` or `ip_address = ip`. */
  datatype Identity = ByUser(id: int) | ByIp(ip: string)

  /** A row's decoded payload: wizard name to sub-document. */
  type Payload = map<string, Value>

  /** The backing table: at most one row per identity. */
  type Table = map<Identity, Payload>

  /** The guard's id is truthy in PHP: present and not 0. */
  function LoggedIn(ctx: Context): (r: bool)
    ensures ctx.userId == None || ctx.userId == Some(0) ==> !r
    ensures r ==> ctx.userId.Some?
  {
    ctx.userId.Some? && ctx.userId.value != 0
  }

  /** The row selector of every operation, re-evaluated on each call. */
  function Resolve(ctx: Context): (id: Identity)
    ensures id.ByUser? <==> LoggedIn(ctx)
    ensures id.ByUser? ==> Some(id.id) == ctx.userId && id.id != 0
    ensures id.ByIp? ==> id.ip == ctx.ip
  {
    if LoggedIn(ctx) then ByUser(ctx.userId.value) else ByIp(ctx.ip)
  }

  /** `get($key)`: absent without a row; 0 when the row lacks this wizard's namespace
      (also for `_last_index`); the whole sub-document for a falsy key ("" or "0");
      otherwise the value at the dotted path, or null. */
  function Get(table: Table, name: string, ctx: Context, key: string): (r: Value)
    ensures r == Null ==> Resolve(ctx) !in table || (Isset(table[Resolve(ctx)], name) && TruthyString(key))
    ensures Resolve(ctx) in table && !TruthyString(key) ==> r != Null
    ensures Resolve(ctx) in table && !Isset(table[Resolve(ctx)], name) ==> r == Int(0)
  {
    var id := Resolve(ctx);
    if id !in table then Null
    else
      var payload := table[id];
      if key == LastIndexKey && !Isset(payload, name) then Int(0)
      else if Isset(payload, name) then
        (if TruthyString(key) then ArrGet(payload[name], key) else payload[name])
      else Int(0)
  }

  /** `getLastProcessedIndex()`. */
  function LastProcessedIndex(table: Table, name: string, ctx: Context): (r: Value)
    ensures Resolve(ctx) !in table ==> r == Null
    ensures Resolve(ctx) in table && !Isset(table[Resolve(ctx)], name) ==> r == Int(0)
    ensures Resolve(ctx) in table && Isset(table[Resolve(ctx)], name) ==>
      var doc := table[Resolve(ctx)][name];
      r == (if doc.Arr? && LastIndexKey in doc.fields then doc.fields[LastIndexKey] else Null)
  {
    assert '.' !in LastIndexKey;
    Get(table, name, ctx, LastIndexKey)
  }

  /** `has($key)`: `isset` of what `get($key)` returns. */
  function Has(table: Table, name: string, ctx: Context, key: string): (r: bool)
    ensures Resolve(ctx) !in table ==> !r
    ensures Resolve(ctx) in table && !Isset(table[Resolve(ctx)], name) ==> r
    ensures Resolve(ctx) in table && !TruthyString(key) ==> r
  {
    Get(table, name, ctx, key) != Null
  }

  /** The document `set` stores: `data`, plus `_last_index` when the index is set and numeric. */
  function WithLastIndex(data: Payload, lastIndex: Value): (doc: Payload)
    ensures IsNumeric(lastIndex) ==> doc.Keys == data.Keys + {LastIndexKey} && doc[LastIndexKey] == lastIndex
    ensures !IsNumeric(lastIndex) ==> doc == data
    ensures forall k :: k in data && k != LastIndexKey ==> k in doc && doc[k] == data[k]
  {
    if lastIndex != Null && IsNumeric(lastIndex) then data[LastIndexKey := lastIndex] else data
  }

  /** The table after `set($data, $lastIndex)`: the selected row's payload gets this
      wizard's namespace replaced by the new document; a missing row is created. */
  function SetTable(table: Table, name: string, ctx: Context, data: Payload, lastIndex: Value): (t': Table)
    ensures t'.Keys == table.Keys + {Resolve(ctx)}
    ensures Isset(t'[Resolve(ctx)], name)
  {
    var id := Resolve(ctx);
    var doc := Arr(WithLastIndex(data, lastIndex));
    if id in table then table[id := table[id][name := doc]]
    else table[id := map[name := doc]]
  }

  /** The document `put($key, $value)` hands to `set`: `Arr::set` applied to what
      `get($key)` returned. None when PHP raises an Error (a scalar such as the 0 that
      stands for a missing namespace cannot be indexed). */
  function PutDocument(table: Table, name: string, ctx: Context, key: string, value: Payload): (r: Option<Payload>)
    ensures Resolve(ctx) !in table ==> r.Some?
    ensures Resolve(ctx) in table && !Isset(table[Resolve(ctx)], name) ==> r.None?
    ensures r.Some? ==> Walk(Arr(r.value), Explode(key)) == Arr(value)
  {
    ArrSet(Get(table, name, ctx, key), key, Arr(value))
  }

  /** The document `put` evidently means to store: the current namespace (or an empty
      one) with `value` written at the dotted path `key`. */
  function IntendedPutDocument(table: Table, name: string, ctx: Context, key: string, value: Payload): (doc: Payload)
    ensures Walk(Arr(doc), Explode(key)) == Arr(value)
  {
    var current := Get(table, name, ctx, "");
    var base := if current.Arr? then current.fields else map[];
    WalkSetIn(base, Explode(key), Arr(value));
    SetIn(base, Explode(key), Arr(value))
  }

  /** The table after `clear()`: the row goes when this wizard is its only namespace,
      only the namespace goes when there are siblings, and nothing changes otherwise
      (including when there is no row). */
  function ClearTable(table: Table, name: string, ctx: Context): (t': Table)
    ensures t'.Keys <= table.Keys
    ensures forall id :: id in t' ==> t'[id].Keys <= table[id].Keys
    ensures !(Resolve(ctx) in t' && Isset(t'[Resolve(ctx)], name))
  {
    var id := Resolve(ctx);
    if id !in table then table
    else
      var payload := table[id];
      if Isset(payload, name) && |payload| == 1 then table - {id}
      else if Isset(payload, name) then table[id := payload - {name}]
      else table
  }

  /** Tables that differ at most in the row of `id`. */
  ghost predicate SameOutside(t: Table, t': Table, id: Identity)
  {
    forall other :: other != id ==> (other in t <==> other in t') && (other in t ==> t[other] == t'[other])
  }

  /** The store for one wizard: `name` is fixed at construction, `table` is the backing table. */
  class DatabaseStore {
    const name: string
    var table: Table

    constructor(name: string, rows: Table)
      ensures this.name == name && table == rows
    {
      this.name := name;
      table := rows;
    }

    /** `set($data, $lastIndex)`: read the row, merge, upsert. */
    method Set(ctx: Context, data: Payload, lastIndex: Value)
      modifies this
      ensures table == SetTable(old(table), name, ctx, data, lastIndex)
      ensures SameOutside(old(table), table, Resolve(ctx))
      ensures Get(table, name, ctx, "") == Arr(WithLastIndex(data, lastIndex))
    {
      var doc := data;
      if lastIndex != Null && IsNumeric(lastIndex) {
        doc := doc[LastIndexKey := lastIndex];
      }
      var id := Resolve(ctx);
      if id in table {
        table := table[id := table[id][name := Arr(doc)]];
      } else {
        table := table[id := map[name := Arr(doc)]];
      }
    }

    /** `put($key, $value, $lastIndex)` as written: `Arr::set` on `get($key)`, then `set`.
        `ok` is false when PHP raises an Error before anything is written. */
    method Put(ctx: Context, key: string, value: Payload, lastIndex: Value) returns (ok: bool)
      modifies this
      ensures ok <==> PutDocument(old(table), name, ctx, key, value).Some?
      ensures ok ==> table == SetTable(old(table), name, ctx, PutDocument(old(table), name, ctx, key, value).value, lastIndex)
      ensures !ok ==> table == old(table)
      ensures SameOutside(old(table), table, Resolve(ctx))
    {
      var current := Get(table, name, ctx, key);
      var doc := ArrSet(current, key, Arr(value));
      if doc.None? {
        return false;
      }
      Set(ctx, doc.value, lastIndex);
      ok := true;
    }

    /** `put` as evidently intended: `Arr::set` on the whole namespace, then `set`. */
    method PutIntended(ctx: Context, key: string, value: Payload, lastIndex: Value)
      modifies this
      ensures table == SetTable(old(table), name, ctx, IntendedPutDocument(old(table), name, ctx, key, value), lastIndex)
      ensures SameOutside(old(table), table, Resolve(ctx))
    {
      var current := Get(table, name, ctx, "");
      var base := if current.Arr? then current.fields else map[];
      Set(ctx, SetIn(base, Explode(key), Arr(value)), lastIndex);
    }

    /** `clear()`: delete the row, or drop this wizard's namespace and upsert the rest. */
    method Clear(ctx: Context)
      modifies this
      ensures table == ClearTable(old(table), name, ctx)
      ensures SameOutside(old(table), table, Resolve(ctx))
    {
      var id := Resolve(ctx);
      if id !in table {
        return;
      }
      var payload := table[id];
      if Isset(payload, name) && |payload| == 1 {
        table := table - {id};
      } else if Isset(payload, name) {
        table := table[id := payload - {name}];
      }
    }
  }
}
