/**
  What the wizard step store promises, stated over the table transitions that the
  `DatabaseStore` methods are proved to perform.
 */
module StoreProperties {
  import opened Php
  import opened WizardStore

  // ---------------------------------------------------------------------------
  // Identity selection
  // ---------------------------------------------------------------------------

  /** A truthy user id selects the `user_id` row, anything else the `ip_address` row.
      This only spells out the cases of `Resolve`; what follows from it for reads and
      writes is proved in `ReadsOutsideChangedRow` and `IdentitySwitchIsolation`. */
  lemma IdentitySelection(ctx: Context)
    ensures LoggedIn(ctx) ==> Resolve(ctx) == ByUser(ctx.userId.value)
    ensures !LoggedIn(ctx) ==> Resolve(ctx) == ByIp(ctx.ip)
    ensures ctx.userId == Some(0) ==> Resolve(ctx) == ByIp(ctx.ip)
  {
  }

  /** Reads see only the selected row: two tables that agree on it read the same. */
  lemma GetSeesOnlySelectedRow(t: Table, t': Table, name: string, ctx: Context, key: string)
    requires Resolve(ctx) in t <==> Resolve(ctx) in t'
    requires Resolve(ctx) in t ==> t[Resolve(ctx)] == t'[Resolve(ctx)]
    ensures Get(t, name, ctx, key) == Get(t', name, ctx, key)
  {
  }

  /** A change confined to one row is invisible to reads that select another row. */
  lemma ReadsOutsideChangedRow(t: Table, t': Table, id: Identity, name: string, ctx: Context, key: string)
    requires SameOutside(t, t', id)
    requires Resolve(ctx) != id
    ensures Get(t', name, ctx, key) == Get(t, name, ctx, key)
  {
    var other := Resolve(ctx);
    assert other in t <==> other in t';
    GetSeesOnlySelectedRow(t, t', name, ctx, key);
  }

  /** A write made after logging in (or out) is invisible to reads under the other identity. */
  lemma IdentitySwitchIsolation(t: Table, name: string, anon: Context, user: Context, data: Payload, lastIndex: Value, key: string)
    requires !LoggedIn(anon) && LoggedIn(user)
    ensures Resolve(anon) != Resolve(user)
    ensures Get(SetTable(t, name, user, data, lastIndex), name, anon, key) == Get(t, name, anon, key)
    ensures Get(ClearTable(t, name, user), name, anon, key) == Get(t, name, anon, key)
    ensures Get(SetTable(t, name, anon, data, lastIndex), name, user, key) == Get(t, name, user, key)
    ensures Get(ClearTable(t, name, anon), name, user, key) == Get(t, name, user, key)
  {
    SetTouchesOnlySelectedRow(t, name, user, data, lastIndex);
    ReadsOutsideChangedRow(t, SetTable(t, name, user, data, lastIndex), Resolve(user), name, anon, key);
    ClearTouchesOnlySelectedRow(t, name, user);
    ReadsOutsideChangedRow(t, ClearTable(t, name, user), Resolve(user), name, anon, key);
    SetTouchesOnlySelectedRow(t, name, anon, data, lastIndex);
    ReadsOutsideChangedRow(t, SetTable(t, name, anon, data, lastIndex), Resolve(anon), name, user, key);
    ClearTouchesOnlySelectedRow(t, name, anon);
    ReadsOutsideChangedRow(t, ClearTable(t, name, anon), Resolve(anon), name, user, key);
  }

  // ---------------------------------------------------------------------------
  // get, getLastProcessedIndex, has
  //
  // The three lemmas below spell out the reader cases of `Get` one by one; they are
  // statements of its definition rather than proofs. The facts that relate `Get` to the
  // writers are `GetSeesOnlySelectedRow`, `SetThenGet` and the lemmas after them.
  // ---------------------------------------------------------------------------

  /** Without a row every key reads absent, `_last_index` included, and `has` is false. */
  lemma GetWithoutRow(t: Table, name: string, ctx: Context, key: string)
    requires Resolve(ctx) !in t
    ensures Get(t, name, ctx, key) == Null
    ensures LastProcessedIndex(t, name, ctx) == Null
    ensures !Has(t, name, ctx, key)
  {
  }

  /** A row without this wizard's namespace reads 0 for every key, so `has` is true. */
  lemma GetWithoutNamespace(t: Table, name: string, ctx: Context, key: string)
    requires Resolve(ctx) in t && !Isset(t[Resolve(ctx)], name)
    ensures Get(t, name, ctx, key) == Int(0)
    ensures LastProcessedIndex(t, name, ctx) == Int(0)
    ensures Has(t, name, ctx, key)
  {
  }

  /** With the namespace present, a falsy key reads the whole sub-document and any other
      key reads the dotted path; `has` holds exactly when that value is not null. */
  lemma GetWithNamespace(t: Table, name: string, ctx: Context, key: string)
    requires Resolve(ctx) in t && Isset(t[Resolve(ctx)], name)
    ensures Get(t, name, ctx, "") == t[Resolve(ctx)][name]
    ensures Get(t, name, ctx, "0") == t[Resolve(ctx)][name]
    ensures TruthyString(key) ==> Get(t, name, ctx, key) == ArrGet(t[Resolve(ctx)][name], key)
    ensures TruthyString(key) ==> (Has(t, name, ctx, key) <==> ArrGet(t[Resolve(ctx)][name], key) != Null)
  {
  }

  // ---------------------------------------------------------------------------
  // set
  // ---------------------------------------------------------------------------

  /** `set` touches the selected row only. */
  lemma SetTouchesOnlySelectedRow(t: Table, name: string, ctx: Context, data: Payload, lastIndex: Value)
    ensures SameOutside(t, SetTable(t, name, ctx, data, lastIndex), Resolve(ctx))
  {
  }

  /** `set` replaces this wizard's namespace wholesale and keeps every sibling namespace;
      without a row it creates one holding this namespace only. */
  lemma SetReplacesNamespace(t: Table, name: string, ctx: Context, data: Payload, lastIndex: Value)
    ensures var t' := SetTable(t, name, ctx, data, lastIndex);
      && Resolve(ctx) in t'
      && t'[Resolve(ctx)][name] == Arr(WithLastIndex(data, lastIndex))
      && (Resolve(ctx) !in t ==> t'[Resolve(ctx)].Keys == {name})
      && (Resolve(ctx) in t ==> t'[Resolve(ctx)].Keys == t[Resolve(ctx)].Keys + {name})
      && (Resolve(ctx) in t ==> forall k :: k in t[Resolve(ctx)] && k != name ==> t'[Resolve(ctx)][k] == t[Resolve(ctx)][k])
  {
  }

  /** Set-then-get: the whole sub-document reads back as the stored document, and every
      truthy key reads its dotted path in it. */
  lemma SetThenGet(t: Table, name: string, ctx: Context, data: Payload, lastIndex: Value, key: string)
    ensures Get(SetTable(t, name, ctx, data, lastIndex), name, ctx, "") == Arr(WithLastIndex(data, lastIndex))
    ensures TruthyString(key) ==>
      Get(SetTable(t, name, ctx, data, lastIndex), name, ctx, key) == ArrGet(Arr(WithLastIndex(data, lastIndex)), key)
  {
  }

  /** After `set(data, n)` the last processed index is `n` when `n` is numeric, and null
      when neither `n` nor `data` supplies one. */
  lemma SetThenLastIndex(t: Table, name: string, ctx: Context, data: Payload, lastIndex: Value)
    ensures IsNumeric(lastIndex) ==> LastProcessedIndex(SetTable(t, name, ctx, data, lastIndex), name, ctx) == lastIndex
    ensures !IsNumeric(lastIndex) && LastIndexKey !in data ==> LastProcessedIndex(SetTable(t, name, ctx, data, lastIndex), name, ctx) == Null
  {
    if !IsNumeric(lastIndex) && LastIndexKey !in data {
      assert '.' !in LastIndexKey;
    }
  }

  /** `set` under one wizard leaves what another wizard reads from an existing row unchanged. */
  lemma SetIsolatesNamespaces(t: Table, name: string, other: string, ctx: Context, data: Payload, lastIndex: Value, key: string)
    requires name != other
    requires Resolve(ctx) in t
    ensures Get(SetTable(t, name, ctx, data, lastIndex), other, ctx, key) == Get(t, other, ctx, key)
  {
  }

  /** Namespace isolation stops at row creation: on an identity with no row, the first
      `set` of one wizard turns another wizard's reads from null to 0 and its `has`
      from false to true. */
  lemma SetCreatesRowVisibleToOtherWizards(t: Table, name: string, other: string, ctx: Context, data: Payload, lastIndex: Value, key: string)
    requires name != other
    requires Resolve(ctx) !in t
    ensures Get(t, other, ctx, key) == Null && !Has(t, other, ctx, key)
    ensures LastProcessedIndex(t, other, ctx) == Null
    ensures Get(SetTable(t, name, ctx, data, lastIndex), other, ctx, key) == Int(0)
    ensures Has(SetTable(t, name, ctx, data, lastIndex), other, ctx, key)
    ensures LastProcessedIndex(SetTable(t, name, ctx, data, lastIndex), other, ctx) == Int(0)
  {
  }

  // ---------------------------------------------------------------------------
  // clear
  // ---------------------------------------------------------------------------

  /** ... and at row deletion: clearing a wizard that is the row's only namespace turns
      every other wizard's reads from 0 back to null and its `has` back to false. */
  lemma ClearDeletesRowVisibleToOtherWizards(t: Table, name: string, other: string, ctx: Context, key: string)
    requires name != other
    requires Resolve(ctx) in t && Isset(t[Resolve(ctx)], name) && |t[Resolve(ctx)]| == 1
    ensures Get(t, other, ctx, key) == Int(0) && Has(t, other, ctx, key)
    ensures LastProcessedIndex(t, other, ctx) == Int(0)
    ensures Get(ClearTable(t, name, ctx), other, ctx, key) == Null
    ensures !Has(ClearTable(t, name, ctx), other, ctx, key)
    ensures LastProcessedIndex(ClearTable(t, name, ctx), other, ctx) == Null
  {
    SoleKey(t[Resolve(ctx)], name);
  }

  /** A one-entry payload holding `name` holds nothing else. */
  lemma SoleKey(p: Payload, name: string)
    requires name in p && |p| == 1
    ensures p.Keys == {name}
  {
    var rest := p.Keys - {name};
    assert |rest| == |p.Keys| - 1;
  }

  /** `clear` touches the selected row only. */
  lemma ClearTouchesOnlySelectedRow(t: Table, name: string, ctx: Context)
    ensures SameOutside(t, ClearTable(t, name, ctx), Resolve(ctx))
  {
  }

  /** The three ways of `clear`: the sole namespace takes the row with it; a namespace
      with siblings goes alone; a missing namespace (or row) changes nothing. */
  lemma ClearCases(t: Table, name: string, ctx: Context)
    ensures var id := Resolve(ctx); var t' := ClearTable(t, name, ctx);
      && (id in t && Isset(t[id], name) && |t[id]| == 1 ==> id !in t')
      && (id in t && Isset(t[id], name) && |t[id]| != 1 ==>
            id in t' && t'[id].Keys == t[id].Keys - {name} && |t'[id]| == |t[id]| - 1 >= 1 &&
            forall k :: k in t'[id] ==> t'[id][k] == t[id][k])
      && (id !in t || !Isset(t[id], name) ==> t' == t)
  {
    var id := Resolve(ctx);
    if id in t && Isset(t[id], name) && |t[id]| != 1 {
      assert name in t[id];
      assert |t[id]| >= 2;
    }
  }

  /** After `clear` this wizard reads as fresh: absent if the row went, 0 if it stayed. */
  lemma ClearThenGet(t: Table, name: string, ctx: Context, key: string)
    requires Resolve(ctx) in t && Isset(t[Resolve(ctx)], name)
    ensures |t[Resolve(ctx)]| == 1 ==> Get(ClearTable(t, name, ctx), name, ctx, key) == Null
    ensures |t[Resolve(ctx)]| != 1 ==> Get(ClearTable(t, name, ctx), name, ctx, key) == Int(0)
  {
  }

  /** `clear` keeps what every sibling wizard with data reads. */
  lemma ClearIsolatesNamespaces(t: Table, name: string, other: string, ctx: Context, key: string)
    requires name != other
    requires Resolve(ctx) in t && Isset(t[Resolve(ctx)], other)
    ensures Get(ClearTable(t, name, ctx), other, ctx, key) == Get(t, other, ctx, key)
  {
    var p := t[Resolve(ctx)];
    if Isset(p, name) {
      var rest := p.Keys - {name};
      assert other in rest;
      assert |rest| == |p| - 1;
    }
  }

  /** Clearing twice is clearing once. */
  lemma ClearIdempotent(t: Table, name: string, ctx: Context)
    ensures ClearTable(ClearTable(t, name, ctx), name, ctx) == ClearTable(t, name, ctx)
  {
  }

  // ---------------------------------------------------------------------------
  // Rows are never left empty
  // ---------------------------------------------------------------------------

  /** No row holds an empty payload. */
  ghost predicate NoEmptyRows(t: Table)
  {
    forall id :: id in t ==> |t[id]| > 0
  }

  /** `set` and `clear` never leave a row with an empty payload behind. */
  lemma WritesKeepRowsNonEmpty(t: Table, name: string, ctx: Context, data: Payload, lastIndex: Value)
    requires NoEmptyRows(t)
    ensures NoEmptyRows(SetTable(t, name, ctx, data, lastIndex))
    ensures NoEmptyRows(ClearTable(t, name, ctx))
  {
    SetKeepsRowsNonEmpty(t, name, ctx, data, lastIndex);
    ClearKeepsRowsNonEmpty(t, name, ctx);
  }

  lemma SetKeepsRowsNonEmpty(t: Table, name: string, ctx: Context, data: Payload, lastIndex: Value)
    requires NoEmptyRows(t)
    ensures NoEmptyRows(SetTable(t, name, ctx, data, lastIndex))
  {
    var t' := SetTable(t, name, ctx, data, lastIndex);
    SetTouchesOnlySelectedRow(t, name, ctx, data, lastIndex);
    forall id | id in t'
      ensures |t'[id]| > 0
    {
      if id == Resolve(ctx) {
        assert name in t'[id].Keys;
      } else {
        assert t'[id] == t[id];
      }
    }
  }

  lemma ClearKeepsRowsNonEmpty(t: Table, name: string, ctx: Context)
    requires NoEmptyRows(t)
    ensures NoEmptyRows(ClearTable(t, name, ctx))
  {
    var id := Resolve(ctx);
    if id in t && Isset(t[id], name) && |t[id]| != 1 {
      ClearCases(t, name, ctx);
    }
  }

  // ---------------------------------------------------------------------------
  // put
  // ---------------------------------------------------------------------------

  /** `put` as written, with a dotted key `step.sub` whose leaf is not there yet (the
      first `put` of a field into an existing step): `get("step.sub")` is null, so
      `Arr::set` builds a fresh `{step: {sub: value}}` and `set` stores that as the whole
      namespace. Every other field of `step` and every other step is lost. */
  lemma PutAsWrittenDropsSiblings(t: Table, name: string, ctx: Context, step: string, sub: string, value: Payload, lastIndex: Value)
    requires '.' !in step && '.' !in sub
    requires Resolve(ctx) in t && name in t[Resolve(ctx)] && t[Resolve(ctx)][name].Arr?
    requires var ns := t[Resolve(ctx)][name].fields;
      step + "." + sub !in ns && step in ns && ns[step].Arr? && sub !in ns[step].fields
    requires !IsNumeric(lastIndex)
    ensures var key := step + "." + sub;
      && PutDocument(t, name, ctx, key, value).Some?
      && Get(SetTable(t, name, ctx, PutDocument(t, name, ctx, key, value).value, lastIndex), name, ctx, "")
         == Arr(map[step := Arr(map[sub := Arr(value)])])
  {
    var key := step + "." + sub;
    var ns := t[Resolve(ctx)][name];
    ExplodeFirstSegment(step, sub);
    assert Explode(sub) == [sub];
    var path := [step, sub];
    assert Explode(key) == path;
    assert '.' in key by { assert key[|step|] == '.'; }
    assert TruthyString(key) && key != LastIndexKey by {
      assert '.' !in "0";
      assert '.' !in LastIndexKey;
    }
    assert Walk(ns, path) == Null by {
      assert path[1..] == [sub];
    }
    assert Get(t, name, ctx, key) == Null;
    assert path[1..] == [sub];
    assert SetIn(map[], path, Arr(value)) == map[step := Arr(map[sub := Arr(value)])];
  }

  /** The reserved key has no dot, so it is a single path segment. */
  lemma ExplodeLastIndexKey()
    ensures Explode(LastIndexKey) == [LastIndexKey]
  {
    assert '.' !in LastIndexKey;
  }

  /** The document `set` stores after the corrected `put` still reads back the value put. */
  lemma StoredPutReadsBack(base: Payload, key: string, x: Value, lastIndex: Value)
    requires '.' in key ==> key !in base
    requires IsNumeric(lastIndex) ==> Explode(key)[0] != LastIndexKey
    ensures ArrGet(Arr(WithLastIndex(SetIn(base, Explode(key), x), lastIndex)), key) == x
  {
    var doc := SetIn(base, Explode(key), x);
    ArrGetAfterSetIn(base, key, x);
    if IsNumeric(lastIndex) {
      ExplodeLastIndexKey();
      ArrGetAfterOtherUpdate(doc, LastIndexKey, lastIndex, key);
    }
  }

  /** `put` as intended reads back: after it, `get($key)` returns the value put, as long as
      the key is truthy, does not start with the reserved `_last_index` segment when a
      numeric index is injected, and is not shadowed by a literal dotted key. */
  lemma IntendedPutRoundTrip(t: Table, name: string, ctx: Context, key: string, value: Payload, lastIndex: Value)
    requires TruthyString(key)
    requires IsNumeric(lastIndex) ==> Explode(key)[0] != LastIndexKey
    requires Get(t, name, ctx, "").Arr? && '.' in key ==> key !in Get(t, name, ctx, "").fields
    ensures Get(SetTable(t, name, ctx, IntendedPutDocument(t, name, ctx, key, value), lastIndex), name, ctx, key) == Arr(value)
  {
    var ns := Get(t, name, ctx, "");
    var base := if ns.Arr? then ns.fields else map[];
    var doc := IntendedPutDocument(t, name, ctx, key, value);
    assert doc == SetIn(base, Explode(key), Arr(value));
    SetThenGet(t, name, ctx, doc, lastIndex, key);
    StoredPutReadsBack(base, key, Arr(value), lastIndex);
  }

  /** `put` as intended leaves every diverging path of an existing namespace as it was. */
  lemma IntendedPutKeepsOtherPaths(t: Table, name: string, ctx: Context, key: string, value: Payload, lastIndex: Value, other: string)
    requires Resolve(ctx) in t && Isset(t[Resolve(ctx)], name) && t[Resolve(ctx)][name].Arr?
    requires TruthyString(other)
    requires Diverge(Explode(key), Explode(other))
    requires IsNumeric(lastIndex) ==> Explode(other)[0] != LastIndexKey && other != LastIndexKey
    ensures Get(SetTable(t, name, ctx, IntendedPutDocument(t, name, ctx, key, value), lastIndex), name, ctx, other)
         == Get(t, name, ctx, other)
  {
    var f := t[Resolve(ctx)][name].fields;
    var doc := IntendedPutDocument(t, name, ctx, key, value);
    assert doc == SetIn(f, Explode(key), Arr(value));
    SetThenGet(t, name, ctx, doc, lastIndex, other);
    ArrGetAfterSetInOther(f, key, Arr(value), other);
    if IsNumeric(lastIndex) {
      ArrGetAfterOtherUpdate(doc, LastIndexKey, lastIndex, other);
    }
  }
}
