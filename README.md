# Wizard step store, modelled in Dafny

This project models `DatabaseStore`, the persistence layer of a multi-step form
wizard. The store keeps each visitor's in-progress wizard data in one table row. The row
is selected by the logged-in user's id, or by the client IP address when nobody is
logged in. The row's payload maps each wizard name (the namespace) to that wizard's
sub-document. The sub-document also carries the reserved key `_last_index`, the last
processed step.

The model replaces the database, the auth guard and the request with plain values:

- The backing table is a `map<Identity, Payload>`. An `Identity` is `ByUser(id)` or
  `ByIp(ip)`. A `Payload` is the already-decoded JSON object, a
  `map<string, Value>`.
- The request is a `Context`: the guard's user id (`Option<int>`) and the client IP.
  Every operation resolves the identity from it afresh (`WizardStore.Resolve`). A PHP-truthy
  id (present and not 0) selects the `user_id` row. Otherwise the `ip_address` row is used.
- The readers `get`, `getLastProcessedIndex` and `has` are the functions `Get`,
  `LastProcessedIndex` and `Has` of the table. The writers `set`, `put` and `clear` are
  methods of the class `WizardStore.DatabaseStore`, which holds the table. Each method is
  proved to leave the table equal to a transition function (`SetTable`, `PutDocument`
  plus `SetTable`, `ClearTable`) applied to the old table. It is also proved to change no
  row other than the selected one.
- PHP and Laravel semantics the store depends on live in module `Php`: `isset`, string
  truthiness, `is_numeric`, `explode('.', …)` and the dotted-path helpers `Arr::get`
  and `Arr::set`.

Files: `php.dfy` (module `Php`), `store.dfy` (module `WizardStore`), `properties.dfy`
(module `StoreProperties`, the lemmas).

Three behaviours of the code that a reader might not expect; the model follows the code:

- With no row, `get('_last_index')` returns null, not 0. The early return for a missing
  row comes before the `_last_index` special case.
- `put` applies `Arr::set` to `get($key)`, not to the whole namespace (see Findings).
- `clear` with no row dereferences a missing row. In PHP 8 that is a warning that yields
  a null payload, and neither branch is taken. It is modelled as a no-op.

Wizards sharing a row are isolated only while the row exists. A `set` or `clear` under
one wizard leaves what another wizard reads from an existing row unchanged. But the first
`set` on an identity with no row creates the row, and the other wizards' reads turn from
null to 0. Clearing a wizard that is the row's only namespace deletes the row, and their
reads turn back to null.

## Model

| member | source | states |
|---|---|---|
| `WizardStore.LoggedIn` | src/DatabaseStore.php:173-176 | A missing id or an id of 0 is not a login; a login always has an id |
| `WizardStore.Resolve` | src/DatabaseStore.php:203-210 | The `user_id` row is selected exactly when the request is logged in, and then by that non-zero id; otherwise the `ip_address` row of the client IP |
| `WizardStore.Get` | src/DatabaseStore.php:63-78 | `get` is null only without a row or when a truthy key's path misses in a set namespace. With a row, a falsy key is never null, and a missing namespace reads 0 |
| `WizardStore.LastProcessedIndex` | src/DatabaseStore.php:85-88 | `getLastProcessedIndex` is null without a row and 0 without the namespace; otherwise it is the namespace's `_last_index` field, or null when that is absent |
| `WizardStore.Has` | src/DatabaseStore.php:138-143 | `has` is false for every key without a row. With a row it is true for every falsy key, and for every key when the namespace is missing |
| `WizardStore.SetTable` | src/DatabaseStore.php:97-115 | `set` creates the selected row when it is missing, adds no other row, and leaves this wizard's namespace set |
| `WizardStore.PutDocument` | src/DatabaseStore.php:127-128 | `put` as written succeeds when there is no row and fails (PHP Error) when the row lacks this namespace. On success the key's path leads to the value |
| `WizardStore.ClearTable` | src/DatabaseStore.php:150-166 | `clear` adds no row and no key to any row, and afterwards this wizard's namespace is not set |
| `Php.IsNumeric` | src/DatabaseStore.php:99 | Integers and non-empty digit strings are numeric; a numeric value is an integer or a string ending in a digit |
| `Php.ArrGet` | src/DatabaseStore.php:77 | `Arr::get` on a non-array is null. A dot-free key is a plain lookup, and a key that is not a literal entry follows its dotted path |
| `Php.SetIn` | src/DatabaseStore.php:128 | The write loop of `Arr::set` adds only the first path segment at the top level and keeps every other top-level entry |
| `StoreProperties.IdentitySelection` | src/DatabaseStore.php:203-210 | A truthy user id selects the `user_id` row; no id or an id of 0 selects the `ip_address` row |
| `StoreProperties.GetSeesOnlySelectedRow` | src/DatabaseStore.php:63-78 | `get` depends only on the selected row: two tables that agree on it give the same result for every key |
| `StoreProperties.ReadsOutsideChangedRow` | src/DatabaseStore.php:203-210 | A change confined to one row does not change what `get` returns under any identity that selects another row |
| `StoreProperties.IdentitySwitchIsolation` | src/DatabaseStore.php:173-186 | A logged-in and an anonymous request select different rows. A `set` or `clear` under one leaves what `get` returns under the other unchanged |
| `StoreProperties.GetWithoutRow` | src/DatabaseStore.php:63-69 | With no row, `get` returns null for every key, `_last_index` included, so `getLastProcessedIndex` is null and `has` is false |
| `StoreProperties.GetWithoutNamespace` | src/DatabaseStore.php:73-77 | When the row exists but this wizard's namespace is not set, `get` returns 0 for every key (and for `_last_index`), so `has` is true for every key |
| `StoreProperties.GetWithNamespace` | src/DatabaseStore.php:77 | When the namespace is set, the keys `""` and `"0"` return the whole sub-document, any other key returns `Arr::get` of the dotted path, and `has(key)` is true exactly when that value is non-null |
| `WizardStore.WithLastIndex` | src/DatabaseStore.php:99-101 | `_last_index = lastIndex` is added to the document exactly when `lastIndex` is numeric. Every other key keeps its value; otherwise the data is unchanged |
| `StoreProperties.SetTouchesOnlySelectedRow` | src/DatabaseStore.php:110-114 | `set` changes no row other than the one its identity selects |
| `StoreProperties.SetReplacesNamespace` | src/DatabaseStore.php:103-108 | After `set`, the namespace holds exactly the new document (no deep merge), every sibling namespace is unchanged, and a new row has this namespace as its only key |
| `StoreProperties.SetThenGet` | src/DatabaseStore.php:97-115 | After `set(data, n)`, `get('')` returns `data` plus `_last_index` (when `n` is numeric), and every truthy key reads its dotted path in that document |
| `StoreProperties.SetThenLastIndex` | src/DatabaseStore.php:85-88 | After `set(data, n)`, `getLastProcessedIndex` returns `n` when `n` is numeric. It returns null when neither `n` nor `data` supplies an index |
| `StoreProperties.SetIsolatesNamespaces` | src/DatabaseStore.php:105 | `set` under one wizard leaves what another wizard reads from an existing row unchanged |
| `WizardStore.DatabaseStore.constructor` | src/DatabaseStore.php:49-55 | The store is bound to its wizard name and starts from the given table |
| `WizardStore.DatabaseStore.Set` | src/DatabaseStore.php:97-115 | The new table is `SetTable` of the old one. Rows of other identities are untouched, and `get('')` returns the stored document |
| `WizardStore.DatabaseStore.Put` | src/DatabaseStore.php:125-130 | `put` as written: `ok` holds exactly when `Arr::set` on `get($key)` succeeds. If it does, the table is `set` of that document; if not (a scalar such as 0 cannot be indexed), the table is unchanged |
| `WizardStore.IntendedPutDocument` | src/DatabaseStore.php:127-129 | The corrected `put` document: the current namespace (or an empty one) with the value at the dotted path of `key` |
| `WizardStore.DatabaseStore.PutIntended` | src/DatabaseStore.php:125-130 | The corrected `put`: the table is `set` of `IntendedPutDocument`, and other identities are untouched |
| `StoreProperties.PutAsWrittenDropsSiblings` | src/DatabaseStore.php:127-129 | As written, `put("step.sub", v)` for a field not yet present replaces the whole namespace with `{step: {sub: v}}` |
| `StoreProperties.StoredPutReadsBack` | src/DatabaseStore.php:99-101 | Adding `_last_index` to the corrected `put` document does not disturb reading back the value put, unless the key's first segment is `_last_index` |
| `StoreProperties.IntendedPutRoundTrip` | src/DatabaseStore.php:125-130 | After the corrected `put(key, v)`, `get(key)` returns `v`. This needs a truthy key that is not shadowed by a literal dotted key and does not start with `_last_index` when a numeric index is injected |
| `StoreProperties.IntendedPutKeepsOtherPaths` | src/DatabaseStore.php:125-130 | The corrected `put` leaves what `get` returns for every diverging path of an existing namespace unchanged |
| `WizardStore.DatabaseStore.Clear` | src/DatabaseStore.php:150-166 | The new table is `ClearTable` of the old one, and rows of other identities are untouched |
| `StoreProperties.ClearTouchesOnlySelectedRow` | src/DatabaseStore.php:160-164 | `clear` changes no row other than the one its identity selects |
| `StoreProperties.ClearCases` | src/DatabaseStore.php:155-165 | `clear` has three cases. A sole namespace deletes the row. A namespace with siblings removes only its own key and keeps the siblings' values. A missing row or namespace changes nothing |
| `StoreProperties.ClearThenGet` | src/DatabaseStore.php:150-166 | After `clear`, this wizard reads as fresh: null for every key if the row went, 0 if it stayed |
| `StoreProperties.ClearIsolatesNamespaces` | src/DatabaseStore.php:157-164 | `clear` leaves what every other wizard with data reads from the row unchanged |
| `StoreProperties.ClearIdempotent` | src/DatabaseStore.php:150-166 | Clearing twice is the same as clearing once |
| `StoreProperties.SetCreatesRowVisibleToOtherWizards` | src/DatabaseStore.php:110-114 | On an identity with no row, one wizard's first `set` turns another wizard's `get` from null to 0, its `has` from false to true and its last index from null to 0 |
| `StoreProperties.ClearDeletesRowVisibleToOtherWizards` | src/DatabaseStore.php:155-156 | Clearing a wizard that is the row's only namespace turns every other wizard's `get` from 0 to null, its `has` from true to false and its last index from 0 to null |
| `StoreProperties.WritesKeepRowsNonEmpty` | src/DatabaseStore.php:155-158 | Neither `set` nor `clear` leaves a row with an empty payload |
| `Php.Explode` | src/DatabaseStore.php:77 | `explode('.', key)` yields at least one piece, no piece contains a dot, joining the pieces with dots gives back the key, and there is one piece exactly when the key has no dot |
| `Php.ExplodeFirstSegment` | src/DatabaseStore.php:77 | `explode` of `a.b` with dot-free `a` is `a` followed by `explode(b)` |
| `Php.ArrSet` | src/DatabaseStore.php:128 | `Arr::set` succeeds exactly on an array, null or false. The path of the key then leads to the value written |
| `Php.WalkSetIn` | src/DatabaseStore.php:128 | Following the path just written by `Arr::set` gives back the value |
| `Php.WalkSetInOther` | src/DatabaseStore.php:128 | Writing one path leaves every diverging path reading the same value as before |
| `Php.ArrGetAfterSetIn` | src/DatabaseStore.php:127-128 | `Arr::get` of a key returns what `Arr::set` wrote under it, unless a literal dotted key shadows it |
| `Php.ArrGetAfterSetInOther` | src/DatabaseStore.php:127-128 | `Arr::get` of a diverging key is unchanged by `Arr::set` |
| `Php.ArrGetAfterArrSet` | src/DatabaseStore.php:127-128 | `Arr::get` reads back what a successful `Arr::set` wrote, with the same proviso on literal dotted keys |

## Findings

| source | as written | input that shows it | evidently intended | confidence | as-written member | corrected member |
|---|---|---|---|---|---|---|
| src/DatabaseStore.php:127 | `put` reads `get($key)`, the value at the key, and passes the result of `Arr::set` on it to `set`, which replaces the whole namespace | namespace `{"step1": {"a": 1}}`, then `put("step1.b", {"x": 2})`: the namespace becomes `{"step1": {"b": {"x": 2}}}`, so `"a"` and any other step are lost. On a row without this namespace `get` returns 0 and `Arr::set` on 0 raises an Error | read the whole namespace (`get()`), set the value at the dotted path, store it back: other fields and steps are kept | medium, not executed | `StoreProperties.PutAsWrittenDropsSiblings` | `StoreProperties.IntendedPutRoundTrip` |

## Left out

- The database connection, the query builder, `first`, `updateOrInsert` and `delete`. They appear only as reading, updating and removing one key of the table map.
- The container, the auth guard and the request. They become the `Context` value. Within one call, the model resolves the identity once; the source asks the guard several times.
- User ids are integers. String ids and the database's loose comparison of `'5'` with `5` are not modelled.
- JSON encoding and decoding. This covers malformed payloads, JSON lists, numeric object keys, floats and key order. `clear` writes the raw array instead of JSON text, and that is not modelled either: payloads are decoded maps throughout.
- `array_merge` renumbering numeric keys. Wizard names are taken to be non-numeric strings, so the merge is a map update.
- `is_numeric` covers integers and optionally signed digit strings. Decimal, exponent and whitespace-padded numeric strings are not modelled.
- `Arr::set` on a string or other scalar is modelled as PHP 8 raising an Error, and `put` then writes nothing. Warnings and older PHP behaviour are not modelled.
- Concurrency: concurrent requests for the same identity race (last write wins). The duplicate row fetch in `get` and the connection lifecycle are not modelled either.
