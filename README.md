# In-memory table stores, modelled in Dafny

The repository is an in-memory database service. Its core is a handful of sequential table
stores, each a dictionary of tables, where each table maps record ids to records. It also has
pure validators and a lookup join, plus two service classes layered over an abstract record
store. This project models each of these as its own Dafny module:

- `BaseStore` (`backend/app/db/base.py`): a generic store of named tables. `create` refuses a
  duplicate id. `read`, `update` and `delete` refuse a missing id. `update` merges the new
  fields in place. `join` is a nested-loop equi-join.
- `CrudStore` (`backend/app/crud.py`): exactly the two tables `users` and `orders`. Any other
  name is a `KeyError`. Records are time-stamped. Deleting a user also deletes that user's
  orders. `join_tables` emits `{table1: r1, table2: r2}` rows.
- `ModelsStore` (`backend/app/models.py`) and `MemoryDbStore` (`backend/app/db/db.py`): the two
  typed stores, each with a `users` dict and an `orders` dict. Adding a record silently
  overwrites. Get and update answer `None` for a missing id. Deleting a user removes that
  user's orders. The user/order join skips orphan orders. `models.py` also has the order
  status validator.
- `Utils` (`backend/app/utils.py`): the table-name, record-data and join-parameter validators,
  and `perform_join`.
- `ServiceStore`, `OrderServices` and `UserServices` (`backend/app/services/*.py`):
  `OrderService` and `UserService` over an abstract `RecordStore`.

Shared modules:

- `Values`: Python values, truthiness, `str()`, dict get and the merge forms.
- `OrderedMaps`: insertion-ordered dictionaries.
- `Tables`: the owner relation between orders and users, and the user/order join row.
- `Wrappers`: `Option`, `Result` and `Outcome`.

Python dictionaries keep insertion order, and the joins and listings expose that order. A
table is therefore an ordered map (`OMap`): a sequence of distinct keys plus the key-to-record
map. Under this representation:

- assigning to a new key appends it;
- assigning to an existing key keeps its place;
- deleting keys filters the key sequence.

Other representation choices:

- A record is a `map<string, Value>`.
- A pydantic object is modelled by its field map.
- Python's `str()` is modelled by `PyStr`. The error messages are built from the same
  f-strings, so `str()` of the id appears in them.
- Raised exceptions are modelled as `Failure` results. A method that returns a Failure leaves
  the state unchanged.
- Ids, `uuid4()` and `datetime.now()`/`utcnow()` are parameters of the methods that need
  them.

Each store method is one atomic step. The asyncio locks in `base.py` only serialise
operations and are not modelled. Each method states its result and its whole new state. Its
partner lemmas say what that new state means: read-your-write, cascade, join membership in
both directions, ordering, last-wins and idempotence.

## Model

| member | source | states |
|---|---|---|
| BaseStore.InMemoryDB.constructor | backend/app/db/base.py:18-20 | the store starts with no tables, so every table reads as empty |
| BaseStore.InMemoryDB.Create | backend/app/db/base.py:22-27 | an id already in the table gives `DuplicateRecordError` and leaves every table unchanged; otherwise `data` is stored under the id and returned, and nothing else changes |
| BaseStore.InMemoryDB.Read | backend/app/db/base.py:29-32 | succeeds exactly when the id holds a non-empty record, and then returns that record; otherwise `RecordNotFoundError` |
| BaseStore.InMemoryDB.Update | backend/app/db/base.py:34-39 | a missing id gives `RecordNotFoundError` with nothing changed; otherwise the record becomes the old record overlaid by `data`, in the same place, and nothing else changes |
| BaseStore.InMemoryDB.Delete | backend/app/db/base.py:41-46 | a missing id gives `RecordNotFoundError`; otherwise exactly that record is removed from that table, with no cascade, and the result is `True` |
| BaseStore.InMemoryDB.List | backend/app/db/base.py:48-49 | the table's records in insertion order |
| BaseStore.InMemoryDB.Join | backend/app/db/base.py:51-59 | the nested loops produce exactly `NestedJoin` of the two tables' records |
| BaseStore.AppendMatches | backend/app/db/base.py:56-58 | the inner loop appends exactly `MatchesOf` for the record to the rows so far |
| BaseStore.InMemoryDB.ClearTable | backend/app/db/base.py:61-62 | the named table becomes empty and every other table is unchanged |
| BaseStore.CreateThenRead | backend/app/db/base.py:22-49 | after a successful create, read returns `data` when it is non-empty, and the listing is the old listing plus `data` |
| BaseStore.CreateEmptyThenRead | backend/app/db/base.py:29-32 | an empty record is stored by create, but because of the truthiness test read then reports it as not found |
| BaseStore.MatchesOfIff | backend/app/db/base.py:56-58 | a row is among one record's matches exactly when it is that record overlaid by a table2 record whose `key` equals the record's non-`None` key value |
| BaseStore.MatchesOfSnoc | backend/app/db/base.py:56-58 | one more table2 record appends `{**record1, **record2}` when its key matches, and nothing otherwise |
| BaseStore.NestedJoinSnoc | backend/app/db/base.py:53-58 | one more table1 record appends its matches, or nothing when its key value is `None` |
| BaseStore.NestedJoinHasPair | backend/app/db/base.py:51-59 | every pair whose `r1[key]` is not `None` and equals `r2.get(key)` yields the row `{**r1, **r2}` |
| BaseStore.NestedJoinOnlyPairs | backend/app/db/base.py:51-59 | every row of the join is `{**r1, **r2}` for such a matching pair |
| BaseStore.NestedJoinAppend | backend/app/db/base.py:53 | rows are grouped by table1 record in table1 order: the join of a concatenation is the concatenation of the joins |
| CrudStore.CrudDb.constructor | backend/app/crud.py:12 | the store starts with exactly the empty `users` and `orders` tables |
| CrudStore.CrudDb.AddRecord | backend/app/crud.py:19-32 | an unknown table gives `KeyError`, and a duplicate id gives `ValueError`, each with nothing changed; otherwise the record is stored with `created_at == updated_at == now` and its other fields kept |
| CrudStore.CrudDb.GetRecord | backend/app/crud.py:35-40 | an unknown table gives `KeyError`; otherwise the stored record, or `None` |
| CrudStore.CrudDb.UpdateRecord | backend/app/crud.py:43-57 | an unknown table or a missing id gives `KeyError` with nothing changed; otherwise the record becomes `{**current, **data}` with `updated_at` set to `now`, so fields absent from `data` persist |
| CrudStore.CrudDb.DeleteRecord | backend/app/crud.py:60-80 | unknown table or missing id gives `KeyError`; deleting an order removes only it; deleting a user also removes exactly the orders whose `user_id` is that id; the removed record is returned |
| CrudStore.CrudDb.JoinTables | backend/app/crud.py:83-102 | an unknown table gives `KeyError`, checked first; then `table1 == table2` gives `ValueError`; otherwise the rows are `PairJoin` of the two tables |
| CrudStore.CrudDb.DumpTable | backend/app/crud.py:105-110 | an unknown table gives `KeyError`; otherwise the records in insertion order |
| CrudStore.CrudDb.ClearTable | backend/app/crud.py:113-118 | an unknown table gives `KeyError` with nothing changed; otherwise that table becomes empty and the other is unchanged |
| CrudStore.MatchingIds | backend/app/crud.py:72-76 | the comprehension collects exactly the ids of the orders whose `user_id` equals the user id |
| CrudStore.MatchingIdsAreOwned | backend/app/crud.py:72-76 | the collected ids are the owner set `OwnedBy` of that user |
| CrudStore.PopEach | backend/app/crud.py:77-78 | popping each listed id removes exactly those ids and keeps the remaining order |
| CrudStore.PopOrdersOf | backend/app/crud.py:70-78 | the cascade leaves the orders table without exactly that user's orders |
| CrudStore.NestedPairJoin | backend/app/crud.py:91-102 | the nested loops produce exactly `PairJoin` |
| CrudStore.PairMatchesHas | backend/app/crud.py:97-100 | every table2 record that has the key with the same value yields a `{table1: r1, table2: r2}` row |
| CrudStore.PairMatchesOnly | backend/app/crud.py:97-100 | every row for r1 comes from such a table2 record |
| CrudStore.PairJoinHasPair | backend/app/crud.py:91-102 | every pair in which both records have the key with equal values yields a `{table1: r1, table2: r2}` row |
| CrudStore.PairJoinOnlyPairs | backend/app/crud.py:91-102 | every row comes from a pair in which both records have the key with equal values, so a table1 record lacking the key yields none |
| CrudStore.PairRowHoldsBoth | backend/app/crud.py:99 | for distinct table names, a row holds exactly the two records under their table names |
| Tables.OwnedBy | backend/app/models.py:157 | exactly the ids of the stored orders whose `user_id` is the given user id |
| Tables.CascadeKeepsOthers | backend/app/models.py:157 | after the cascade, an order is gone exactly when its `user_id` is the deleted id; every other order reads as before |
| Tables.UserOrderRowsSnoc | backend/app/models.py:175-188 | one more order appends its own row when its user exists, and nothing otherwise |
| Tables.UserOrderRowsOne | backend/app/models.py:175-188 | one order yields one row built from its user when that user exists, and nothing when it is an orphan |
| Tables.UserOrderRowsAppend | backend/app/models.py:175 | the joined rows follow order iteration order (the join of a concatenation is the concatenation) |
| Tables.UserOrderRowsIff | backend/app/models.py:173-189 | a row is in the join exactly when some order whose user exists produced it from that user's and that order's fields |
| ModelsStore.ValidateStatus | backend/app/models.py:55-61 | an accepted status is returned unchanged; a rejected one is reported with its value |
| ModelsStore.ValidateStatusAccepts | backend/app/models.py:58-59 | exactly pending, processing, shipped, delivered and cancelled are accepted |
| ModelsStore.ValidateStatusExamples | backend/app/models.py:53-61 | the default `pending` is accepted, while `PENDING` is rejected |
| ModelsStore.StatusRejected | backend/app/models.py:148 | rebuilding the merged order fails exactly when it holds a string `status` outside the five allowed ones |
| ModelsStore.NewUserRecord | backend/app/models.py:119-121 | a `User` built from a `UserCreate` has the base fields, the fresh id and both timestamps, and no `password` |
| ModelsStore.InMemoryDB.constructor | backend/app/models.py:114-116 | the store starts with empty `users` and `orders` |
| ModelsStore.InMemoryDB.AddUser | backend/app/models.py:118-123 | the user (built from a `UserCreate` or given) is stored under its own id, overwriting any user with that id; orders unchanged |
| ModelsStore.InMemoryDB.AddOrder | backend/app/models.py:125-127 | the order is stored under its own id, overwriting any order with that id; users unchanged |
| ModelsStore.InMemoryDB.GetUser | backend/app/models.py:129-130 | the stored user or `None`, with no state change |
| ModelsStore.InMemoryDB.GetOrder | backend/app/models.py:132-133 | the stored order or `None`, with no state change |
| ModelsStore.InMemoryDB.UpdateUser | backend/app/models.py:135-142 | a missing id gives `None` with nothing changed; otherwise the user's fields overridden by the supplied ones are stored in place; orders unchanged |
| ModelsStore.InMemoryDB.UpdateOrder | backend/app/models.py:144-151 | a missing id gives `None` with nothing changed; a merged status the validator rejects gives its error with nothing changed; otherwise the merged order is stored in place |
| ModelsStore.InMemoryDB.DeleteUser | backend/app/models.py:153-159 | `True` exactly when the user existed; then the user and exactly that user's orders are removed; otherwise nothing changes |
| ModelsStore.InMemoryDB.DeleteOrder | backend/app/models.py:161-165 | `True` exactly when the order existed, and then only it is removed; users never change |
| ModelsStore.InMemoryDB.ListUsers | backend/app/models.py:167-168 | the users in insertion order |
| ModelsStore.InMemoryDB.ListOrders | backend/app/models.py:170-171 | the orders in insertion order |
| ModelsStore.InMemoryDB.JoinUserOrders | backend/app/models.py:173-189 | the loop produces `UserOrderRows` of the orders, with the price from `total_price` |
| ModelsStore.AddUserThenGet | backend/app/models.py:118-130 | an added user reads back; one built from a `UserCreate` has the fresh id and no password |
| ModelsStore.DeleteUserCascades | backend/app/models.py:153-159 | after deleting a user, their orders are gone and every other order reads as before |
| MemoryDbStore.FillDefaults | backend/app/db/db.py:46-49 | the id and `created_at` are replaced only when falsy; every other attribute is kept |
| MemoryDbStore.FillDefaultsKeepsSet | backend/app/db/db.py:44-51 | a record that already has a truthy id and creation time is stored exactly as given |
| MemoryDbStore.ApplyKnownAttributes | backend/app/db/db.py:83-86 | the `setattr` loop sets exactly the attributes the object already has, to the supplied values |
| MemoryDbStore.MergeKnownIdempotent | backend/app/db/db.py:83-86 | applying the same update twice equals applying it once |
| MemoryDbStore.MemoryDB.constructor | backend/app/db/db.py:11-13 | the store starts with empty `users` and `orders` |
| MemoryDbStore.MemoryDB.AddUser | backend/app/db/db.py:44-51 | the defaulted user is stored under its (always truthy) id, overwriting any user there; orders unchanged |
| MemoryDbStore.MemoryDB.AddOrder | backend/app/db/db.py:53-60 | the defaulted order is stored under its (always truthy) id, overwriting any order there; users unchanged |
| MemoryDbStore.MemoryDB.GetUser | backend/app/db/db.py:62-64 | the stored user or `None` |
| MemoryDbStore.MemoryDB.GetOrder | backend/app/db/db.py:66-68 | the stored order or `None` |
| MemoryDbStore.MemoryDB.ListUsers | backend/app/db/db.py:70-72 | the users in insertion order |
| MemoryDbStore.MemoryDB.ListOrders | backend/app/db/db.py:74-76 | the orders in insertion order |
| MemoryDbStore.MemoryDB.UpdateUser | backend/app/db/db.py:78-86 | a missing id gives `None` with nothing changed; otherwise only existing attributes are set, in place; orders unchanged |
| MemoryDbStore.MemoryDB.UpdateOrder | backend/app/db/db.py:88-96 | a missing id gives `None` with nothing changed; otherwise only existing attributes are set, in place; users unchanged |
| MemoryDbStore.MemoryDB.DeleteUser | backend/app/db/db.py:105-115 | `True` exactly when the user existed; then the user and exactly that user's orders are removed; otherwise nothing changes |
| MemoryDbStore.MemoryDB.DeleteOrder | backend/app/db/db.py:117-122 | `True` exactly when the order existed, and then only it is removed |
| MemoryDbStore.MemoryDB.JoinUserOrders | backend/app/db/db.py:125-143 | the loop produces `UserOrderRows` of the orders, with the order's `price` |
| MemoryDbStore.UpdateIgnoresUnknown | backend/app/db/db.py:78-86 | an update keeps the user's attribute set: unknown keys are not added, and known keys take the supplied values |
| Utils.Lower | backend/app/utils.py:27 | lower-casing keeps the length and maps each character through ASCII lower-casing |
| Utils.ValidateTableName | backend/app/utils.py:23-27 | fails, with the fixed message, exactly when the input is not a non-empty string; otherwise returns the lower-cased name |
| Utils.ValidateTableNameIdempotent | backend/app/utils.py:27 | an accepted name, once normalised, validates to itself |
| Utils.ValidateTableNameExamples | backend/tests/test_src/test_utils.py:46-56 | `ORDERS` becomes `orders` and `users` stays `users`, while the empty name and `None` are refused |
| Utils.ValidateRecordData | backend/app/utils.py:29-35 | a non-dict is refused, then an empty dict; any other dict is returned unchanged |
| Utils.ValidateJoinKey | backend/app/utils.py:37-49 | both names are validated first, then the raw names are compared, then the key must be truthy; the call passes exactly when both names are non-empty strings, the raw names differ and the key is truthy |
| Utils.ValidateJoinKeyRawNames | backend/app/utils.py:37-49 | `Users` against `users` passes the self-join test; the valid call of the join-key test passes, and its four refused calls (empty table1, empty table2, self-join, empty key) fail with their messages |
| Utils.LookupDomain | backend/app/utils.py:68 | the lookup holds a key text exactly when some table2 record has it |
| Utils.LookupLastWins | backend/app/utils.py:68 | the record found for a key text is the last table2 record with that text |
| Utils.Lookup | backend/app/utils.py:68 | every key text in the lookup maps to a table2 record whose key text it is |
| Utils.JoinRowsSnoc | backend/app/utils.py:71-75 | one more table1 record appends its own row, if its key text is in the lookup |
| Utils.JoinRowsOne | backend/app/utils.py:71-75 | one table1 record yields `{**record1, **match}` when its key text is in the lookup, and nothing otherwise |
| Utils.JoinRowsAppend | backend/app/utils.py:71 | rows follow table1 order |
| Utils.JoinRowsAtMost | backend/app/utils.py:71-75 | at most one row per table1 record |
| Utils.PerformJoin | backend/app/utils.py:51-77 | the loop produces `PerformJoinResult`, with at most one row per table1 record |
| Utils.MissingKeyMatchesMissing | backend/app/utils.py:68-73 | a record without the key matches a table2 record without it, and one holding the string `"None"` |
| Utils.LastDuplicateWins | backend/app/utils.py:68 | of two table2 records with the same key value, the later one is joined |
| Utils.PerformJoinDepartments | backend/tests/test_src/test_utils.py:118-134 | in the department join of the test's records (names included), the unmatched employee is dropped and the other two come out in order, each overlaid with its department |
| Utils.DepartmentLookup | backend/tests/test_src/test_utils.py:126-131 | the department lookup holds exactly `D1` and `D2`, each mapped to its record |
| Utils.PerformJoinDepartmentsFields | backend/tests/test_src/test_utils.py:131-138 | the join has two rows, the first with `name` John and `department` HR, the second with Jane and IT |
| ServiceStore.RecordStore.CreateRecord | backend/tests/test_src/test_db.py:50-57 | the record is stored under a new id, which is returned |
| ServiceStore.RecordStore.GetRecord | backend/tests/test_src/test_db.py:86-88 | the stored record, or `None` for a missing id |
| ServiceStore.RecordStore.UpdateRecord | backend/tests/test_src/test_db.py:59-67 | a missing id answers `False`; `True` means the record was merged with the data; `False` changes nothing |
| ServiceStore.RecordStore.DeleteRecord | backend/tests/test_src/test_db.py:69-91 | `True` exactly when the id was present, which is then removed |
| ServiceStore.RecordStore.ListRecords | backend/app/services/order_service.py:97 | the table's records in insertion order |
| Values.MergeStampedCovers | backend/app/services/order_service.py:54-65 | writing back an update's merged dict stores exactly that dict, because it covers the current record |
| OrderServices.NewOrderRecord | backend/app/services/order_service.py:21-27 | the stored order has the new string id, one instant as both `created_at` and `updated_at`, and the input fields |
| OrderServices.OrderService.constructor | backend/app/services/order_service.py:15-16 | the service works on the given store (its table is the constant `orders`) |
| OrderServices.OrderService.CreateOrder | backend/app/services/order_service.py:18-34 | the new order is stored under the store's new id and returned; the read-back cannot fail |
| OrderServices.OrderService.GetOrder | backend/app/services/order_service.py:36-41 | a missing or empty record gives `RecordNotFoundError("Order with ID … not found")`; otherwise the record |
| OrderServices.OrderService.UpdateOrder | backend/app/services/order_service.py:43-68 | not found gives `RecordNotFoundError` before any write; otherwise the record is the current one overlaid with the non-`None` fields and a fresh `updated_at`, or the store's `False` gives `DatabaseError` with nothing changed |
| OrderServices.OrderService.DeleteOrder | backend/app/services/order_service.py:70-75 | a present order is removed and the result is `True`; a missing one gives `RecordNotFoundError` |
| OrderServices.OrderService.GetUserOrders | backend/app/services/order_service.py:87-101 | the listed orders filtered by `OrdersForUser` |
| OrderServices.OrdersForUserSnoc | backend/app/services/order_service.py:98-100 | one more listed order is appended exactly when it is kept |
| OrderServices.OrdersForUserIff | backend/app/services/order_service.py:98-100 | an order is returned exactly when it is listed and `str(order.get("user_id")) == str(user_id)` |
| OrderServices.OrdersForUserAppend | backend/app/services/order_service.py:98-100 | the filter preserves list order |
| OrderServices.OrdersForUserMatchesText | backend/app/services/order_service.py:99 | a `user_id` stored as the id's text matches the UUID |
| OrderServices.UpdateKeepsFields | backend/app/services/order_service.py:53-58 | a field not supplied, or supplied as `None`, keeps its value |
| UserServices.NewUserRecord | backend/app/services/user_service.py:19-28 | the stored user has the new id, both timestamps and `hashed_password == "hashed_" + password`, with no `password` key |
| UserServices.BuildNewUser | backend/app/services/user_service.py:19-28 | the step-by-step edits build exactly that record |
| UserServices.HashedFields | backend/app/services/user_service.py:53-57 | a supplied password is replaced by `hashed_password = "hashed_" + password`; without one the fields are unchanged |
| UserServices.HashUpdate | backend/app/services/user_service.py:53-57 | the in-place edits compute exactly `HashedFields` |
| UserServices.UserUpdateRecord | backend/app/services/user_service.py:52-59 | the written record keeps every current field, gains a clear-text `password` only if the current record had one, and holds the new `updated_at` |
| UserServices.UserUpdateRecordFields | backend/app/services/user_service.py:52-59 | a supplied non-`None` password is stored as its hash, and every field not supplied keeps its value |
| UserServices.UserService.constructor | backend/app/services/user_service.py:14-15 | the service works on the given store (its table is the constant `users`) |
| UserServices.UserService.CreateUser | backend/app/services/user_service.py:16-35 | the new user record is stored under the store's new id and returned; the read-back cannot fail |
| UserServices.UserService.GetUser | backend/app/services/user_service.py:37-42 | a missing or empty record gives `RecordNotFoundError`; otherwise the record |
| UserServices.UserService.UpdateUser | backend/app/services/user_service.py:44-68 | not found gives `RecordNotFoundError` before any write; otherwise `UserUpdateRecord` is written, or the store's `False` gives `DatabaseError` with nothing changed |
| UserServices.UserService.DeleteUser | backend/app/services/user_service.py:70-75 | only the user record is removed, every other table (the user's orders included) is unchanged; a store `False` gives `RecordNotFoundError` |
| Sequences.FlatMapSnoc | backend/app/db/base.py:53-58 | an append loop over one more element emits the old rows followed by that element's rows |
| Sequences.FlatMapAppend | backend/app/db/base.py:53-58 | the rows of a loop over a concatenation are the rows of its parts, in order |
| Sequences.FlatMapIff | backend/app/utils.py:71-75 | a row is emitted exactly when some element contributes it |
| Sequences.FlatMapAtMostOne | backend/app/utils.py:71-75 | when each element contributes at most one row, there are at most as many rows as elements |
| OrderedMaps.PutNewAppends | backend/app/db/base.py:26 | storing under a new key appends the record to the listing |
| OrderedMaps.PutPresentKeepsPlace | backend/app/db/base.py:38 | replacing a present record keeps its place in the listing |
| OrderedMaps.RemoveKeysTwice | backend/app/crud.py:77-78 | removing one set of keys and then another equals removing both at once |
| Values.DropNone | backend/app/services/order_service.py:53 | keeps exactly the fields whose value is not `None`, with their values |
| Values.MergeStamped | backend/app/services/order_service.py:54-58 | every current field is kept unless the patch sets it, every patch field wins, and `updated_at` is the new time |
| Values.MergeKnown | backend/app/db/db.py:83-86 | the record keeps exactly its own fields, each taking the supplied value when one is supplied |
| Values.PyStrCollisions | backend/app/utils.py:68 | `str()` maps distinct values to one text: `None` and `"None"`, `1` and `"1"`, a UUID and its text |

## Left out

- The asyncio locks in `backend/app/db/base.py`: each operation is one atomic method.
- `uuid4()`, `datetime.now()` and `datetime.utcnow()`: they are parameters (`freshId`, `idText`, `now`, `createdAt`, `updatedAt`). `crud.py`'s ISO-format string is passed in as the `now` value.
- Floats (`total_price`, `price`, `amount`) and every pydantic field constraint other than the status validator. Prices are opaque `Value`s, and `User(**...)`/`Order(**...)` re-validation other than `status` is not modelled.
- The `orders` list field of `models.py`'s `User`: it is not a scalar value and no operation reads it.
- Aliasing and mutation of objects shared with callers. `base.py` stores the caller's dict by reference and `update` mutates it. `crud.py`'s `add_record` writes the timestamps into the caller's `data`. `db.py` mutates the caller's object in `add_*` and the stored object in `update_*`. The model treats records as values, so the caller's copy is not updated.
- `base.py`'s `defaultdict` inserts an empty table when an unknown name is read. The model reads an absent table as empty without inserting it, which no operation can observe.
- Python's `True == 1` and `1 == 1.0` equalities: `Value` equality is structural.
- Utils.Lower: folds only `A`–`Z`, while `str.lower()` also lower-cases non-ASCII letters.
- The text of `validate_status`'s error: it lists a set in hash order, so only the rejected value is kept.
- MemoryDbStore.ApplyKnownAttributes: `hasattr` is also true for the names of a pydantic model's methods and properties, and `setattr` on those is not modelled; the record's own keys are taken as its attributes.
- The shadowed first `delete_user` of `db/db.py` (line 98): Python replaces it with the definition at line 105, which is the one modelled.
- `crud.py`'s module-level wrapper functions (lines 125-178). `create_user` and `create_order` build `User(**data)`/`Order(**data)`, which re-validates the data and gives a fresh default `id`, and pass `.dict()` to `add_record`; the other wrappers only delegate to the `InMemoryDB` methods. The services' `list_orders`/`list_users` only list and call `model_validate`.
- The `RecordStore` implementation: no implementation is visible, so its contract is the one the store tests assert.
- ServiceStore.RecordStore.UpdateRecord: its contract lets a store answer `False` for a present id. This keeps the services' `DatabaseError` branch reachable, so it is weaker than the body.
- `user_service.py` imports `UserUpdate`, which `schemas/user.py` does not define, so the module fails at import. Its logic is modelled as written.
- OrderServices.OrderService.CreateOrder: returns the stored dict; the `OrderOut(**stored)` conversion (order_service.py:34), with its field selection and re-validation, is not modelled.
- OrderServices.OrderService.GetOrder: returns the stored dict, not `OrderOut(**order)` (order_service.py:41).
- OrderServices.OrderService.UpdateOrder: returns the stored dict, not `OrderOut(**updated_order)` (order_service.py:68).
- UserServices.UserService.CreateUser: returns the stored dict, which holds `hashed_password`; `UserOut` (schemas/user.py:22-26) has no such field, so `UserOut(**stored_user)` (user_service.py:35) never returns the hash.
- UserServices.UserService.GetUser: returns the stored dict with `hashed_password`, where `UserOut(**user)` (user_service.py:42) drops it.
- UserServices.UserService.UpdateUser: returns the stored dict with `hashed_password`, where `UserOut(**updated_user)` (user_service.py:68) drops it.
- `parse_uuid`, `validate_record_id`, `format_*` and `generate_record_id` in `utils.py`: these are calls into the `uuid` and `datetime` libraries.
