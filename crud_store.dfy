/** The store of crud.py: the module-level dict `tables` with exactly the tables "users" and
    "orders", and the static methods of its `InMemoryDB` over it. Deleting a user cascades to
    that user's orders. */
module CrudStore {
  import opened Wrappers
  import opened Values
  import opened OrderedMaps
  import opened Tables

  /** The two exceptions crud.py raises, each with its message. */
  datatype CrudError = KeyError(message: string) | ValueError(message: string)

  const TableNames: set<string> := {"users", "orders"}

  function NoTable(table: string): CrudError
  {
    KeyError("Table " + table + " does not exist")
  }

  function NoRecord(table: string, id: Key): CrudError
  {
    KeyError("Record " + PyStr(id) + " not found in table " + table)
  }

  function Duplicate(table: string, id: Key): CrudError
  {
    ValueError("Record with id " + PyStr(id) + " already exists in " + table)
  }

  /** `[order_id for order_id, order in orders.items() if order.get("user_id") == uid]`, over the
      ids `keys` in their order. */
  function MatchingIds(keys: seq<Key>, items: map<Key, Record>, uid: Key): (ids: seq<Key>)
    requires forall k :: k in keys ==> k in items
    ensures forall k :: k in ids <==> k in keys && GetField(items[k], "user_id") == uid
  {
    if keys == [] then []
    else
      (if GetField(items[keys[0]], "user_id") == uid then [keys[0]] else []) +
      MatchingIds(keys[1..], items, uid)
  }

  /** Whether the inner loop of `join_tables` pairs `record1` with `record2`. */
  predicate PairsOn(record1: Record, record2: Record, key: string)
  {
    key in record1 && key in record2 && record2[key] == record1[key]
  }

  /** One output row: `{table1: record1, table2: record2}`. */
  function PairRow(table1: string, record1: Record, table2: string, record2: Record): map<string, Record>
  {
    map[table1 := record1, table2 := record2]
  }

  /** The rows the inner loop of `join_tables` appends for `record1`. */
  function PairMatches(table1: string, record1: Record, table2: string, rows2: seq<Record>, key: string): seq<map<string, Record>>
    decreases |rows2|
  {
    if rows2 == [] then []
    else
      var last := rows2[|rows2| - 1];
      PairMatches(table1, record1, table2, rows2[..|rows2| - 1], key) +
      (if PairsOn(record1, last, key) then [PairRow(table1, record1, table2, last)] else [])
  }

  /** The rows the two nested loops of `join_tables` append. */
  function PairJoin(table1: string, rows1: seq<Record>, table2: string, rows2: seq<Record>, key: string): seq<map<string, Record>>
    decreases |rows1|
  {
    if rows1 == [] then []
    else
      var last := rows1[|rows1| - 1];
      PairJoin(table1, rows1[..|rows1| - 1], table2, rows2, key) +
      (if key in last then PairMatches(table1, last, table2, rows2, key) else [])
  }

  lemma {:induction false} PairMatchesHas(table1: string, record1: Record, table2: string, rows2: seq<Record>, key: string, j: nat)
    requires j < |rows2| && PairsOn(record1, rows2[j], key)
    ensures PairRow(table1, record1, table2, rows2[j]) in PairMatches(table1, record1, table2, rows2, key)
    decreases |rows2|
  {
    var n := |rows2|;
    if j < n - 1 {
      assert rows2[..n - 1][j] == rows2[j];
      PairMatchesHas(table1, record1, table2, rows2[..n - 1], key, j);
    }
  }

  lemma {:induction false} PairMatchesOnly(table1: string, record1: Record, table2: string, rows2: seq<Record>, key: string, row: map<string, Record>)
    requires row in PairMatches(table1, record1, table2, rows2, key)
    ensures exists j :: 0 <= j < |rows2| && PairsOn(record1, rows2[j], key) && row == PairRow(table1, record1, table2, rows2[j])
    decreases |rows2|
  {
    var n := |rows2|;
    var init := rows2[..n - 1];
    if row in PairMatches(table1, record1, table2, init, key) {
      PairMatchesOnly(table1, record1, table2, init, key, row);
      var j :| 0 <= j < |init| && PairsOn(record1, init[j], key) && row == PairRow(table1, record1, table2, init[j]);
      assert rows2[j] == init[j];
    } else {
      assert PairsOn(record1, rows2[n - 1], key) && row == PairRow(table1, record1, table2, rows2[n - 1]);
    }
  }

  /** Every pair of records that both have `key`, with equal values, yields a row. */
  lemma {:induction false} PairJoinHasPair(table1: string, rows1: seq<Record>, table2: string, rows2: seq<Record>, key: string, i: nat, j: nat)
    requires i < |rows1| && j < |rows2| && PairsOn(rows1[i], rows2[j], key)
    ensures PairRow(table1, rows1[i], table2, rows2[j]) in PairJoin(table1, rows1, table2, rows2, key)
    decreases |rows1|
  {
    var n := |rows1|;
    if i < n - 1 {
      assert rows1[..n - 1][i] == rows1[i];
      PairJoinHasPair(table1, rows1[..n - 1], table2, rows2, key, i, j);
    } else {
      PairMatchesHas(table1, rows1[i], table2, rows2, key, j);
    }
  }

  /** Every row comes from such a pair: `join_tables` is an inner join. */
  lemma {:induction false} PairJoinOnlyPairs(table1: string, rows1: seq<Record>, table2: string, rows2: seq<Record>, key: string, row: map<string, Record>)
    requires row in PairJoin(table1, rows1, table2, rows2, key)
    ensures exists i, j :: 0 <= i < |rows1| && 0 <= j < |rows2| && PairsOn(rows1[i], rows2[j], key) &&
                           row == PairRow(table1, rows1[i], table2, rows2[j])
    decreases |rows1|
  {
    var n := |rows1|;
    var init := rows1[..n - 1];
    if row in PairJoin(table1, init, table2, rows2, key) {
      PairJoinOnlyPairs(table1, init, table2, rows2, key, row);
      var i, j :| 0 <= i < |init| && 0 <= j < |rows2| && PairsOn(init[i], rows2[j], key) &&
                  row == PairRow(table1, init[i], table2, rows2[j]);
      assert rows1[i] == init[i];
    } else {
      PairMatchesOnly(table1, rows1[n - 1], table2, rows2, key, row);
    }
  }

  /** Since the two names differ, a row holds both records under their table names. */
  lemma PairRowHoldsBoth(table1: string, record1: Record, table2: string, record2: Record)
    requires table1 != table2
    ensures PairRow(table1, record1, table2, record2).Keys == {table1, table2}
    ensures PairRow(table1, record1, table2, record2)[table1] == record1
    ensures PairRow(table1, record1, table2, record2)[table2] == record2
  {
  }

  /** The ids the comprehension collects are exactly the user's orders. */
  lemma MatchingIdsAreOwned(orders: Table, uid: Key)
    requires orders.Valid()
    ensures (set x | x in MatchingIds(orders.keys, orders.items, uid)) == OwnedBy(orders, uid)
  {
  }

  /** The loop `for order_id in ids: orders.pop(order_id)`. */
  method PopEach(orders: Table, ids: seq<Key>) returns (remaining: Table)
    ensures remaining == orders.RemoveKeys(set x | x in ids)
  {
    remaining := orders;
    ghost var popped: set<Key> := {};
    RemoveNoKeys(orders);
    var i := 0;
    while i < |ids|
      invariant 0 <= i <= |ids|
      invariant forall x :: x in popped <==> x in ids[..i]
      invariant remaining == orders.RemoveKeys(popped)
    {
      RemoveKeysTwice(orders, popped, {ids[i]});
      assert ids[..i + 1] == ids[..i] + [ids[i]];
      remaining := remaining.Remove(ids[i]);
      popped := popped + {ids[i]};
      i := i + 1;
    }
    assert ids[..i] == ids;
    assert popped == set x | x in ids;
  }

  /** The cascade of `delete_record`: collects the ids of `uid`'s orders, then pops them. */
  method PopOrdersOf(orders: Table, uid: Key) returns (remaining: Table)
    requires orders.Valid()
    ensures remaining == orders.RemoveKeys(OwnedBy(orders, uid))
  {
    var doomed := MatchingIds(orders.keys, orders.items, uid);
    remaining := PopEach(orders, doomed);
    MatchingIdsAreOwned(orders, uid);
  }

  /** The two nested loops of `join_tables`. */
  method NestedPairJoin(table1: string, rows1: seq<Record>, table2: string, rows2: seq<Record>, key: string)
    returns (result: seq<map<string, Record>>)
    ensures result == PairJoin(table1, rows1, table2, rows2, key)
  {
    result := [];
    var i := 0;
    while i < |rows1|
      invariant 0 <= i <= |rows1|
      invariant result == PairJoin(table1, rows1[..i], table2, rows2, key)
    {
      var record1 := rows1[i];
      assert rows1[..i + 1][..i] == rows1[..i];
      if key in record1 {
        var keyValue := record1[key];
        var j := 0;
        while j < |rows2|
          invariant 0 <= j <= |rows2|
          invariant result == PairJoin(table1, rows1[..i], table2, rows2, key) + PairMatches(table1, record1, table2, rows2[..j], key)
        {
          ghost var done := PairJoin(table1, rows1[..i], table2, rows2, key);
          ghost var before := PairMatches(table1, record1, table2, rows2[..j], key);
          assert rows2[..j + 1][..j] == rows2[..j];
          var record2 := rows2[j];
          if key in record2 && record2[key] == keyValue {
            var joined := PairRow(table1, record1, table2, record2);
            assert PairMatches(table1, record1, table2, rows2[..j + 1], key) == before + [joined];
            assert done + before + [joined] == done + (before + [joined]);
            result := result + [joined];
          } else {
            assert PairMatches(table1, record1, table2, rows2[..j + 1], key) == before;
          }
          j := j + 1;
        }
        assert rows2[..|rows2|] == rows2;
      }
      i := i + 1;
    }
    assert rows1[..|rows1|] == rows1;
  }

  class CrudDb {
    /** The module-level `tables`. */
    var tables: map<string, Table>

    ghost predicate Valid()
      reads this
    {
      tables.Keys == TableNames && forall t :: t in tables ==> tables[t].Valid()
    }

    constructor ()
      ensures Valid()
      ensures tables == map["users" := Empty(), "orders" := Empty()]
    {
      tables := map["users" := Empty(), "orders" := Empty()];
    }

    /** `add_record`: stamps `created_at` and `updated_at` with the same instant `now`, then stores. */
    method AddRecord(table: string, id: Key, data: Record, now: Value) returns (r: Result<Record, CrudError>)
      requires Valid()
      modifies this
      ensures Valid()
      ensures table !in TableNames ==> r == Failure(NoTable(table)) && tables == old(tables)
      ensures table in TableNames && old(tables[table]).Get(id).Some? ==>
        r == Failure(Duplicate(table, id)) && tables == old(tables)
      ensures table in TableNames && old(tables[table]).Get(id).None? ==>
        && r.Success?
        && r.value.Keys == data.Keys + {"created_at", "updated_at"}
        && r.value["created_at"] == now && r.value["updated_at"] == now
        && (forall k :: k in data && k != "created_at" && k != "updated_at" ==> r.value[k] == data[k])
        && tables == old(tables)[table := old(tables[table]).Put(id, r.value)]
    {
      if table !in tables {
        return Failure(NoTable(table));
      }
      if id in tables[table].items {
        return Failure(Duplicate(table, id));
      }
      var record := data["created_at" := now];
      record := record["updated_at" := record["created_at"]];
      tables := tables[table := tables[table].Put(id, record)];
      r := Success(record);
    }

    /** `get_record`: None for a missing id, a KeyError for an unknown table. */
    method GetRecord(table: string, id: Key) returns (r: Result<Option<Record>, CrudError>)
      requires Valid()
      ensures table !in TableNames ==> r == Failure(NoTable(table))
      ensures table in TableNames ==> r == Success(tables[table].Get(id))
    {
      if table !in tables {
        return Failure(NoTable(table));
      }
      r := Success(tables[table].Get(id));
    }

    /** `update_record`: `{**current, **data}` with a fresh `updated_at`. */
    method UpdateRecord(table: string, id: Key, data: Record, now: Value) returns (r: Result<Record, CrudError>)
      requires Valid()
      modifies this
      ensures Valid()
      ensures table !in TableNames ==> r == Failure(NoTable(table)) && tables == old(tables)
      ensures table in TableNames && old(tables[table]).Get(id).None? ==>
        r == Failure(NoRecord(table, id)) && tables == old(tables)
      ensures table in TableNames && old(tables[table]).Get(id).Some? ==>
        var updated := MergeStamped(old(tables[table]).Get(id).value, data, now);
        r == Success(updated) && tables == old(tables)[table := old(tables[table]).Put(id, updated)]
    {
      if table !in tables {
        return Failure(NoTable(table));
      }
      if id !in tables[table].items {
        return Failure(NoRecord(table, id));
      }
      var current := tables[table].items[id];
      var updated := Overlay(current, data);
      updated := updated["updated_at" := now];
      assert updated == MergeStamped(current, data, now);
      tables := tables[table := tables[table].Put(id, updated)];
      r := Success(updated);
    }

    /** `delete_record`: pops the record; for a user, then pops every order whose `user_id` is
        that id. Returns the removed record. */
    method DeleteRecord(table: string, id: Key) returns (r: Result<Record, CrudError>)
      requires Valid()
      modifies this
      ensures Valid()
      ensures table !in TableNames ==> r == Failure(NoTable(table)) && tables == old(tables)
      ensures table in TableNames && old(tables[table]).Get(id).None? ==>
        r == Failure(NoRecord(table, id)) && tables == old(tables)
      ensures table == "orders" && old(tables["orders"]).Get(id).Some? ==>
        r == Success(old(tables["orders"]).Get(id).value) &&
        tables == old(tables)["orders" := old(tables["orders"]).Remove(id)]
      ensures table == "users" && old(tables["users"]).Get(id).Some? ==>
        r == Success(old(tables["users"]).Get(id).value) &&
        tables == old(tables)["users" := old(tables["users"]).Remove(id)]
                             ["orders" := old(tables["orders"]).RemoveKeys(OwnedBy(old(tables["orders"]), id))]
    {
      if table !in tables {
        return Failure(NoTable(table));
      }
      if id !in tables[table].items {
        return Failure(NoRecord(table, id));
      }
      var record := tables[table].items[id];
      tables := tables[table := tables[table].Remove(id)];
      if table == "users" {
        var remaining := PopOrdersOf(tables["orders"], id);
        tables := tables["orders" := remaining];
      }
      r := Success(record);
    }

    /** `join_tables`: unknown tables first, then the self-join, then the nested loop. */
    method JoinTables(table1: string, table2: string, key: string) returns (r: Result<seq<map<string, Record>>, CrudError>)
      requires Valid()
      ensures table1 !in TableNames || table2 !in TableNames ==>
        r == Failure(KeyError("One or both tables not found: " + table1 + ", " + table2))
      ensures table1 in TableNames && table2 in TableNames && table1 == table2 ==>
        r == Failure(ValueError("Cannot join table with itself"))
      ensures table1 in TableNames && table2 in TableNames && table1 != table2 ==>
        r == Success(PairJoin(table1, tables[table1].Values(), table2, tables[table2].Values(), key))
    {
      if table1 !in tables || table2 !in tables {
        return Failure(KeyError("One or both tables not found: " + table1 + ", " + table2));
      }
      if table1 == table2 {
        return Failure(ValueError("Cannot join table with itself"));
      }
      var result := NestedPairJoin(table1, tables[table1].Values(), table2, tables[table2].Values(), key);
      r := Success(result);
    }

    /** `dump_table`: every record of the table, in insertion order. */
    method DumpTable(table: string) returns (r: Result<seq<Record>, CrudError>)
      requires Valid()
      ensures table !in TableNames ==> r == Failure(NoTable(table))
      ensures table in TableNames ==>
        r.Success? && |r.value| == |tables[table].keys| &&
        forall i :: 0 <= i < |r.value| ==> Some(r.value[i]) == tables[table].Get(tables[table].keys[i])
    {
      if table !in tables {
        return Failure(NoTable(table));
      }
      r := Success(tables[table].Values());
    }

    /** `clear_table`: empties that table only. */
    method ClearTable(table: string) returns (r: Outcome<CrudError>)
      requires Valid()
      modifies this
      ensures Valid()
      ensures table !in TableNames ==> r == Fail(NoTable(table)) && tables == old(tables)
      ensures table in TableNames ==> r == Pass && tables == old(tables)[table := Empty()]
    {
      if table !in tables {
        return Fail(NoTable(table));
      }
      tables := tables[table := Empty()];
      r := Pass;
    }
  }
}
