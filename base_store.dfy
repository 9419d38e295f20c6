/** The generic asynchronous store of db/base.py: a dict of tables (a `defaultdict`, so a table
    that was never written reads as empty), one lock per table. Each operation runs atomically
    under its lock, so each is modelled as one sequential method. */
module BaseStore {
  import opened Wrappers
  import opened Values
  import opened OrderedMaps
  import opened Tables
  import opened Sequences

  /** `DatabaseError` and its two subclasses, each with its message. */
  datatype DbError =
    | DatabaseError(message: string)
    | DuplicateRecordError(message: string)
    | RecordNotFoundError(message: string)

  function DuplicateMessage(table: string, id: Key): string
  {
    "Record " + PyStr(id) + " already exists in " + table
  }

  function NotFoundMessage(table: string, id: Key): string
  {
    "Record " + PyStr(id) + " not found in " + table
  }

  /** Whether the inner loop of `join` pairs `record1` with `record2`. */
  predicate JoinsWith(record1: Record, record2: Record, key: string)
  {
    GetField(record1, key) != Null && GetField(record2, key) == GetField(record1, key)
  }

  /** The row the inner loop of `join` appends for `record2`: `{**record1, **record2}` when
      `record2`'s `key` equals `record1`'s. */
  function MatchRow(record1: Record, record2: Record, key: string): seq<Record>
  {
    if GetField(record2, key) == GetField(record1, key) then [Overlay(record1, record2)] else []
  }

  /** `MatchRow` as the step of the inner loop. */
  function MatchStep(record1: Record, key: string): Record -> seq<Record>
  {
    record2 => MatchRow(record1, record2, key)
  }

  /** The rows the inner loop of `join` appends for `record1`, in `rows2` order. */
  function MatchesOf(record1: Record, rows2: seq<Record>, key: string): seq<Record>
  {
    FlatMap(rows2, MatchStep(record1, key))
  }

  /** What one outer iteration appends: nothing when `record1[key]` is `None`. */
  function RowsFor(record1: Record, rows2: seq<Record>, key: string): seq<Record>
  {
    if GetField(record1, key) != Null then MatchesOf(record1, rows2, key) else []
  }

  /** `RowsFor` as the step of the outer loop. */
  function OuterStep(rows2: seq<Record>, key: string): Record -> seq<Record>
  {
    record1 => RowsFor(record1, rows2, key)
  }

  /** The rows the two nested loops of `join` append, outer loop over `rows1`. */
  function NestedJoin(rows1: seq<Record>, rows2: seq<Record>, key: string): seq<Record>
  {
    FlatMap(rows1, OuterStep(rows2, key))
  }

  /** One more inner record appends its own row, if any. */
  lemma MatchesOfSnoc(record1: Record, rows2: seq<Record>, record2: Record, key: string)
    ensures MatchesOf(record1, rows2 + [record2], key) == MatchesOf(record1, rows2, key) + MatchRow(record1, record2, key)
  {
    FlatMapSnoc(rows2, record2, MatchStep(record1, key));
  }

  /** The inner loop yields `{**record1, **record2}` exactly for the `record2` whose key matches. */
  lemma MatchesOfIff(record1: Record, rows2: seq<Record>, key: string, row: Record)
    ensures row in MatchesOf(record1, rows2, key) <==>
      exists j :: 0 <= j < |rows2| && GetField(rows2[j], key) == GetField(record1, key) &&
                  row == Overlay(record1, rows2[j])
  {
    FlatMapIff(rows2, MatchStep(record1, key), row);
    if row in MatchesOf(record1, rows2, key) {
      var j :| 0 <= j < |rows2| && row in MatchStep(record1, key)(rows2[j]);
      assert GetField(rows2[j], key) == GetField(record1, key) && row == Overlay(record1, rows2[j]);
    }
    if exists j :: 0 <= j < |rows2| && GetField(rows2[j], key) == GetField(record1, key) &&
                   row == Overlay(record1, rows2[j]) {
      var j :| 0 <= j < |rows2| && GetField(rows2[j], key) == GetField(record1, key) &&
               row == Overlay(record1, rows2[j]);
      assert row in MatchStep(record1, key)(rows2[j]);
    }
  }

  /** Every pair of records whose key values are equal and not None yields a row of `join`. */
  lemma NestedJoinHasPair(rows1: seq<Record>, rows2: seq<Record>, key: string, i: nat, j: nat)
    requires i < |rows1| && j < |rows2| && JoinsWith(rows1[i], rows2[j], key)
    ensures Overlay(rows1[i], rows2[j]) in NestedJoin(rows1, rows2, key)
  {
    var row := Overlay(rows1[i], rows2[j]);
    MatchesOfIff(rows1[i], rows2, key, row);
    assert row in OuterStep(rows2, key)(rows1[i]);
    FlatMapIff(rows1, OuterStep(rows2, key), row);
  }

  /** Every row of `join` comes from such a pair. */
  lemma NestedJoinOnlyPairs(rows1: seq<Record>, rows2: seq<Record>, key: string, row: Record)
    requires row in NestedJoin(rows1, rows2, key)
    ensures exists i, j :: 0 <= i < |rows1| && 0 <= j < |rows2| && JoinsWith(rows1[i], rows2[j], key) &&
                           row == Overlay(rows1[i], rows2[j])
  {
    FlatMapIff(rows1, OuterStep(rows2, key), row);
    var i :| 0 <= i < |rows1| && row in OuterStep(rows2, key)(rows1[i]);
    assert GetField(rows1[i], key) != Null && row in MatchesOf(rows1[i], rows2, key);
    MatchesOfIff(rows1[i], rows2, key, row);
    var j :| 0 <= j < |rows2| && GetField(rows2[j], key) == GetField(rows1[i], key) &&
             row == Overlay(rows1[i], rows2[j]);
    assert JoinsWith(rows1[i], rows2[j], key);
  }

  /** One more outer record appends its own rows. */
  lemma NestedJoinSnoc(rows1: seq<Record>, record1: Record, rows2: seq<Record>, key: string)
    ensures NestedJoin(rows1 + [record1], rows2, key) == NestedJoin(rows1, rows2, key) + RowsFor(record1, rows2, key)
  {
    FlatMapSnoc(rows1, record1, OuterStep(rows2, key));
  }

  /** The output is grouped by the outer loop: rows of earlier `rows1` records come first. */
  lemma NestedJoinAppend(a: seq<Record>, b: seq<Record>, rows2: seq<Record>, key: string)
    ensures NestedJoin(a + b, rows2, key) == NestedJoin(a, rows2, key) + NestedJoin(b, rows2, key)
  {
    FlatMapAppend(a, b, OuterStep(rows2, key));
  }

  /** The inner loop of `join`: appends `{**record1, **record2}` for each matching `record2`. */
  method AppendMatches(results: seq<Record>, record1: Record, rows2: seq<Record>, key: string)
    returns (out: seq<Record>)
    ensures out == results + MatchesOf(record1, rows2, key)
  {
    out := results;
    var keyValue := GetField(record1, key);
    var j := 0;
    while j < |rows2|
      invariant 0 <= j <= |rows2|
      invariant out == results + MatchesOf(record1, rows2[..j], key)
    {
      assert rows2[..j + 1] == rows2[..j] + [rows2[j]];
      MatchesOfSnoc(record1, rows2[..j], rows2[j], key);
      if GetField(rows2[j], key) == keyValue {
        out := out + [Overlay(record1, rows2[j])];
      }
      j := j + 1;
    }
    assert rows2[..|rows2|] == rows2;
  }

  class InMemoryDB {
    /** `_storage`: table name to table. */
    var storage: map<string, Table>

    ghost predicate Valid()
      reads this
    {
      forall t :: t in storage ==> storage[t].Valid()
    }

    /** `self._storage[table]`: a table never written reads as empty. */
    function TableOf(table: string): (t: Table)
      reads this
      ensures Valid() ==> t.Valid()
    {
      if table in storage then storage[table] else Empty()
    }

    constructor ()
      ensures Valid() && storage == map[]
    {
      storage := map[];
    }

    /** `create`: refuses an id already in the table, otherwise stores `data` under it. */
    method Create(table: string, id: Key, data: Record) returns (r: Result<Record, DbError>)
      requires Valid()
      modifies this
      ensures Valid()
      ensures old(TableOf(table)).Get(id).Some? ==>
        r == Failure(DuplicateRecordError(DuplicateMessage(table, id))) && storage == old(storage)
      ensures old(TableOf(table)).Get(id).None? ==>
        r == Success(data) && storage == old(storage)[table := old(TableOf(table)).Put(id, data)]
    {
      var t := TableOf(table);
      if id in t.items {
        return Failure(DuplicateRecordError(DuplicateMessage(table, id)));
      }
      storage := storage[table := t.Put(id, data)];
      r := Success(data);
    }

    /** `read`: the walrus test is a truthiness test, so a stored empty record reads as missing. */
    method Read(table: string, id: Key) returns (r: Result<Record, DbError>)
      requires Valid()
      ensures r.Success? <==> TableOf(table).Get(id).Some? && TableOf(table).Get(id).value != map[]
      ensures r.Success? ==> Some(r.value) == TableOf(table).Get(id)
      ensures r.Failure? ==> r.error == RecordNotFoundError(NotFoundMessage(table, id))
    {
      var record := TableOf(table).Get(id);
      if record.Some? && record.value != map[] {
        return Success(record.value);
      }
      r := Failure(RecordNotFoundError(NotFoundMessage(table, id)));
    }

    /** `update`: merges `data` into the stored record in place. */
    method Update(table: string, id: Key, data: Record) returns (r: Result<Record, DbError>)
      requires Valid()
      modifies this
      ensures Valid()
      ensures old(TableOf(table)).Get(id).None? ==>
        r == Failure(RecordNotFoundError(NotFoundMessage(table, id))) && storage == old(storage)
      ensures old(TableOf(table)).Get(id).Some? ==>
        var merged := Overlay(old(TableOf(table)).Get(id).value, data);
        r == Success(merged) && storage == old(storage)[table := old(TableOf(table)).Put(id, merged)]
    {
      var t := TableOf(table);
      if id !in t.items {
        return Failure(RecordNotFoundError(NotFoundMessage(table, id)));
      }
      var merged := Overlay(t.items[id], data);
      storage := storage[table := t.Put(id, merged)];
      r := Success(merged);
    }

    /** `delete`: removes that one record; no other table is touched. */
    method Delete(table: string, id: Key) returns (r: Result<bool, DbError>)
      requires Valid()
      modifies this
      ensures Valid()
      ensures old(TableOf(table)).Get(id).None? ==>
        r == Failure(RecordNotFoundError(NotFoundMessage(table, id))) && storage == old(storage)
      ensures old(TableOf(table)).Get(id).Some? ==>
        r == Success(true) && storage == old(storage)[table := old(TableOf(table)).Remove(id)]
    {
      var t := TableOf(table);
      if id !in t.items {
        return Failure(RecordNotFoundError(NotFoundMessage(table, id)));
      }
      storage := storage[table := t.Remove(id)];
      r := Success(true);
    }

    /** `list`: every record of the table, in insertion order. */
    method List(table: string) returns (rows: seq<Record>)
      requires Valid()
      ensures |rows| == |TableOf(table).keys|
      ensures forall i :: 0 <= i < |rows| ==> Some(rows[i]) == TableOf(table).Get(TableOf(table).keys[i])
    {
      rows := TableOf(table).Values();
    }

    /** `join`: the nested loop over the two tables' records. */
    method Join(table1: string, table2: string, key: string) returns (results: seq<Record>)
      requires Valid()
      ensures results == NestedJoin(TableOf(table1).Values(), TableOf(table2).Values(), key)
    {
      var rows1 := TableOf(table1).Values();
      var rows2 := TableOf(table2).Values();
      results := [];
      var i := 0;
      while i < |rows1|
        invariant 0 <= i <= |rows1|
        invariant results == NestedJoin(rows1[..i], rows2, key)
      {
        var record1 := rows1[i];
        assert rows1[..i + 1] == rows1[..i] + [record1];
        NestedJoinSnoc(rows1[..i], record1, rows2, key);
        if GetField(record1, key) != Null {
          results := AppendMatches(results, record1, rows2, key);
        }
        i := i + 1;
      }
      assert rows1[..|rows1|] == rows1;
    }

    /** `clear_table`: empties that table only. */
    method ClearTable(table: string)
      requires Valid()
      modifies this
      ensures Valid()
      ensures storage == old(storage)[table := Empty()]
    {
      storage := storage[table := Empty()];
    }
  }

  /** Read-your-write: a record created with a non-empty payload reads back as that payload, and
      the table lists one more record, the new one last. */
  method CreateThenRead(db: InMemoryDB, table: string, id: Key, data: Record)
    returns (created: Result<Record, DbError>, read: Result<Record, DbError>)
    requires db.Valid() && db.TableOf(table).Get(id).None? && data != map[]
    modifies db
    ensures created == Success(data) && read == Success(data)
    ensures db.Valid() && db.TableOf(table).Values() == old(db.TableOf(table).Values()) + [data]
  {
    ghost var before := db.TableOf(table);
    created := db.Create(table, id, data);
    PutNewAppends(before, id, data);
    read := db.Read(table, id);
  }

  /** The truthiness test in `read`: an empty payload is created, yet reads as missing. */
  method CreateEmptyThenRead(db: InMemoryDB, table: string, id: Key)
    returns (created: Result<Record, DbError>, read: Result<Record, DbError>)
    requires db.Valid() && db.TableOf(table).Get(id).None?
    modifies db
    ensures created == Success(map[])
    ensures read == Failure(RecordNotFoundError(NotFoundMessage(table, id)))
    ensures db.TableOf(table).Get(id) == Some(map[])
  {
    created := db.Create(table, id, map[]);
    read := db.Read(table, id);
  }
}
