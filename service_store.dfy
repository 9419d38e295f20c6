/** The store the two services call (`create_record`, `get_record`, `update_record`,
    `delete_record`, `list_records`). Its implementation is not part of this model; its
    contract is the one the store tests assert: a missing id reads as `None`, and updating or
    deleting it answers `False`. */
module ServiceStore {
  import opened Wrappers
  import opened Values
  import opened OrderedMaps
  import opened Tables

  /** Python truthiness of `Optional[dict]`: `None` and the empty record both count as absent. */
  predicate Present(found: Option<Record>)
  {
    found.Some? && found.value != map[]
  }

  class RecordStore {
    /** Table name to table; a table never written reads as empty. */
    var tables: map<string, Table>

    ghost predicate Valid()
      reads this
    {
      forall t :: t in tables ==> tables[t].Valid()
    }

    function TableOf(table: string): (t: Table)
      reads this
      ensures Valid() ==> t.Valid()
    {
      if table in tables then tables[table] else Empty()
    }

    constructor ()
      ensures Valid() && tables == map[]
    {
      tables := map[];
    }

    /** `create_record`: stores `data` under a new id (`freshId`, not yet in the table) and
        returns that id. */
    method CreateRecord(table: string, data: Record, freshId: Key) returns (id: Key)
      requires Valid()
      requires TableOf(table).Get(freshId).None?
      modifies this
      ensures Valid()
      ensures id == freshId
      ensures tables == old(tables)[table := old(TableOf(table)).Put(freshId, data)]
    {
      tables := tables[table := TableOf(table).Put(freshId, data)];
      id := freshId;
    }

    /** `get_record`: the stored record, or `None` for a missing id. */
    method GetRecord(table: string, id: Key) returns (r: Option<Record>)
      ensures r == TableOf(table).Get(id)
    {
      r := TableOf(table).Get(id);
    }

    /** `update_record`: `False` and no change for a missing id; on `True` the stored record
        is merged with `data`. The contract also lets a store answer `False` for a present
        id, leaving everything unchanged. */
    method UpdateRecord(table: string, id: Key, data: Record) returns (ok: bool)
      requires Valid()
      modifies this
      ensures Valid()
      ensures old(TableOf(table)).Get(id).None? ==> !ok
      ensures ok ==> tables == old(tables)[table := old(TableOf(table)).Put(id, Overlay(old(TableOf(table)).Get(id).value, data))]
      ensures !ok ==> tables == old(tables)
    {
      var t := TableOf(table);
      if id !in t.items {
        return false;
      }
      tables := tables[table := t.Put(id, Overlay(t.items[id], data))];
      ok := true;
    }

    /** `delete_record`: `True` exactly when the id was present, which it then removes. */
    method DeleteRecord(table: string, id: Key) returns (ok: bool)
      requires Valid()
      modifies this
      ensures Valid()
      ensures ok <==> old(TableOf(table)).Get(id).Some?
      ensures ok ==> tables == old(tables)[table := old(TableOf(table)).Remove(id)]
      ensures !ok ==> tables == old(tables)
    {
      var t := TableOf(table);
      if id !in t.items {
        return false;
      }
      tables := tables[table := t.Remove(id)];
      ok := true;
    }

    /** `list_records`: the table's records in insertion order. */
    method ListRecords(table: string) returns (records: seq<Record>)
      requires Valid()
      ensures records == TableOf(table).Values()
    {
      records := TableOf(table).Values();
    }
  }
}
