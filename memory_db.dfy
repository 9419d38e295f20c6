/** The `MemoryDB` store of backend/app/db/db.py: users and orders keyed by id, objects updated
    in place through `setattr` on the attributes they already have. */
module MemoryDbStore {
  import opened Wrappers
  import opened Values
  import opened OrderedMaps
  import opened Tables

  /** `if not obj.id: obj.id = uuid4()` and `if not obj.created_at: obj.created_at = now`. */
  function FillDefaults(obj: Record, freshId: Key, now: Value): (r: Record)
    ensures r.Keys == obj.Keys + (if Truthy(GetField(obj, "id")) then {} else {"id"})
                               + (if Truthy(GetField(obj, "created_at")) then {} else {"created_at"})
    ensures GetField(r, "id") == if Truthy(GetField(obj, "id")) then GetField(obj, "id") else freshId
    ensures GetField(r, "created_at") == if Truthy(GetField(obj, "created_at")) then GetField(obj, "created_at") else now
    ensures forall k :: k in obj && k != "id" && k != "created_at" ==> r[k] == obj[k]
  {
    var withId := if Truthy(GetField(obj, "id")) then obj else obj["id" := freshId];
    if Truthy(GetField(withId, "created_at")) then withId else withId["created_at" := now]
  }

  /** A record that already has an id and a creation time is stored as given. */
  lemma FillDefaultsKeepsSet(obj: Record, freshId: Key, now: Value)
    requires Truthy(GetField(obj, "id")) && Truthy(GetField(obj, "created_at"))
    ensures FillDefaults(obj, freshId, now) == obj
  {
  }

  /** The `for key, value in data.items(): if hasattr(obj, key): setattr(obj, key, value)` loop. */
  method ApplyKnownAttributes(obj: Record, data: Record) returns (r: Record)
    ensures r == MergeKnown(obj, data)
  {
    r := obj;
    var pending := data.Keys;
    while pending != {}
      invariant pending <= data.Keys
      invariant r.Keys == obj.Keys
      invariant forall k :: k in r ==> r[k] == if k in data && k !in pending then data[k] else obj[k]
      decreases |pending|
    {
      var key :| key in pending;
      if key in r {
        r := r[key := data[key]];
      }
      pending := pending - {key};
    }
  }

  /** Applying the same update twice is the same as applying it once. */
  lemma MergeKnownIdempotent(obj: Record, data: Record)
    ensures MergeKnown(MergeKnown(obj, data), data) == MergeKnown(obj, data)
  {
  }

  class MemoryDB {
    var users: Table
    var orders: Table

    ghost predicate Valid()
      reads this
    {
      users.Valid() && orders.Valid()
    }

    constructor ()
      ensures Valid() && users == Empty() && orders == Empty()
    {
      users := Empty();
      orders := Empty();
    }

    /** `add_user`: gives the user a fresh id and a creation time only where those are falsy,
        then stores it under its id, replacing any user with that id. */
    method AddUser(user: Record, freshId: Key, now: Value) returns (stored: Record)
      requires Valid()
      requires Truthy(freshId)
      modifies this
      ensures Valid()
      ensures stored == FillDefaults(user, freshId, now)
      ensures Truthy(GetField(stored, "id"))
      ensures users == old(users).Put(GetField(stored, "id"), stored) && orders == old(orders)
    {
      stored := FillDefaults(user, freshId, now);
      users := users.Put(GetField(stored, "id"), stored);
    }

    /** `add_order`: as `add_user`, for orders. */
    method AddOrder(order: Record, freshId: Key, now: Value) returns (stored: Record)
      requires Valid()
      requires Truthy(freshId)
      modifies this
      ensures Valid()
      ensures stored == FillDefaults(order, freshId, now)
      ensures Truthy(GetField(stored, "id"))
      ensures orders == old(orders).Put(GetField(stored, "id"), stored) && users == old(users)
    {
      stored := FillDefaults(order, freshId, now);
      orders := orders.Put(GetField(stored, "id"), stored);
    }

    /** `get_user`: `None` for an absent id. */
    method GetUser(id: Key) returns (r: Option<Record>)
      ensures r == users.Get(id)
    {
      r := users.Get(id);
    }

    /** `get_order`: `None` for an absent id. */
    method GetOrder(id: Key) returns (r: Option<Record>)
      ensures r == orders.Get(id)
    {
      r := orders.Get(id);
    }

    /** `list_users`: the users in insertion order. */
    method ListUsers() returns (all: seq<Record>)
      requires Valid()
      ensures all == users.Values()
    {
      all := users.Values();
    }

    /** `list_orders`: the orders in insertion order. */
    method ListOrders() returns (all: seq<Record>)
      requires Valid()
      ensures all == orders.Values()
    {
      all := orders.Values();
    }

    /** `update_user`: sets in place only the attributes the stored user has; `None` for an
        absent id. */
    method UpdateUser(id: Key, data: Record) returns (r: Option<Record>)
      requires Valid()
      modifies this
      ensures Valid()
      ensures orders == old(orders)
      ensures old(users).Get(id).None? ==> r == None && users == old(users)
      ensures old(users).Get(id).Some? ==>
        r == Some(MergeKnown(old(users).Get(id).value, data)) && users == old(users).Put(id, r.value)
    {
      if id !in users.items {
        return None;
      }
      var user := ApplyKnownAttributes(users.items[id], data);
      users := users.Put(id, user);
      r := Some(user);
    }

    /** `update_order`: as `update_user`, for orders. */
    method UpdateOrder(id: Key, data: Record) returns (r: Option<Record>)
      requires Valid()
      modifies this
      ensures Valid()
      ensures users == old(users)
      ensures old(orders).Get(id).None? ==> r == None && orders == old(orders)
      ensures old(orders).Get(id).Some? ==>
        r == Some(MergeKnown(old(orders).Get(id).value, data)) && orders == old(orders).Put(id, r.value)
    {
      if id !in orders.items {
        return None;
      }
      var order := ApplyKnownAttributes(orders.items[id], data);
      orders := orders.Put(id, order);
      r := Some(order);
    }

    /** The effective `delete_user` (the definition at line 105, which replaces the one at line
        98): removes the user and every order whose `user_id` is that id. */
    method DeleteUser(id: Key) returns (deleted: bool)
      requires Valid()
      modifies this
      ensures Valid()
      ensures deleted <==> old(users).Get(id).Some?
      ensures deleted ==>
        users == old(users).Remove(id) && orders == old(orders).RemoveKeys(OwnedBy(old(orders), id))
      ensures !deleted ==> users == old(users) && orders == old(orders)
    {
      if id !in users.items {
        return false;
      }
      users := users.Remove(id);
      orders := orders.RemoveKeys(OwnedBy(orders, id));
      deleted := true;
    }

    /** `delete_order`: removes only that order. */
    method DeleteOrder(id: Key) returns (deleted: bool)
      requires Valid()
      modifies this
      ensures Valid()
      ensures users == old(users)
      ensures deleted <==> old(orders).Get(id).Some?
      ensures deleted ==> orders == old(orders).Remove(id)
      ensures !deleted ==> orders == old(orders)
    {
      if id !in orders.items {
        return false;
      }
      orders := orders.Remove(id);
      deleted := true;
    }

    /** `join_user_orders`: one row per order whose user exists, with the order's `price`. */
    method JoinUserOrders() returns (rows: seq<UserOrder>)
      requires Valid()
      ensures rows == UserOrderRows(orders.Values(), users, "price")
    {
      var all := orders.Values();
      rows := [];
      var i := 0;
      while i < |all|
        invariant 0 <= i <= |all|
        invariant rows == UserOrderRows(all[..i], users, "price")
      {
        var order := all[i];
        var user := users.Get(GetField(order, "user_id"));
        assert all[..i + 1] == all[..i] + [order];
        UserOrderRowsSnoc(all[..i], order, users, "price");
        if user.Some? {
          rows := rows + [MakeUserOrder(user.value, order, "price")];
        }
        i := i + 1;
      }
      assert all[..i] == all;
    }
  }

  /** An update never adds attributes: unknown keys in the payload leave the stored user's
      fields as they were. */
  method UpdateIgnoresUnknown(db: MemoryDB, id: Key, data: Record, key: string) returns (r: Option<Record>)
    requires db.Valid()
    requires key in data
    modifies db
    ensures db.Valid()
    ensures r.Some? <==> old(db.users.Get(id)).Some?
    ensures r.Some? ==> r.value.Keys == old(db.users.Get(id)).value.Keys
    ensures r.Some? && key !in old(db.users.Get(id)).value ==> key !in r.value
    ensures r.Some? && key in old(db.users.Get(id)).value ==> r.value[key] == data[key]
  {
    r := db.UpdateUser(id, data);
  }
}
