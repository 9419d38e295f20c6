/** The typed two-dictionary store of backend/app/models.py: `users` and `orders` keyed by id,
    pydantic objects modelled as their field maps, and the `status` validator of `OrderBase`. */
module ModelsStore {
  import opened Wrappers
  import opened Values
  import opened OrderedMaps
  import opened Tables

  /** The statuses `OrderBase.validate_status` accepts. */
  const AllowedStatuses: set<string> := {"pending", "processing", "shipped", "delivered", "cancelled"}

  /** The `ValueError` the validator raises; its text lists the statuses in set order, which is
      not modelled, so only the rejected value is kept. */
  datatype StatusError = StatusNotAllowed(status: string)

  /** `validate_status`: a status is returned unchanged when it is allowed, rejected otherwise. */
  function ValidateStatus(v: string): (r: Result<string, StatusError>)
    ensures r.Success? ==> r.value == v
    ensures r.Failure? ==> r.error == StatusNotAllowed(v)
  {
    if v in AllowedStatuses then Success(v) else Failure(StatusNotAllowed(v))
  }

  /** Exactly the five statuses pass; anything else, case variants included, fails. */
  lemma ValidateStatusAccepts(v: string)
    ensures ValidateStatus(v).Success? <==>
      v == "pending" || v == "processing" || v == "shipped" || v == "delivered" || v == "cancelled"
  {
  }

  /** The default status of an order is accepted; an upper-cased one is not. */
  lemma ValidateStatusExamples()
    ensures ValidateStatus("pending") == Success("pending")
    ensures ValidateStatus("PENDING") == Failure(StatusNotAllowed("PENDING"))
  {
    assert "PENDING" != "pending";
  }

  /** Pydantic re-validates an `Order` built from a merged dump: a string `status` must pass
      the validator. */
  predicate StatusRejected(order: Record): (rejected: bool)
    ensures rejected <==> "status" in order && order["status"].Str? && order["status"].s !in AllowedStatuses
  {
    "status" in order && order["status"].Str? && ValidateStatus(order["status"].s).Failure?
  }

  /** The fields of `UserBase`, the part of a `UserCreate` dump that `User(**user_dict)` keeps. */
  const UserBaseFields: set<string> := {"email", "full_name", "age", "is_active"}

  /** `User(**user.model_dump())` for a `UserCreate`: the base fields, a fresh id and the two
      default timestamps; `password` is not a `User` field and is dropped. */
  function NewUserRecord(fields: Record, id: Key, createdAt: Value, updatedAt: Value): (r: Record)
    ensures r.Keys == (fields.Keys * UserBaseFields) + {"id", "created_at", "updated_at"}
    ensures "password" !in r
    ensures r["id"] == id && r["created_at"] == createdAt && r["updated_at"] == updatedAt
    ensures forall k :: k in fields && k in UserBaseFields ==> r[k] == fields[k]
  {
    (map k | k in fields && k in UserBaseFields :: fields[k])["id" := id]["created_at" := createdAt]["updated_at" := updatedAt]
  }

  /** The argument of `add_user`: a `UserCreate` (its dump) or an already built `User`. */
  datatype UserArg = NewUser(fields: Record) | ExistingUser(user: Record)

  class InMemoryDB {
    var users: Table
    var orders: Table

    ghost predicate Valid()
      reads this
    {
      users.Valid() && orders.Valid()
    }

    constructor ()
      ensures Valid() && users == Empty() && orders == Empty()
    {
      users := Empty();
      orders := Empty();
    }

    /** `add_user`: builds a `User` from a `UserCreate` (with id `freshId` and the two default
        timestamps) and stores it under its own id, replacing any user with that id. */
    method AddUser(arg: UserArg, freshId: Key, createdAt: Value, updatedAt: Value) returns (user: Record)
      requires Valid()
      modifies this
      ensures Valid()
      ensures user == match arg
                      case NewUser(fields) => NewUserRecord(fields, freshId, createdAt, updatedAt)
                      case ExistingUser(u) => u
      ensures users == old(users).Put(GetField(user, "id"), user) && orders == old(orders)
    {
      match arg {
        case NewUser(fields) =>
          user := NewUserRecord(fields, freshId, createdAt, updatedAt);
        case ExistingUser(u) =>
          user := u;
      }
      users := users.Put(GetField(user, "id"), user);
    }

    /** `add_order`: stores the order under its own id, replacing any order with that id. */
    method AddOrder(order: Record) returns (stored: Record)
      requires Valid()
      modifies this
      ensures Valid()
      ensures stored == order
      ensures orders == old(orders).Put(GetField(order, "id"), order) && users == old(users)
    {
      orders := orders.Put(GetField(order, "id"), order);
      stored := order;
    }

    /** `get_user`: `None` for an absent id. */
    method GetUser(id: Key) returns (r: Option<Record>)
      ensures r == users.Get(id)
    {
      r := users.Get(id);
    }

    /** `get_order`: `None` for an absent id. */
    method GetOrder(id: Key) returns (r: Option<Record>)
      ensures r == orders.Get(id)
    {
      r := orders.Get(id);
    }

    /** `update_user`: the dump of the stored user overridden by `data`, rebuilt as a `User`
        (keys that are not fields are ignored) and stored back in place. */
    method UpdateUser(id: Key, data: Record) returns (r: Option<Record>)
      requires Valid()
      modifies this
      ensures Valid()
      ensures orders == old(orders)
      ensures old(users).Get(id).None? ==> r == None && users == old(users)
      ensures old(users).Get(id).Some? ==>
        r == Some(MergeKnown(old(users).Get(id).value, data)) && users == old(users).Put(id, r.value)
    {
      var current := users.Get(id);
      if current.None? {
        return None;
      }
      var updated := MergeKnown(current.value, data);
      users := users.Put(id, updated);
      r := Some(updated);
    }

    /** `update_order`: as `update_user`; rebuilding the `Order` runs the status validator,
        whose `ValueError` leaves the store unchanged. */
    method UpdateOrder(id: Key, data: Record) returns (r: Result<Option<Record>, StatusError>)
      requires Valid()
      modifies this
      ensures Valid()
      ensures users == old(users)
      ensures old(orders).Get(id).None? ==> r == Success(None) && orders == old(orders)
      ensures old(orders).Get(id).Some? ==>
        var merged := MergeKnown(old(orders).Get(id).value, data);
        if StatusRejected(merged) then
          r == Failure(StatusNotAllowed(merged["status"].s)) && orders == old(orders)
        else
          r == Success(Some(merged)) && orders == old(orders).Put(id, merged)
    {
      var current := orders.Get(id);
      if current.None? {
        return Success(None);
      }
      var merged := MergeKnown(current.value, data);
      if "status" in merged && merged["status"].Str? {
        var checked := ValidateStatus(merged["status"].s);
        if checked.Failure? {
          return Failure(checked.error);
        }
      }
      orders := orders.Put(id, merged);
      r := Success(Some(merged));
    }

    /** `delete_user`: removes the user and, through the dict comprehension, every order whose
        `user_id` is that id; `False` and no change for an absent id. */
    method DeleteUser(id: Key) returns (deleted: bool)
      requires Valid()
      modifies this
      ensures Valid()
      ensures deleted <==> old(users).Get(id).Some?
      ensures deleted ==>
        users == old(users).Remove(id) && orders == old(orders).RemoveKeys(OwnedBy(old(orders), id))
      ensures !deleted ==> users == old(users) && orders == old(orders)
    {
      if id !in users.items {
        return false;
      }
      users := users.Remove(id);
      orders := orders.RemoveKeys(OwnedBy(orders, id));
      deleted := true;
    }

    /** `delete_order`: removes only that order; `users` is never touched. */
    method DeleteOrder(id: Key) returns (deleted: bool)
      requires Valid()
      modifies this
      ensures Valid()
      ensures users == old(users)
      ensures deleted <==> old(orders).Get(id).Some?
      ensures deleted ==> orders == old(orders).Remove(id)
      ensures !deleted ==> orders == old(orders)
    {
      if id !in orders.items {
        return false;
      }
      orders := orders.Remove(id);
      deleted := true;
    }

    /** `list_users`: the users in insertion order. */
    method ListUsers() returns (all: seq<Record>)
      requires Valid()
      ensures all == users.Values()
    {
      all := users.Values();
    }

    /** `list_orders`: the orders in insertion order. */
    method ListOrders() returns (all: seq<Record>)
      requires Valid()
      ensures all == orders.Values()
    {
      all := orders.Values();
    }

    /** `join_user_orders`: one row per order whose user exists, in order iteration order. */
    method JoinUserOrders() returns (rows: seq<UserOrder>)
      requires Valid()
      ensures rows == UserOrderRows(orders.Values(), users, "total_price")
    {
      var all := orders.Values();
      rows := [];
      var i := 0;
      while i < |all|
        invariant 0 <= i <= |all|
        invariant rows == UserOrderRows(all[..i], users, "total_price")
      {
        var order := all[i];
        var owner := users.Get(GetField(order, "user_id"));
        assert all[..i + 1] == all[..i] + [order];
        UserOrderRowsSnoc(all[..i], order, users, "total_price");
        if owner.Some? {
          rows := rows + [MakeUserOrder(owner.value, order, "total_price")];
        }
        i := i + 1;
      }
      assert all[..i] == all;
    }
  }

  /** A user added through `add_user` reads back under its own id. */
  method AddUserThenGet(db: InMemoryDB, arg: UserArg, freshId: Key, createdAt: Value, updatedAt: Value)
    returns (user: Record, found: Option<Record>)
    requires db.Valid()
    modifies db
    ensures db.Valid()
    ensures found == Some(user)
    ensures arg.NewUser? ==> GetField(user, "id") == freshId && "password" !in user
  {
    user := db.AddUser(arg, freshId, createdAt, updatedAt);
    found := db.GetUser(GetField(user, "id"));
  }

  /** After `delete_user`, no order of that user remains and every other order is still readable. */
  method DeleteUserCascades(db: InMemoryDB, id: Key, other: Key) returns (deleted: bool, after: Option<Record>)
    requires db.Valid()
    modifies db
    ensures db.Valid()
    ensures deleted ==> db.users.Get(id) == None
    ensures deleted && other in old(db.orders.items) && GetField(old(db.orders.items[other]), "user_id") == id ==>
      after == None
    ensures other !in old(db.orders.items) || GetField(old(db.orders.items[other]), "user_id") != id ==>
      after == old(db.orders.Get(other))
  {
    deleted := db.DeleteUser(id);
    CascadeKeepsOthers(old(db.orders), id, other);
    after := db.GetOrder(other);
  }
}
