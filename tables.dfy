/** What the four table stores share: tables as ordered dicts of records, the owner relation
    between orders and users, and the user/order join row of the two typed stores. */
module Tables {
  import opened Wrappers
  import opened Values
  import opened OrderedMaps
  import opened Sequences

  /** A table: record id to record, in insertion order. */
  type Table = OMap<Key, Record>

  /** The ids of the orders whose `user_id` field equals `uid`. */
  function OwnedBy(orders: Table, uid: Key): (owned: set<Key>)
    ensures owned <= orders.items.Keys
    ensures forall k :: k in owned ==> GetField(orders.items[k], "user_id") == uid
    ensures forall k :: k in orders.items && GetField(orders.items[k], "user_id") == uid ==> k in owned
  {
    set k | k in orders.items && GetField(orders.items[k], "user_id") == uid
  }

  /** Removing a user's orders keeps every other order and drops exactly that user's. */
  lemma CascadeKeepsOthers(orders: Table, uid: Key, k: Key)
    ensures orders.RemoveKeys(OwnedBy(orders, uid)).Get(k) ==
      if k in orders.items && GetField(orders.items[k], "user_id") == uid then None else orders.Get(k)
  {
  }

  /** The joined row `UserOrder` of models.py and db/db.py. */
  datatype UserOrder = UserOrder(userId: Value, userEmail: Value, userFullName: Value,
                                 orderId: Value, productName: Value, quantity: Value,
                                 price: Value, orderCreatedAt: Value)

  /** The row for `order` placed by `user`; the price is read from `priceField`
      (`total_price` in models.py, `price` in db/db.py). */
  function MakeUserOrder(user: Record, order: Record, priceField: string): UserOrder
  {
    UserOrder(GetField(user, "id"), GetField(user, "email"), GetField(user, "full_name"),
              GetField(order, "id"), GetField(order, "product_name"), GetField(order, "quantity"),
              GetField(order, priceField), GetField(order, "created_at"))
  }

  /** The owner of `order` as `users.get(order.user_id)` finds it. */
  function OwnerOf(order: Record, users: Table): Option<Record>
  {
    users.Get(GetField(order, "user_id"))
  }

  /** The row one order contributes: one when its user exists, none for an orphan. */
  function OrderRow(order: Record, users: Table, priceField: string): seq<UserOrder>
  {
    match OwnerOf(order, users)
    case Some(u) => [MakeUserOrder(u, order, priceField)]
    case None => []
  }

  /** `OrderRow` as the step of the loop over the orders. */
  function RowStep(users: Table, priceField: string): Record -> seq<UserOrder>
  {
    order => OrderRow(order, users, priceField)
  }

  /** What `for order in orders: if user := users.get(order.user_id): append(...)` emits. */
  function UserOrderRows(orders: seq<Record>, users: Table, priceField: string): seq<UserOrder>
  {
    FlatMap(orders, RowStep(users, priceField))
  }

  /** One more order appends its own row. */
  lemma UserOrderRowsSnoc(orders: seq<Record>, order: Record, users: Table, priceField: string)
    ensures UserOrderRows(orders + [order], users, priceField) ==
      UserOrderRows(orders, users, priceField) + OrderRow(order, users, priceField)
  {
    FlatMapSnoc(orders, order, RowStep(users, priceField));
  }

  /** One order yields one row when its user exists and none when it is an orphan. */
  lemma UserOrderRowsOne(order: Record, users: Table, priceField: string)
    ensures UserOrderRows([order], users, priceField) ==
      if OwnerOf(order, users).Some? then [MakeUserOrder(OwnerOf(order, users).value, order, priceField)] else []
  {
    UserOrderRowsSnoc([], order, users, priceField);
    assert [] + [order] == [order];
  }

  /** Rows come out grouped in order iteration order. */
  lemma UserOrderRowsAppend(a: seq<Record>, b: seq<Record>, users: Table, priceField: string)
    ensures UserOrderRows(a + b, users, priceField) == UserOrderRows(a, users, priceField) + UserOrderRows(b, users, priceField)
  {
    FlatMapAppend(a, b, RowStep(users, priceField));
  }

  /** A row is in the join exactly when some order with an existing owner produced it. */
  lemma UserOrderRowsIff(orders: seq<Record>, users: Table, priceField: string, row: UserOrder)
    ensures row in UserOrderRows(orders, users, priceField) <==>
      exists i :: 0 <= i < |orders| && OwnerOf(orders[i], users).Some? &&
                  row == MakeUserOrder(OwnerOf(orders[i], users).value, orders[i], priceField)
  {
    FlatMapIff(orders, RowStep(users, priceField), row);
    if row in UserOrderRows(orders, users, priceField) {
      var i :| 0 <= i < |orders| && row in RowStep(users, priceField)(orders[i]);
      assert OwnerOf(orders[i], users).Some? &&
             row == MakeUserOrder(OwnerOf(orders[i], users).value, orders[i], priceField);
    }
    if exists i :: 0 <= i < |orders| && OwnerOf(orders[i], users).Some? &&
                   row == MakeUserOrder(OwnerOf(orders[i], users).value, orders[i], priceField) {
      var i :| 0 <= i < |orders| && OwnerOf(orders[i], users).Some? &&
               row == MakeUserOrder(OwnerOf(orders[i], users).value, orders[i], priceField);
      assert row in RowStep(users, priceField)(orders[i]);
    }
  }
}
