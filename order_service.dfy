/** `OrderService` of backend/app/services/order_service.py, layered over a `RecordStore`. */
module OrderServices {
  import opened Wrappers
  import opened Values
  import opened Sequences
  import opened OrderedMaps
  import opened Tables
  import opened BaseStore
  import opened ServiceStore

  /** The table the service works on. */
  const OrdersTable := "orders"

  /** `f"Order with ID {order_id} not found"`. */
  function OrderNotFound(orderId: Key): DbError
  {
    RecordNotFoundError("Order with ID " + PyStr(orderId) + " not found")
  }

  /** The dict `create_order` stores: the input fields, a new string id and one instant as
      both creation and update time. */
  function NewOrderRecord(orderData: Record, idText: string, now: Value): (r: Record)
    ensures r.Keys == orderData.Keys + {"id", "created_at", "updated_at"}
    ensures r["id"] == Str(idText)
    ensures r["created_at"] == now && r["updated_at"] == now
    ensures forall k :: k in orderData && k !in {"id", "created_at", "updated_at"} ==> r[k] == orderData[k]
  {
    orderData["id" := Str(idText)]["created_at" := now]["updated_at" := now]
  }

  /** One order survives the filter when its `user_id` prints as `user_id`. */
  function KeptFor(order: Record, userId: Key): seq<Record>
  {
    if PyStr(GetField(order, "user_id")) == PyStr(userId) then [order] else []
  }

  /** `KeptFor` as the step of the comprehension. */
  function KeepStep(userId: Key): Record -> seq<Record>
  {
    order => KeptFor(order, userId)
  }

  /** `[order for order in orders if str(order.get("user_id")) == str(user_id)]`. */
  function OrdersForUser(orders: seq<Record>, userId: Key): seq<Record>
  {
    FlatMap(orders, KeepStep(userId))
  }

  /** One more listed order appends itself when it is kept. */
  lemma OrdersForUserSnoc(orders: seq<Record>, order: Record, userId: Key)
    ensures OrdersForUser(orders + [order], userId) == OrdersForUser(orders, userId) + KeptFor(order, userId)
  {
    FlatMapSnoc(orders, order, KeepStep(userId));
  }

  /** An order is returned exactly when it is listed and its `user_id` prints as `user_id`. */
  lemma OrdersForUserIff(orders: seq<Record>, userId: Key, order: Record)
    ensures order in OrdersForUser(orders, userId) <==>
      order in orders && PyStr(GetField(order, "user_id")) == PyStr(userId)
  {
    FlatMapIff(orders, KeepStep(userId), order);
    if order in OrdersForUser(orders, userId) {
      var i :| 0 <= i < |orders| && order in KeepStep(userId)(orders[i]);
      assert orders[i] == order;
    }
    if order in orders && PyStr(GetField(order, "user_id")) == PyStr(userId) {
      var i :| 0 <= i < |orders| && orders[i] == order;
      assert order in KeepStep(userId)(orders[i]);
    }
  }

  /** The filter keeps list order: filtering a concatenation concatenates the filtered parts. */
  lemma OrdersForUserAppend(a: seq<Record>, b: seq<Record>, userId: Key)
    ensures OrdersForUser(a + b, userId) == OrdersForUser(a, userId) + OrdersForUser(b, userId)
  {
    FlatMapAppend(a, b, KeepStep(userId));
  }

  /** Because the filter compares printed values, an order whose `user_id` is stored as a
      string matches the UUID with that text. */
  lemma OrdersForUserMatchesText(order: Record, text: string)
    requires GetField(order, "user_id") == Str(text)
    ensures OrdersForUser([order], Uuid(text)) == [order]
  {
    OrdersForUserSnoc([], order, Uuid(text));
    assert [] + [order] == [order];
  }

  class OrderService {
    const db: RecordStore

    constructor (db: RecordStore)
      ensures this.db == db
    {
      this.db := db;
    }

    /** `create_order`: stores the order with a new id and one timestamp for both times;
        the read-back that follows always finds it. */
    method CreateOrder(orderData: Record, idText: string, now: Value, storeId: Key) returns (r: Result<Record, DbError>)
      requires db.Valid()
      requires db.TableOf(OrdersTable).Get(storeId).None?
      modifies db
      ensures db.Valid()
      ensures r == Success(NewOrderRecord(orderData, idText, now))
      ensures db.tables == old(db.tables)[OrdersTable := old(db.TableOf(OrdersTable)).Put(storeId, r.value)]
    {
      var orderDict := NewOrderRecord(orderData, idText, now);
      var recordId := db.CreateRecord(OrdersTable, orderDict, storeId);
      var stored := db.GetRecord(OrdersTable, recordId);
      if !Present(stored) {
        assert false;
        return Failure(DatabaseError("Failed to retrieve created order"));
      }
      r := Success(stored.value);
    }

    /** `get_order`: a missing (or empty) record is `RecordNotFoundError`. */
    method GetOrder(orderId: Key) returns (r: Result<Record, DbError>)
      ensures !Present(db.TableOf(OrdersTable).Get(orderId)) ==> r == Failure(OrderNotFound(orderId))
      ensures Present(db.TableOf(OrdersTable).Get(orderId)) ==> r == Success(db.TableOf(OrdersTable).Get(orderId).value)
    {
      var order := db.GetRecord(OrdersTable, orderId);
      if !Present(order) {
        return Failure(OrderNotFound(orderId));
      }
      r := Success(order.value);
    }

    /** `update_order`: not found before any write; otherwise writes the current record
        overlaid with the non-`None` fields and a fresh `updated_at`, and a store that
        answers `False` becomes `DatabaseError`. */
    method UpdateOrder(orderId: Key, orderData: Record, now: Value) returns (r: Result<Record, DbError>)
      requires db.Valid()
      modifies db
      ensures db.Valid()
      ensures !Present(old(db.TableOf(OrdersTable).Get(orderId))) ==>
        r == Failure(OrderNotFound(orderId)) && db.tables == old(db.tables)
      ensures Present(old(db.TableOf(OrdersTable).Get(orderId))) ==>
        var written := MergeStamped(old(db.TableOf(OrdersTable).Get(orderId)).value, DropNone(orderData), now);
        (r == Success(written) &&
         db.tables == old(db.tables)[OrdersTable := old(db.TableOf(OrdersTable)).Put(orderId, written)]) ||
        (r == Failure(DatabaseError("Failed to update order with ID " + PyStr(orderId))) &&
         db.tables == old(db.tables))
    {
      var current := db.GetRecord(OrdersTable, orderId);
      if !Present(current) {
        return Failure(OrderNotFound(orderId));
      }
      var updateData := DropNone(orderData);
      var orderDict := MergeStamped(current.value, updateData, now);
      var success := db.UpdateRecord(OrdersTable, orderId, orderDict);
      if !success {
        return Failure(DatabaseError("Failed to update order with ID " + PyStr(orderId)));
      }
      MergeStampedCovers(current.value, updateData, now);
      var updated := db.GetRecord(OrdersTable, orderId);
      if !Present(updated) {
        assert false;
        return Failure(DatabaseError("Failed to retrieve updated order with ID " + PyStr(orderId)));
      }
      r := Success(updated.value);
    }

    /** `delete_order`: a store `False` becomes `RecordNotFoundError`. */
    method DeleteOrder(orderId: Key) returns (r: Result<bool, DbError>)
      requires db.Valid()
      modifies db
      ensures db.Valid()
      ensures old(db.TableOf(OrdersTable).Get(orderId)).Some? ==>
        r == Success(true) && db.tables == old(db.tables)[OrdersTable := old(db.TableOf(OrdersTable)).Remove(orderId)]
      ensures old(db.TableOf(OrdersTable).Get(orderId)).None? ==>
        r == Failure(OrderNotFound(orderId)) && db.tables == old(db.tables)
    {
      var success := db.DeleteRecord(OrdersTable, orderId);
      if !success {
        return Failure(OrderNotFound(orderId));
      }
      r := Success(true);
    }

    /** `get_user_orders`: the listed orders of that user, in list order. */
    method GetUserOrders(userId: Key) returns (orders: seq<Record>)
      requires db.Valid()
      ensures orders == OrdersForUser(db.TableOf(OrdersTable).Values(), userId)
    {
      var all := db.ListRecords(OrdersTable);
      orders := OrdersForUser(all, userId);
    }
  }

  /** An update never drops a field: what `update_order` writes holds every field the order
      had, the supplied non-`None` values and the new `updated_at`. */
  lemma UpdateKeepsFields(current: Record, orderData: Record, now: Value, k: string)
    requires k in current && (k !in orderData || orderData[k] == Null) && k != "updated_at"
    ensures MergeStamped(current, DropNone(orderData), now)[k] == current[k]
  {
  }
}
