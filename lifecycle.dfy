/** The three handlers that change a loaded table: `create` appends an order,
    `update` patches an order of the last service, `remove` drops an order
    from the last service. Each is specified by a function on table values
    (CreateOn, UpdateOn, RemoveOn) whose properties are the lemmas below, and
    implemented by a method that changes the loaded `Table` in place. */
module Lifecycle {
  import opened OrderModel
  import ItemPatch
  import JsInt32

  // ---------------------------------------------------------------------
  // create
  // ---------------------------------------------------------------------

  /** `covers | order.items.length`: a bitwise OR, not a default. A missing
      `coversNumber` is `undefined`, which the operator reads as 0. */
  function ServiceCovers(covers: Option<int>, itemCount: nat): int
  {
    JsInt32.BitwiseOr(if covers.Some? then covers.value else 0, itemCount)
  }

  /** Without a covers count the new service counts one cover per item, and
      with one it gets at least that many covers but possibly more: 2 covers
      with 1 item give 3. */
  lemma ServiceCoversIsBitwiseOr(covers: Option<int>, itemCount: nat)
    requires itemCount < JsInt32.TwoTo31 / 2
    requires covers.Some? ==> 0 <= covers.value < JsInt32.TwoTo31 / 2
    ensures covers.None? ==> ServiceCovers(covers, itemCount) == itemCount
    ensures covers.Some? ==>
      && covers.value <= ServiceCovers(covers, itemCount)
      && itemCount <= ServiceCovers(covers, itemCount)
      && ServiceCovers(covers, itemCount) <= covers.value + itemCount
    ensures ServiceCovers(Some(2), 1) == 3
  {
    JsInt32.BitwiseOrOfSmall(if covers.Some? then covers.value else 0, itemCount);
    JsInt32.BitwiseOrExamples();
  }

  /** Outside that range the OR can give fewer covers than items, even a
      negative count: a `coversNumber` from -2^31 to -1 or from 2^31 to
      2^32 - 1 reads as a negative 32-bit integer (-1 covers with 3 items
      give -1), and larger ones wrap modulo 2^32 first (2^32 covers with 3
      items give 3). */
  lemma ServiceCoversOutOfRange(c: int, itemCount: nat)
    requires -JsInt32.TwoTo31 <= c < 0 || JsInt32.TwoTo31 <= c < JsInt32.TwoTo32
    requires itemCount < JsInt32.TwoTo32
    ensures ServiceCovers(Some(c), itemCount) < 0
    ensures ServiceCovers(Some(-1), 3) == -1
    ensures ServiceCovers(Some(JsInt32.TwoTo32), 3) == 3
  {
    JsInt32.Pow2Of32();
    JsInt32.OrBitsWithin(JsInt32.ToUint32(c), itemCount, 32);
    assert JsInt32.ToUint32(-1) == JsInt32.TwoTo32 - 1;
    JsInt32.OrBitsWithin(JsInt32.TwoTo32 - 1, 3, 32);
    assert JsInt32.ToUint32(JsInt32.TwoTo32) == 0;
    JsInt32.OrBitsZero(3, 32);
  }

  /** A table needs a new service when it has none or its last one is done. */
  predicate NeedsNewService(services: seq<Service>)
  {
    services == [] || services[|services| - 1].done
  }

  /** The table after `create` appended `order` on behalf of `caller`. */
  function CreateOn(t: TableDoc, order: Order, covers: Option<int>, caller: UserId): TableDoc
  {
    if NeedsNewService(t.services) then
      var service := Service(ServiceCovers(covers, |order.items|), caller, [order], false);
      t.(services := t.services + [service], busy := true)
    else
      var last := |t.services| - 1;
      t.(services := t.services[last := t.services[last].(orders := t.services[last].orders + [order])])
  }

  /** On a table without an open service, `create` opens exactly one new
      service holding only the order, served by the caller, and marks the
      table busy; earlier services are untouched. */
  lemma CreateOpensService(t: TableDoc, order: Order, covers: Option<int>, caller: UserId)
    requires NeedsNewService(t.services)
    ensures var r := CreateOn(t, order, covers, caller);
      && r.number == t.number
      && r.busy
      && |r.services| == |t.services| + 1
      && r.services[..|t.services|] == t.services
      && r.services[|t.services|] == Service(ServiceCovers(covers, |order.items|), caller, [order], false)
  {
  }

  /** On a table whose last service is open, `create` appends the order to
      that service; nothing else changes. */
  lemma CreateJoinsOpenService(t: TableDoc, order: Order, covers: Option<int>, caller: UserId)
    requires !NeedsNewService(t.services)
    ensures var r := CreateOn(t, order, covers, caller);
      var last := |t.services| - 1;
      && r.number == t.number
      && r.busy == t.busy
      && |r.services| == |t.services|
      && r.services[..last] == t.services[..last]
      && r.services[last] == t.services[last].(orders := t.services[last].orders + [order])
  {
  }

  /** `create` keeps every service but the last one done. */
  lemma CreateKeepsOnlyLastOpen(t: TableDoc, order: Order, covers: Option<int>, caller: UserId)
    requires OnlyLastOpen(t.services)
    ensures OnlyLastOpen(CreateOn(t, order, covers, caller).services)
  {
  }

  /** The `create` handler once `Table.findOne` has resolved: `table` is the
      loaded document, or null when no table has the requested number. */
  method Create(table: Table?, order: Order, covers: Option<int>, caller: UserId)
    returns (r: Result<TableDoc, Error>)
    modifies table
    ensures table == null ==> r == Failure(TableNotFound)
    ensures table != null ==>
      && table.Doc() == CreateOn(old(table.Doc()), order, covers, caller)
      && r == Success(table.Doc())
  {
    if table == null {
      return Failure(TableNotFound);
    }
    if table.services == [] || table.services[|table.services| - 1].done {
      var service := Service(ServiceCovers(covers, |order.items|), caller, [order], false);
      table.services := table.services + [service];
      table.busy := true;
    } else {
      var last := |table.services| - 1;
      table.services := table.services[last := table.services[last].(orders := table.services[last].orders + [order])];
    }
    r := Success(table.Doc());
  }

  // ---------------------------------------------------------------------
  // update
  // ---------------------------------------------------------------------

  /** `orders.findIndex(order => order._id == orderId)`: the first position
      holding that id, or -1. */
  function IndexOfOrder(orders: seq<Order>, id: OrderId): (i: int)
    ensures -1 <= i < |orders|
    ensures 0 <= i ==> orders[i].id == id && forall j :: 0 <= j < i ==> orders[j].id != id
    ensures i == -1 <==> forall j :: 0 <= j < |orders| ==> orders[j].id != id
  {
    if orders == [] then -1
    else if orders[0].id == id then 0
    else
      var k := IndexOfOrder(orders[1..], id);
      if k == -1 then -1 else k + 1
  }

  /** The `updateBlock` of the handler: `items` holds the projected item
      patches when the request carried `updatedInfo.items`, `processed` the
      new value of the order's field when the body carried `processed`. */
  datatype UpdateBlock = UpdateBlock(items: Option<seq<Item>>, processed: Option<Option<int>>)

  predicate IsEmptyBlock(b: UpdateBlock)
  {
    b.items.None? && b.processed.None?
  }

  /** The block built from the request: a truthy `processed` stamps the order
      with `now`, a present but falsy one clears it. */
  function UpdateBlockOf(itemsInfo: Option<seq<Item>>, processed: Option<Json>, now: int): UpdateBlock
  {
    UpdateBlock(
      if itemsInfo.Some? then Some(ItemPatch.PatchesOf(itemsInfo.value)) else None,
      if processed.Some? then Some(if Truthy(processed.value) then Some(now) else None) else None)
  }

  /** Assigns every key of the block to the order; the items are replaced,
      not merged. */
  function ApplyBlock(o: Order, b: UpdateBlock): Order
  {
    var o' := if b.items.Some? then o.(items := b.items.value) else o;
    if b.processed.Some? then o'.(processed := b.processed.value) else o'
  }

  /** The table after `update` of the order `id` with block `b`. An unknown
      id makes the first assignment write into `undefined`, which throws;
      with no key to assign nothing is written and the request succeeds. */
  function UpdateOn(t: TableDoc, id: OrderId, b: UpdateBlock): Result<TableDoc, Error>
  {
    if t.services == [] then Failure(WrongParams)
    else
      var last := |t.services| - 1;
      var s := t.services[last];
      if s.done then Failure(NoUpdatableService(t.number))
      else
        var i := IndexOfOrder(s.orders, id);
        if i == -1 then
          if IsEmptyBlock(b) then Success(t) else Failure(Crash)
        else
          Success(t.(services := t.services[last := s.(orders := s.orders[i := ApplyBlock(s.orders[i], b)])]))
  }

  /** Who is told that an order is ready: the waiter of the last service, when
      the request's `processed` is truthy. */
  function NotifyTarget(t: TableDoc, processed: Option<Json>): Option<UserId>
  {
    if IsTruthy(processed) && t.services != [] then Some(t.services[|t.services| - 1].waiter) else None
  }

  /** `update` is refused, with the table unchanged, when the table has no
      service or when its last service is done. */
  lemma UpdateNeedsOpenService(t: TableDoc, id: OrderId, b: UpdateBlock)
    ensures t.services == [] ==> UpdateOn(t, id, b) == Failure(WrongParams)
    ensures t.services != [] && t.services[|t.services| - 1].done ==>
      UpdateOn(t, id, b) == Failure(NoUpdatableService(t.number))
    ensures UpdateOn(t, id, b).Success? <==>
      (t.services != [] && !t.services[|t.services| - 1].done &&
       (IsEmptyBlock(b) || exists o :: o in t.services[|t.services| - 1].orders && o.id == id))
  {
    if t.services != [] {
      var s := t.services[|t.services| - 1];
      if exists o :: o in s.orders && o.id == id {
        var o :| o in s.orders && o.id == id;
        var j :| 0 <= j < |s.orders| && s.orders[j] == o;
        assert IndexOfOrder(s.orders, id) != -1;
      }
    }
  }

  /** An unknown order id with something to assign ends in a crash and leaves
      the table as it was; with nothing to assign the request succeeds
      unchanged. */
  lemma UpdateUnknownOrder(t: TableDoc, id: OrderId, b: UpdateBlock)
    requires t.services != [] && !t.services[|t.services| - 1].done
    requires forall o :: o in t.services[|t.services| - 1].orders ==> o.id != id
    ensures UpdateOn(t, id, b) == if IsEmptyBlock(b) then Success(t) else Failure(Crash)
  {
    var s := t.services[|t.services| - 1];
    assert forall j :: 0 <= j < |s.orders| ==> s.orders[j] in s.orders;
  }

  /** A successful update changes only the first order with that id in the
      last service, and on it only the keys present in the block: `items` is
      replaced by the patches and `processed` set as the block says. */
  lemma UpdateChangesOnlyThatOrder(t: TableDoc, id: OrderId, b: UpdateBlock)
    requires t.services != [] && !t.services[|t.services| - 1].done
    requires IndexOfOrder(t.services[|t.services| - 1].orders, id) != -1
    ensures var r := UpdateOn(t, id, b);
      var last := |t.services| - 1;
      var s := t.services[last];
      var i := IndexOfOrder(s.orders, id);
      && r.Success?
      && r.value.number == t.number && r.value.busy == t.busy
      && |r.value.services| == |t.services|
      && r.value.services[..last] == t.services[..last]
      && r.value.services[last].covers == s.covers
      && r.value.services[last].waiter == s.waiter
      && r.value.services[last].done == s.done
      && |r.value.services[last].orders| == |s.orders|
      && (forall j :: 0 <= j < |s.orders| && j != i ==> r.value.services[last].orders[j] == s.orders[j])
      && var o := r.value.services[last].orders[i];
      && o.id == id && o.kind == s.orders[i].kind
      && o.items == (if b.items.Some? then b.items.value else s.orders[i].items)
      && o.processed == (if b.processed.Some? then b.processed.value else s.orders[i].processed)
  {
  }

  /** The items sent with an update replace the order's items: afterwards
      they are exactly the projected patches, so the `item` reference and
      `quantity` of the stored items are gone. */
  lemma UpdateReplacesItems(t: TableDoc, id: OrderId, itemsInfo: seq<Item>, processed: Option<Json>, now: int)
    requires t.services != [] && !t.services[|t.services| - 1].done
    requires IndexOfOrder(t.services[|t.services| - 1].orders, id) != -1
    ensures var r := UpdateOn(t, id, UpdateBlockOf(Some(itemsInfo), processed, now));
      var last := |t.services| - 1;
      var i := IndexOfOrder(t.services[last].orders, id);
      && r.Success?
      && r.value.services[last].orders[i].items == ItemPatch.PatchesOf(itemsInfo)
      && forall p :: p in r.value.services[last].orders[i].items ==> "item" !in p && "quantity" !in p
  {
    UpdateChangesOnlyThatOrder(t, id, UpdateBlockOf(Some(itemsInfo), processed, now));
  }

  /** Marking an order processed stamps it with `now`; marking it not
      processed afterwards takes it back to null, and both succeed. */
  lemma ProcessedToggle(t: TableDoc, id: OrderId, yes: Json, no: Json, now: int, later: int)
    requires t.services != [] && !t.services[|t.services| - 1].done
    requires IndexOfOrder(t.services[|t.services| - 1].orders, id) != -1
    requires Truthy(yes) && !Truthy(no)
    ensures var last := |t.services| - 1;
      var i := IndexOfOrder(t.services[last].orders, id);
      var r1 := UpdateOn(t, id, UpdateBlockOf(None, Some(yes), now));
      && r1.Success?
      && r1.value.services[last].orders[i].processed == Some(now)
      && var r2 := UpdateOn(r1.value, id, UpdateBlockOf(None, Some(no), later));
      && r2.Success?
      && r2.value.services[last].orders[i].processed == None
      && r2.value.services[last].orders[i] == t.services[last].orders[i].(processed := None)
  {
    var last := |t.services| - 1;
    var s := t.services[last];
    var i := IndexOfOrder(s.orders, id);
    var b1 := UpdateBlockOf(None, Some(yes), now);
    UpdateChangesOnlyThatOrder(t, id, b1);
    var t1 := UpdateOn(t, id, b1).value;
    var s1 := t1.services[last];
    assert s1.orders[i].id == id;
    assert forall j :: 0 <= j < i ==> s1.orders[j] == s.orders[j];
    assert IndexOfOrder(s1.orders, id) == i by {
      var k := IndexOfOrder(s1.orders, id);
      assert k != -1;
      assert !(k < i) && !(i < k);
    }
    UpdateChangesOnlyThatOrder(t1, id, UpdateBlockOf(None, Some(no), later));
  }

  /** `update` keeps every service but the last one done. */
  lemma UpdateKeepsOnlyLastOpen(t: TableDoc, id: OrderId, b: UpdateBlock)
    requires OnlyLastOpen(t.services)
    requires UpdateOn(t, id, b).Success?
    ensures OnlyLastOpen(UpdateOn(t, id, b).value.services)
  {
  }

  /** The `update` handler: builds the block from the request, then, once
      `Table.findOne` has resolved (`table` null when no table matched),
      assigns the block's keys to the order and reports whom to notify. */
  method Update(table: Table?, id: OrderId, itemsInfo: Option<seq<Item>>, processed: Option<Json>, now: int)
    returns (r: Result<Option<UserId>, Error>)
    modifies table
    ensures table == null ==> r == Failure(WrongParams)
    ensures table != null ==>
      var u := UpdateOn(old(table.Doc()), id, UpdateBlockOf(itemsInfo, processed, now));
      && (u.Success? ==> table.Doc() == u.value && r == Success(NotifyTarget(u.value, processed)))
      && (u.Failure? ==> table.Doc() == old(table.Doc()) && r == Failure(u.error))
  {
    var items: Option<seq<Item>> := None;
    if itemsInfo.Some? {
      var patches := ItemPatch.ParseItemPatches(itemsInfo.value);
      items := Some(patches);
    }
    var stamp: Option<Option<int>> := None;
    if processed.Some? {
      stamp := if Truthy(processed.value) then Some(Some(now)) else Some(None);
    }
    var block := UpdateBlock(items, stamp);
    assert block == UpdateBlockOf(itemsInfo, processed, now);

    if table == null || table.services == [] {
      return Failure(WrongParams);
    }
    var last := |table.services| - 1;
    if table.services[last].done {
      return Failure(NoUpdatableService(table.number));
    }
    var orders := table.services[last].orders;
    var i := IndexOfOrder(orders, id);
    if i == -1 && !IsEmptyBlock(block) {
      // the first key's assignment writes into `undefined` and throws
      return Failure(Crash);
    }
    if i != -1 {
      var o := orders[i];
      if block.items.Some? {
        o := o.(items := block.items.value);
      }
      if block.processed.Some? {
        o := o.(processed := block.processed.value);
      }
      table.services := table.services[last := table.services[last].(orders := orders[i := o])];
    }
    r := Success(NotifyTarget(table.Doc(), processed));
  }

  // ---------------------------------------------------------------------
  // remove
  // ---------------------------------------------------------------------

  /** `orders.filter(order => `${order._id}` !== orderId)`. */
  function WithoutOrder(orders: seq<Order>, id: OrderId): (r: seq<Order>)
    ensures |r| <= |orders|
    ensures forall o :: o in r <==> o in orders && o.id != id
  {
    if orders == [] then []
    else if orders[0].id == id then WithoutOrder(orders[1..], id)
    else [orders[0]] + WithoutOrder(orders[1..], id)
  }

  /** The filter works piecewise, so the orders it keeps stay in their
      original relative order. */
  lemma {:induction false} WithoutOrderAppend(a: seq<Order>, b: seq<Order>, id: OrderId)
    ensures WithoutOrder(a + b, id) == WithoutOrder(a, id) + WithoutOrder(b, id)
  {
    if a != [] {
      assert (a + b)[1..] == a[1..] + b;
      WithoutOrderAppend(a[1..], b, id);
    } else {
      assert a + b == b;
    }
  }

  /** Filtering out an id that no order carries changes nothing. */
  lemma {:induction false} WithoutAbsentOrder(orders: seq<Order>, id: OrderId)
    requires forall o :: o in orders ==> o.id != id
    ensures WithoutOrder(orders, id) == orders
  {
    if orders != [] {
      assert forall o :: o in orders[1..] ==> o in orders;
      WithoutAbsentOrder(orders[1..], id);
    }
  }

  /** The table after `remove` of the order `id`. The last service is
      filtered whether or not it is done. */
  function RemoveOn(t: TableDoc, id: OrderId): Result<TableDoc, Error>
  {
    if t.services == [] then Failure(TableOrOrderNotFound)
    else
      var last := |t.services| - 1;
      Success(t.(services := t.services[last := t.services[last].(orders := WithoutOrder(t.services[last].orders, id))]))
  }

  /** `remove` on a table with services drops every order with that id from
      the last service, open or done, and changes nothing else; on a table
      without services it reports not-found. */
  lemma RemoveFromLastService(t: TableDoc, id: OrderId)
    ensures t.services == [] ==> RemoveOn(t, id) == Failure(TableOrOrderNotFound)
    ensures t.services != [] ==>
      var r := RemoveOn(t, id);
      var last := |t.services| - 1;
      && r.Success?
      && r.value.number == t.number && r.value.busy == t.busy
      && |r.value.services| == |t.services|
      && r.value.services[..last] == t.services[..last]
      && r.value.services[last] == t.services[last].(orders := WithoutOrder(t.services[last].orders, id))
      && forall o :: o in r.value.services[last].orders <==> o in t.services[last].orders && o.id != id
  {
  }

  /** Removing an id that the last service does not hold leaves the table as
      it was. */
  lemma RemoveAbsentIsNoop(t: TableDoc, id: OrderId)
    requires t.services != []
    requires forall o :: o in t.services[|t.services| - 1].orders ==> o.id != id
    ensures RemoveOn(t, id) == Success(t)
  {
    var last := |t.services| - 1;
    WithoutAbsentOrder(t.services[last].orders, id);
    assert t.services[last := t.services[last]] == t.services;
  }

  /** `remove` keeps every service but the last one done. */
  lemma RemoveKeepsOnlyLastOpen(t: TableDoc, id: OrderId)
    requires OnlyLastOpen(t.services)
    requires t.services != []
    ensures OnlyLastOpen(RemoveOn(t, id).value.services)
  {
  }

  /** The `remove` handler once `Table.findOne` has resolved (`table` null
      when no table matched). */
  method Remove(table: Table?, id: OrderId) returns (r: Result<TableDoc, Error>)
    modifies table
    ensures table == null ==> r == Failure(TableOrOrderNotFound)
    ensures table != null ==>
      var u := RemoveOn(old(table.Doc()), id);
      && (u.Success? ==> table.Doc() == u.value && r == u)
      && (u.Failure? ==> table.Doc() == old(table.Doc()) && r == u)
  {
    if table == null || table.services == [] {
      return Failure(TableOrOrderNotFound);
    }
    var last := |table.services| - 1;
    var s := table.services[last];
    table.services := table.services[last := s.(orders := WithoutOrder(s.orders, id))];
    r := Success(table.Doc());
  }
}
