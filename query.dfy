/** The `get` handler: walks every table, every service of each table and
    every order of each service, keeps the orders that pass the query's
    filters, and lists them twice: flat, and as "rich info" entries that
    carry the service's waiter and the table's number. */
module Query {
  import opened OrderModel

  /** The query-string filters; `None` is a filter that was not given. */
  datatype Filter = Filter(serviceDone: Option<bool>, orderType: Option<string>, processed: Option<bool>)

  datatype RichInfo = RichInfo(order: Order, waiter: UserId, tableNumber: int)

  /** The response of a query without `orderId`. */
  datatype Listing = Listing(orders: seq<Order>, richInfo: seq<RichInfo>)

  /** `Boolean(order.processed)`. */
  predicate IsProcessed(o: Order)
  {
    o.processed.Some?
  }

  predicate ServiceIncluded(s: Service, f: Filter)
  {
    f.serviceDone.None? || f.serviceDone.value == s.done
  }

  predicate OrderMatches(o: Order, f: Filter)
  {
    && (f.orderType.None? || TypeName(o.kind) == f.orderType.value)
    && (f.processed.None? || f.processed.value == IsProcessed(o))
  }

  /** `Table.find(findBlock)`: every table, or those with the requested number. */
  function SelectTables(tables: seq<TableDoc>, tableNumber: Option<int>): (r: seq<TableDoc>)
    ensures forall t :: t in r <==> t in tables && (tableNumber.None? || t.number == tableNumber.value)
  {
    if tables == [] then []
    else
      var rest := SelectTables(tables[1..], tableNumber);
      if tableNumber.None? || tables[0].number == tableNumber.value then [tables[0]] + rest else rest
  }

  /** The filter callback applied to one service's orders. */
  function Matching(orders: seq<Order>, f: Filter): (r: seq<Order>)
    ensures |r| <= |orders|
    ensures forall o :: o in r <==> o in orders && OrderMatches(o, f)
  {
    if orders == [] then []
    else if OrderMatches(orders[0], f) then [orders[0]] + Matching(orders[1..], f)
    else Matching(orders[1..], f)
  }

  /** The filter keeps the passing orders in their order in the service:
      filtering distributes over concatenation. */
  lemma {:induction false} MatchingAppend(a: seq<Order>, b: seq<Order>, f: Filter)
    ensures Matching(a + b, f) == Matching(a, f) + Matching(b, f)
  {
    if a == [] {
      assert a + b == b;
    } else {
      var ab := a + b;
      assert ab[0] == a[0];
      assert ab[1..] == a[1..] + b;
      MatchingAppend(a[1..], b, f);
      if OrderMatches(a[0], f) {
        assert Matching(ab, f) == [a[0]] + Matching(a[1..] + b, f);
        assert Matching(a, f) == [a[0]] + Matching(a[1..], f);
      } else {
        assert Matching(ab, f) == Matching(a[1..] + b, f);
        assert Matching(a, f) == Matching(a[1..], f);
      }
    }
  }

  function Annotated(orders: seq<Order>, waiter: UserId, number: int): seq<RichInfo>
  {
    seq(|orders|, i requires 0 <= i < |orders| => RichInfo(orders[i], waiter, number))
  }

  function ServiceEntries(number: int, s: Service, f: Filter): seq<RichInfo>
  {
    if ServiceIncluded(s, f) then Annotated(Matching(s.orders, f), s.waiter, number) else []
  }

  /** The entries of one table's services, in service order. */
  function TableEntries(number: int, services: seq<Service>, f: Filter): seq<RichInfo>
  {
    if services == [] then []
    else
      var n := |services| - 1;
      TableEntries(number, services[..n], f) + ServiceEntries(number, services[n], f)
  }

  /** The entries of all tables, in table order. */
  function Entries(tables: seq<TableDoc>, f: Filter): seq<RichInfo>
  {
    if tables == [] then []
    else
      var n := |tables| - 1;
      Entries(tables[..n], f) + TableEntries(tables[n].number, tables[n].services, f)
  }

  function OrdersOf(entries: seq<RichInfo>): seq<Order>
  {
    seq(|entries|, i requires 0 <= i < |entries| => entries[i].order)
  }

  /** Every entry is a matching order of an included service of one of the
      tables, with that service's waiter and that table's number. */
  lemma {:induction false} EntriesSound(tables: seq<TableDoc>, f: Filter, e: RichInfo)
    requires e in Entries(tables, f)
    ensures exists t, s ::
      (t in tables && s in t.services && ServiceIncluded(s, f)
       && e.order in s.orders && OrderMatches(e.order, f)
       && e.waiter == s.waiter && e.tableNumber == t.number)
  {
    if tables != [] {
      var n := |tables| - 1;
      if e in Entries(tables[..n], f) {
        EntriesSound(tables[..n], f, e);
        var t, s :| t in tables[..n] && s in t.services && ServiceIncluded(s, f)
          && e.order in s.orders && OrderMatches(e.order, f)
          && e.waiter == s.waiter && e.tableNumber == t.number;
        assert t in tables;
      } else {
        TableEntriesSound(tables[n].number, tables[n].services, f, e);
        assert tables[n] in tables;
      }
    }
  }

  lemma {:induction false} TableEntriesSound(number: int, services: seq<Service>, f: Filter, e: RichInfo)
    requires e in TableEntries(number, services, f)
    ensures exists s ::
      (s in services && ServiceIncluded(s, f)
       && e.order in s.orders && OrderMatches(e.order, f)
       && e.waiter == s.waiter && e.tableNumber == number)
  {
    if services != [] {
      var n := |services| - 1;
      if e in TableEntries(number, services[..n], f) {
        TableEntriesSound(number, services[..n], f, e);
        var s :| s in services[..n] && ServiceIncluded(s, f)
          && e.order in s.orders && OrderMatches(e.order, f)
          && e.waiter == s.waiter && e.tableNumber == number;
        assert s in services;
      } else {
        var s := services[n];
        var es := Annotated(Matching(s.orders, f), s.waiter, number);
        var k :| 0 <= k < |es| && es[k] == e;
        assert e.order in Matching(s.orders, f);
        assert s in services;
      }
    }
  }

  /** Every matching order of an included service of one of the tables is
      listed, with its service's waiter and its table's number. */
  lemma {:induction false} EntriesComplete(tables: seq<TableDoc>, f: Filter, t: TableDoc, s: Service, o: Order)
    requires t in tables && s in t.services && o in s.orders
    requires ServiceIncluded(s, f) && OrderMatches(o, f)
    ensures RichInfo(o, s.waiter, t.number) in Entries(tables, f)
  {
    var n := |tables| - 1;
    if t == tables[n] {
      TableEntriesComplete(t.number, t.services, f, s, o);
    } else {
      assert t in tables[..n] by {
        var k :| 0 <= k < |tables| && tables[k] == t;
        assert k != n;
        assert tables[..n][k] == t;
      }
      EntriesComplete(tables[..n], f, t, s, o);
    }
  }

  lemma {:induction false} TableEntriesComplete(number: int, services: seq<Service>, f: Filter, s: Service, o: Order)
    requires s in services && o in s.orders
    requires ServiceIncluded(s, f) && OrderMatches(o, f)
    ensures RichInfo(o, s.waiter, number) in TableEntries(number, services, f)
  {
    var n := |services| - 1;
    if s == services[n] {
      var ms := Matching(s.orders, f);
      var k :| 0 <= k < |ms| && ms[k] == o;
      assert Annotated(ms, s.waiter, number)[k] == RichInfo(o, s.waiter, number);
    } else {
      assert s in services[..n] by {
        var k :| 0 <= k < |services| && services[k] == s;
        assert k != n;
        assert services[..n][k] == s;
      }
      TableEntriesComplete(number, services[..n], f, s, o);
    }
  }

  /** Entries follow the traversal order: those of earlier tables come before
      those of later ones. */
  lemma {:induction false} EntriesAppend(a: seq<TableDoc>, b: seq<TableDoc>, f: Filter)
    ensures Entries(a + b, f) == Entries(a, f) + Entries(b, f)
  {
    if b == [] {
      assert a + b == a;
    } else {
      var n := |b| - 1;
      assert (a + b)[..|a + b| - 1] == a + b[..n];
      assert (a + b)[|a + b| - 1] == b[n];
      EntriesAppend(a, b[..n], f);
    }
  }

  /** Within a table, the entries of earlier services come before those of
      later ones. */
  lemma {:induction false} TableEntriesAppend(number: int, a: seq<Service>, b: seq<Service>, f: Filter)
    ensures TableEntries(number, a + b, f) == TableEntries(number, a, f) + TableEntries(number, b, f)
  {
    if b == [] {
      assert a + b == a;
    } else {
      var n := |b| - 1;
      var ab := a + b;
      assert ab[..|ab| - 1] == a + b[..n];
      assert ab[|ab| - 1] == b[n];
      calc {
        TableEntries(number, ab, f);
        TableEntries(number, a + b[..n], f) + ServiceEntries(number, b[n], f);
        { TableEntriesAppend(number, a, b[..n], f); }
        TableEntries(number, a, f) + TableEntries(number, b[..n], f) + ServiceEntries(number, b[n], f);
        TableEntries(number, a, f) + TableEntries(number, b, f);
      }
    }
  }

  /** One more service extends a table's entries by that service's. */
  lemma TableEntriesSnoc(number: int, services: seq<Service>, j: nat, f: Filter)
    requires j < |services|
    ensures TableEntries(number, services[..j + 1], f)
      == TableEntries(number, services[..j], f) + ServiceEntries(number, services[j], f)
  {
    assert services[..j + 1][..j] == services[..j];
  }

  /** One more table extends the entries by that table's. */
  lemma EntriesSnoc(tables: seq<TableDoc>, i: nat, f: Filter)
    requires i < |tables|
    ensures Entries(tables[..i + 1], f)
      == Entries(tables[..i], f) + TableEntries(tables[i].number, tables[i].services, f)
  {
    assert tables[..i + 1][..i] == tables[..i];
  }

  lemma OrdersOfAnnotated(before: seq<RichInfo>, orders: seq<Order>, waiter: UserId, number: int)
    ensures OrdersOf(before + Annotated(orders, waiter, number)) == OrdersOf(before) + orders
  {
    var all := before + Annotated(orders, waiter, number);
    assert forall i :: |before| <= i < |all| ==> all[i].order == orders[i - |before|];
  }

  /** The body of the per-service callback: filters the service's orders
      (when the service passes the `serviceDone` filter), pushes one rich-info
      entry per kept order and concatenates the kept orders to `orders`. */
  method CollectService(number: int, service: Service, f: Filter, richInfo: seq<RichInfo>, orders: seq<Order>)
    returns (richInfo': seq<RichInfo>, orders': seq<Order>)
    requires orders == OrdersOf(richInfo)
    ensures richInfo' == richInfo + ServiceEntries(number, service, f)
    ensures orders' == OrdersOf(richInfo')
  {
    var newOrders: seq<Order> := [];
    if f.serviceDone.None? || f.serviceDone.value == service.done {
      newOrders := Matching(service.orders, f);
    }
    richInfo' := richInfo;
    for k := 0 to |newOrders|
      invariant richInfo' == richInfo + Annotated(newOrders[..k], service.waiter, number)
    {
      richInfo' := richInfo' + [RichInfo(newOrders[k], service.waiter, number)];
    }
    assert newOrders[..|newOrders|] == newOrders;
    OrdersOfAnnotated(richInfo, newOrders, service.waiter, number);
    orders' := orders + newOrders;
  }

  /** The body of the per-table callback: runs the per-service callback over
      the table's services in order. */
  method CollectTable(table: TableDoc, f: Filter, richInfo: seq<RichInfo>, orders: seq<Order>)
    returns (richInfo': seq<RichInfo>, orders': seq<Order>)
    requires orders == OrdersOf(richInfo)
    ensures richInfo' == richInfo + TableEntries(table.number, table.services, f)
    ensures orders' == OrdersOf(richInfo')
  {
    richInfo', orders' := richInfo, orders;
    for j := 0 to |table.services|
      invariant richInfo' == richInfo + TableEntries(table.number, table.services[..j], f)
      invariant orders' == OrdersOf(richInfo')
    {
      TableEntriesSnoc(table.number, table.services, j, f);
      richInfo', orders' := CollectService(table.number, table.services[j], f, richInfo', orders');
    }
    assert table.services[..|table.services|] == table.services;
  }

  /** The `get` handler once `Table.find` has resolved to `tables`. With an
      `orderId` in the query string it reads the misspelt
      `response.rinchInfo`, which is undefined, and throws; otherwise it
      answers with the flat orders and the rich info, entry by entry about
      the same order. */
  method Get(tables: seq<TableDoc>, tableNumber: Option<int>, f: Filter, orderId: Option<OrderId>)
    returns (r: Result<Listing, Error>)
    ensures orderId.Some? ==> r == Failure(Crash)
    ensures orderId.None? ==>
      (&& r.Success?
       && r.value.richInfo == Entries(SelectTables(tables, tableNumber), f)
       && |r.value.orders| == |r.value.richInfo|
       && forall i :: 0 <= i < |r.value.orders| ==> r.value.richInfo[i].order == r.value.orders[i])
  {
    var selected := SelectTables(tables, tableNumber);
    var richInfo: seq<RichInfo> := [];
    var orders: seq<Order> := [];
    for i := 0 to |selected|
      invariant richInfo == Entries(selected[..i], f)
      invariant orders == OrdersOf(richInfo)
    {
      EntriesSnoc(selected, i, f);
      richInfo, orders := CollectTable(selected[i], f, richInfo, orders);
    }
    assert selected[..|selected|] == selected;
    if orderId.Some? {
      return Failure(Crash);
    }
    r := Success(Listing(orders, richInfo));
  }
}
