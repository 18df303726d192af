/** The restaurant's table documents as the order controller sees them once
    the document store has loaded them: a table, its ordered services, the
    orders of each service and the items of each order. */
module OrderModel {

  datatype Option<+T> = None | Some(value: T)

  datatype Result<+R, +E> = Success(value: R) | Failure(error: E)

  /** A scalar JSON value, as it arrives in a request body or sits in a
      loosely typed sub-document. Non-integral numbers are not modelled. */
  datatype Json = Null | Bool(b: bool) | Num(n: int) | Str(s: string)

  /** JavaScript truthiness: `null`, `false`, `0` and `""` are falsy. */
  predicate Truthy(v: Json)
  {
    match v
    case Null => false
    case Bool(b) => b
    case Num(n) => n != 0
    case Str(s) => s != ""
  }

  /** Truthiness of a key that may be missing: a missing key reads as
      `undefined`, which is falsy. */
  predicate IsTruthy(v: Option<Json>)
  {
    v.Some? && Truthy(v.value)
  }

  type UserId = string

  type OrderId = string

  /** An item of an order is an untyped object: at creation it holds the
      `item` reference and the `quantity`, after an update it holds whatever
      keys the patch carried. */
  type Item = map<string, Json>

  datatype OrderType = Food | Beverage

  /** The string stored in an order's `type` field. */
  function TypeName(t: OrderType): string
  {
    match t
    case Food => "food"
    case Beverage => "beverage"
  }

  /** An order; `kind` is the document's `type` field and `processed` the
      timestamp at which it was marked processed, or null. */
  datatype Order = Order(id: OrderId, kind: OrderType, items: seq<Item>, processed: Option<int>)

  datatype Service = Service(covers: int, waiter: UserId, orders: seq<Order>, done: bool)

  /** The value of a table document at one moment. */
  datatype TableDoc = TableDoc(number: int, busy: bool, services: seq<Service>)

  /** What a request ends with when it does not succeed, with the HTTP
      status the controller passes on. */
  datatype Error =
    | TableNotFound                      // 404 "Table not found"
    | TableOrOrderNotFound               // 404 "Table or order not found"
    | WrongParams                        // 400 "Wrong params"
    | NoUpdatableService(table: int)     // 400 "There is no updatable service for table <n>"
    | Crash                              // 500: a TypeError thrown inside the handler

  /** The table invariant the handlers keep: every service but the last one is done,
      so at most the last service is open. */
  predicate OnlyLastOpen(services: seq<Service>)
  {
    forall i :: 0 <= i < |services| - 1 ==> services[i].done
  }

  /** A table document loaded from the store; the order handlers change its
      fields in place before saving it back. */
  class Table {
    var number: int
    var busy: bool
    var services: seq<Service>

    function Doc(): TableDoc
      reads this
    {
      TableDoc(number, busy, services)
    }
  }
}
