/** Handing waiting orders to couriers: the order list of a city in Redis, the search for the closest order, and the
    waiting loop that turns the list around. */
module CourierDispatch {
  import opened Options

  type Coordinates = (real, real)

  datatype Order = Order(id: int, coordinates: Coordinates)

  /** What the list holds: an order as JSON text, or the mark that is written over an entry before it is removed. */
  datatype Entry = Text(order: Order) | RemoveIt

  datatype Courier = Courier(coordinates: Coordinates, radius: real)

  datatype Delivery = Delivery(order: Order, distance: real)

  /** The entries without the first one that equals `value`. */
  function Without(entries: seq<Entry>, value: Entry): seq<Entry> {
    if entries == [] then [] else if entries[0] == value then entries[1..]
                                  else [entries[0]] + Without(entries[1..], value)
  }

  function Texts(orders: seq<Order>): (entries: seq<Entry>)
    ensures |entries| == |orders|
  {
    seq(|orders|, (i: int) requires 0 <= i < |orders| => Text(orders[i]))
  }

  /** The list without entry `i`. */
  function Removed(orders: seq<Order>, i: nat): seq<Order>
    requires i < |orders|
  {
    orders[..i] + orders[i + 1..]
  }

  lemma RemovedLater(orders: seq<Order>, i: nat)
    requires 0 < i < |orders|
    ensures Removed(orders, i) == [orders[0]] + Removed(orders[1..], i - 1)
  {
    assert orders[..i] == [orders[0]] + orders[1..][..i - 1] && orders[i + 1..] == orders[1..][i..];
  }

  lemma {:induction false} MarkRemoved(orders: seq<Order>, i: nat)
    requires i < |orders|
    ensures Without(Texts(orders)[i := RemoveIt], RemoveIt) == Texts(Removed(orders, i))
  {
    var marked := Texts(orders)[i := RemoveIt];
    if i == 0 {
      assert marked[1..] == Texts(Removed(orders, 0));
    } else {
      MarkRemoved(orders[1..], i - 1);
      assert marked[1..] == Texts(orders[1..])[i - 1 := RemoveIt];
      RemovedLater(orders, i);
      assert Texts(Removed(orders, i)) == [Text(orders[0])] + Texts(Removed(orders[1..], i - 1));
    }
  }

  /** The order list of one city. */
  class OrderQueue {
    var list: seq<Entry>
    ghost var orders: seq<Order>

    ghost predicate Valid()
      reads this
    {
      list == Texts(orders)
    }

    constructor ()
      ensures Valid() && orders == []
    {
      list, orders := [], [];
    }

    /** `addOrder`: rpush. */
    method AddOrder(order: Order)
      requires Valid()
      modifies this
      ensures Valid() && orders == old(orders) + [order]
    {
      list := list + [Text(order)];
      orders := orders + [order];
    }

    /** `getOrder`: rpop; parsing a missing entry gives null. */
    method GetOrder() returns (order: Option<Order>)
      requires Valid()
      modifies this
      ensures Valid()
      ensures if old(orders) == [] then order == None && orders == []
              else orders == old(orders)[..|old(orders)| - 1] && order == Some(old(orders)[|old(orders)| - 1])
    {
      if |list| == 0 {
        return None;
      }
      order := Some(list[|list| - 1].order);
      list := list[..|list| - 1];
      orders := orders[..|orders| - 1];
    }

    /** `getLen`: llen. */
    method GetLen() returns (n: nat)
      requires Valid()
      ensures n == |orders|
    {
      n := |list|;
    }

    /** `getOrderAt`: lindex. */
    method GetOrderAt(i: nat) returns (order: Option<Order>)
      requires Valid()
      ensures order == if i < |orders| then Some(orders[i]) else None
    {
      order := if i < |list| then Some(list[i].order) else None;
    }

    /** `getOrderAtRemove`: lindex, lset with the mark, lrem of one mark; setting outside the list is an error. */
    method GetOrderAtRemove(i: nat) returns (order: Option<Order>)
      requires Valid()
      modifies this
      ensures Valid()
      ensures if i < |old(orders)| then order == Some(old(orders)[i]) && orders == Removed(old(orders), i)
              else order == None && orders == old(orders)
    {
      if |list| <= i {
        return None;
      }
      MarkRemoved(orders, i);
      order := Some(list[i].order);
      list := list[i := RemoveIt];
      list := Without(list, RemoveIt);
      orders := Removed(orders, i);
    }

    /** `brpoplpush` from the list to itself; it blocks while the list is empty. */
    method Rotate()
      requires Valid() && orders != []
      modifies this
      ensures Valid() && orders == Turned(old(orders), 1)
      ensures var n := |old(orders)| - 1; orders == [old(orders)[n]] + old(orders)[..n]
    {
      var last := list[|list| - 1];
      list := [last] + list[..|list| - 1];
      orders := Turned(orders, 1);
    }
  }

  /** The list after `k` of its last orders have gone to the front. */
  function Turned(orders: seq<Order>, k: nat): (turned: seq<Order>)
    requires k <= |orders|
    ensures |turned| == |orders|
  {
    orders[|orders| - k..] + orders[..|orders| - k]
  }

  lemma NotTurned(orders: seq<Order>)
    ensures Turned(orders, 0) == orders
  {
  }

  lemma TurnedOnceMore(orders: seq<Order>, k: nat)
    requires k < |orders|
    ensures Turned(Turned(orders, k), 1) == Turned(orders, k + 1)
  {
  }

  /** Which order is examined after `k` misses. */
  function Examined(n: nat, k: nat): (i: nat)
    requires k < n
    ensures i < n
  {
    if k + 1 < n then n - 2 - k else n - 1
  }

  predicate IsClosest(orders: seq<Order>, near: Order -> real, i: nat) {
    && i < |orders|
    && (forall k :: 0 <= k < |orders| ==> near(orders[i]) <= near(orders[k]))
    && (forall k :: 0 <= k < i ==> near(orders[i]) < near(orders[k]))
  }

  datatype Answer = Found(delivery: Delivery, count: nat) | OutOfRange | Waiting

  /** The first part of `getDeliveries`: look at all orders and take the closest one if it is in range. */
  method GetDeliveries(queue: OrderQueue, courier: Courier, distance: (Coordinates, Coordinates) -> real)
    returns (answer: Answer)
    requires queue.Valid()
    modifies queue
    ensures queue.Valid()
    ensures var near := (o: Order) => distance(courier.coordinates, o.coordinates);
            var orders := old(queue.orders);
            match answer
            case Waiting => orders == [] && queue.orders == []
            case OutOfRange =>
              orders != [] && queue.orders == orders && forall o :: o in orders ==> courier.radius < near(o)
            case Found(delivery, count) =>
              count == |orders|
              && exists i: nat :: IsClosest(orders, near, i) && delivery == Delivery(orders[i], near(orders[i]))
                                  && delivery.distance <= courier.radius && queue.orders == Removed(orders, i)
  {
    ghost var near := (o: Order) => distance(courier.coordinates, o.coordinates);
    var initialLen := queue.GetLen();
    if initialLen == 0 {
      return Waiting;
    }
    var count, curs := 0, 0;
    var currentOrder := queue.GetOrderAt(curs);
    var closestIndex := 0;
    var closest := Delivery(currentOrder.value, distance(courier.coordinates, currentOrder.value.coordinates));
    count := count + 1;
    curs := curs + 1;
    var len := queue.GetLen();
    while curs < len
      invariant queue.Valid() && queue.orders == old(queue.orders)
      invariant 1 <= curs <= len == |queue.orders| && count == curs && closestIndex < curs
      invariant IsClosest(queue.orders[..curs], near, closestIndex)
      invariant closest == Delivery(queue.orders[closestIndex], near(queue.orders[closestIndex]))
    {
      currentOrder := queue.GetOrderAt(curs);
      var currentDistance := distance(courier.coordinates, currentOrder.value.coordinates);
      count := count + 1;
      if currentDistance < closest.distance {
        closest := Delivery(currentOrder.value, currentDistance);
        closestIndex := curs;
      }
      curs := curs + 1;
      len := queue.GetLen();
    }
    assert queue.orders[..curs] == queue.orders;
    if closest.distance <= courier.radius {
      var returned := queue.GetOrderAtRemove(closestIndex);
      return Found(closest, count);
    }
    answer := OutOfRange;
  }

  /** One round of the waiting loop: turn the list, take its last order, and put it back when it is too far away. */
  method Round(queue: OrderQueue, courier: Courier, distance: (Coordinates, Coordinates) -> real)
    returns (found: Option<Delivery>)
    requires queue.Valid() && queue.orders != []
    modifies queue
    ensures queue.Valid()
    ensures var turned := Turned(old(queue.orders), 1);
            var n := |turned| - 1;
            var d := distance(courier.coordinates, turned[n].coordinates);
            if d <= courier.radius then found == Some(Delivery(turned[n], d)) && queue.orders == turned[..n]
            else found == None && queue.orders == turned
  {
    queue.Rotate();
    var orderRemoved := queue.GetOrder();
    var orderReturned := Delivery(orderRemoved.value, distance(courier.coordinates, orderRemoved.value.coordinates));
    if orderReturned.distance <= courier.radius {
      return Some(orderReturned);
    }
    queue.AddOrder(orderReturned.order);
    found := None;
  }

  predicate InRange(courier: Courier, distance: (Coordinates, Coordinates) -> real, o: Order) {
    distance(courier.coordinates, o.coordinates) <= courier.radius
  }

  /** Every order is examined once in `n` rounds. */
  lemma AllExamined(n: nat, i: nat) returns (k: nat)
    requires i < n
    ensures k < n && Examined(n, k) == i && forall j :: 0 <= j < n && Examined(n, j) == i ==> j == k
  {
    k := if i == n - 1 then n - 1 else n - 2 - i;
  }

  /** The order that a hit after `k` misses takes out, and what stays. */
  lemma HitAfter(orders: seq<Order>, k: nat)
    requires k < |orders|
    ensures var turned, n, i := Turned(Turned(orders, k), 1), |orders| - 1, Examined(|orders|, k);
            && turned == Turned(orders, k + 1) && turned[n] == orders[i]
            && turned[..n] == Rest(orders, k) && multiset(Rest(orders, k)) + multiset{orders[i]} == multiset(orders)
  {
    TurnedOnceMore(orders, k);
    TurnedKeeps(orders, k + 1);
    var turned, n := Turned(orders, k + 1), |orders| - 1;
    assert turned == turned[..n] + [turned[n]];
  }

  /** What stays in the list after a hit that follows `k` misses. */
  function Rest(orders: seq<Order>, k: nat): seq<Order>
    requires k < |orders|
  {
    var n := |orders| - 1;
    if k < n then orders[n - k..] + orders[..n - 1 - k] else orders[..n]
  }

  lemma HitAt(orders: seq<Order>, k: nat)
    requires k < |orders|
    ensures var n := |orders| - 1;
            && Examined(|orders|, k) == (if k < n then n - 1 - k else n)
            && Rest(orders, k) == (if k < n then orders[n - k..] + orders[..n - 1 - k] else orders[..n])
  {
  }

  /** The waiting loop on a stable list that has an order in range. It takes the first such order in the order of
      examination, after at most one round per order, and loses none of the others. */
  method Wait(queue: OrderQueue, courier: Courier, distance: (Coordinates, Coordinates) -> real)
    returns (delivery: Delivery, count: nat)
    requires queue.Valid() && exists o :: o in queue.orders && InRange(courier, distance, o)
    modifies queue
    ensures queue.Valid() && 1 <= count <= |old(queue.orders)|
    ensures var orders := old(queue.orders);
            var n := |orders| - 1;
            var i := if count <= n then n - count else n;
            && delivery == Delivery(orders[i], distance(courier.coordinates, orders[i].coordinates))
            && delivery.distance <= courier.radius
            && (forall k: nat :: n - count < k < n
                            ==> courier.radius < distance(courier.coordinates, orders[k].coordinates))
            && queue.orders == (if count <= n then orders[n + 1 - count..] + orders[..i] else orders[..n])
            && multiset(queue.orders) + multiset{orders[i]} == multiset(orders)
  {
    hide Turned, Rest, Examined;
    ghost var orders := queue.orders;
    ghost var last := LastRound(orders, courier, distance);
    ghost var n := |orders| - 1;
    count := 0;
    NotTurned(orders);
    while true
      invariant queue.Valid() && 0 <= count <= last < |orders| && queue.orders == Turned(orders, count)
      invariant forall k: nat :: n - count <= k < n
                                 ==> courier.radius < distance(courier.coordinates, orders[k].coordinates)
      decreases last - count
    {
      HitAfter(orders, count);
      HitAt(orders, count);
      var orderReturned := Round(queue, courier, distance);
      count := count + 1;
      if orderReturned.Some? {
        return orderReturned.value, count;
      }
    }
  }

  lemma LastRound(orders: seq<Order>, courier: Courier, distance: (Coordinates, Coordinates) -> real) returns (k: nat)
    requires exists o :: o in orders && InRange(courier, distance, o)
    ensures k < |orders| && InRange(courier, distance, orders[Examined(|orders|, k)])
  {
    var o :| o in orders && InRange(courier, distance, o);
    var i :| 0 <= i < |orders| && orders[i] == o;
    k := AllExamined(|orders|, i);
  }

  lemma TurnedKeeps(orders: seq<Order>, k: nat)
    requires k <= |orders|
    ensures multiset(Turned(orders, k)) == multiset(orders)
  {
    assert orders == orders[..|orders| - k] + orders[|orders| - k..];
  }
}
