/** The order Service of the first homework revision: the same lifecycle
    with its own input validation, plain error values, and the FileStorage
    whose List puts one zero order per stored order in front. */
module FirstService {
  import opened Model
  import opened Listing
  import opened OrderQueries
  import opened Lifecycle
  import LegacyOrderStore
  import FirstOrderStore

  class Service {
    const stor: FirstOrderStore.FileStorage

    constructor (stor: FirstOrderStore.FileStorage)
      ensures this.stor == stor
    {
      this.stor := stor;
    }

    /** AddOrder: validates the ids and the keep date, then stores a fresh
        order added at `now`. */
    method AddOrder(orderId: Id, customerId: Id, keepDate: Time, now: Time) returns (err: Option<Error>)
      requires stor.Valid()
      modifies stor
      ensures stor.Valid() && stor.file == old(stor.file)
      ensures orderId == 0 ==> err == Some(Message("valid order id is required"))
      ensures orderId != 0 && customerId == 0 ==> err == Some(Message("valid customer id is required"))
      ensures orderId != 0 && customerId != 0 && keepDate < now ==> err == Some(Message("keepDate can't be in the past"))
      ensures err.Some? ==> stor.orders == old(stor.orders)
      ensures err.None? <==> orderId != 0 && customerId != 0 && now <= keepDate && orderId !in old(stor.orders)
      ensures err.None? ==> stor.orders == old(stor.orders)[orderId := ZeroOrder.(id := orderId, customerId := customerId, keepDate := keepDate, addDate := now)]
    {
      if orderId == 0 {
        return Some(Message("valid order id is required"));
      }
      if customerId == 0 {
        return Some(Message("valid customer id is required"));
      }
      if keepDate < now {
        return Some(Message("keepDate can't be in the past"));
      }
      err := stor.Create(ZeroOrder.(id := orderId, customerId := customerId, keepDate := keepDate, addDate := now));
    }

    /** RemoveOrder: refuses the zero id, then the lifecycle's removal
        checks. */
    method RemoveOrder(orderId: Id, now: Time) returns (err: Option<Error>)
      requires stor.Valid()
      modifies stor
      ensures stor.Valid() && stor.file == old(stor.file)
      ensures orderId == 0 ==> err == Some(Message("valid order id is required"))
      ensures orderId != 0 ==> err == RemoveError(old(stor.orders), orderId, now, Plain, FirstOrderStore.Missing)
      ensures stor.orders == if err.None? then old(stor.orders) - {orderId} else old(stor.orders)
    {
      if orderId == 0 {
        return Some(Message("valid order id is required"));
      }
      var got := stor.Get(orderId);
      if got.Err? {
        return Some(got.error);
      }
      var order := got.value;
      if order.isGiven && !order.isReturned {
        return Some(Message("order has already been given to customer"));
      }
      if order.keepDate > now {
        return Some(Message("keep date has not arrived yet"));
      }
      err := stor.Delete(orderId);
    }

    /** GiveOrders: the same two passes as the app's service, reporting
        only the error. */
    method GiveOrders(orderIds: seq<Id>, now: Time) returns (err: Option<Error>)
      requires stor.Valid()
      modifies stor
      ensures stor.Valid() && stor.file == old(stor.file)
      ensures err == GiveError(old(stor.orders), orderIds, now, Plain, FirstOrderStore.Missing, None)
      ensures err.Some? ==> stor.orders == old(stor.orders)
      ensures err.None? ==> stor.orders == GivenAll(old(stor.orders), orderIds, now)
    {
      var orders;
      orders, err := CheckBatch(orderIds, now);
      if err.Some? {
        return err;
      }
      err := MarkGiven(orderIds, orders, now);
    }

    /** GiveOrders' first loop. */
    method CheckBatch(ids: seq<Id>, now: Time) returns (orders: seq<Order>, err: Option<Error>)
      ensures err == GiveError(stor.orders, ids, now, Plain, FirstOrderStore.Missing, None)
      ensures err.None? ==> |orders| == |ids| && forall j :: 0 <= j < |ids| ==> ids[j] in stor.orders && orders[j] == stor.orders[ids[j]]
    {
      orders := [];
      var customer: Option<Id> := None;
      var i := 0;
      while i < |ids|
        invariant 0 <= i <= |ids|
        invariant |orders| == i && forall j :: 0 <= j < i ==> ids[j] in stor.orders && orders[j] == stor.orders[ids[j]]
        invariant i == 0 ==> customer.None?
        invariant i > 0 ==> customer == Some(stor.orders[ids[0]].customerId)
        invariant GiveError(stor.orders, ids, now, Plain, FirstOrderStore.Missing, None) == GiveError(stor.orders, ids[i..], now, Plain, FirstOrderStore.Missing, customer)
      {
        assert ids[i..][1..] == ids[i + 1..];
        var got := stor.Get(ids[i]);
        if got.Err? {
          return orders, Some(got.error);
        }
        var order := got.value;
        if order.isGiven {
          return orders, Some(Message("order has already been given"));
        }
        if order.keepDate < now {
          return orders, Some(Message("keep date has already expired"));
        }
        if i == 0 {
          customer := Some(order.customerId);
        } else if order.customerId != customer.value {
          return orders, Some(Message("orders belong to different customers"));
        }
        orders := orders + [order];
        i := i + 1;
      }
      assert ids[|ids|..] == [];
      err := None;
    }

    /** GiveOrders' second loop: no Update fails, every id was found. */
    method MarkGiven(ids: seq<Id>, orders: seq<Order>, now: Time) returns (err: Option<Error>)
      requires stor.Valid()
      requires |orders| == |ids| && forall j :: 0 <= j < |ids| ==> ids[j] in stor.orders && orders[j] == stor.orders[ids[j]]
      modifies stor
      ensures stor.Valid() && stor.file == old(stor.file)
      ensures err.None? && stor.orders == GivenAll(old(stor.orders), ids, now)
    {
      ghost var m := stor.orders;
      var i := 0;
      while i < |orders|
        invariant 0 <= i <= |orders|
        invariant stor.Valid() && stor.file == old(stor.file)
        invariant stor.orders.Keys == m.Keys
        invariant forall k :: k in m ==> stor.orders[k] == if k in ids[..i] then Mark(m[k], now) else m[k]
      {
        assert ids[..i + 1] == ids[..i] + [ids[i]];
        var e := stor.Update(Mark(orders[i], now));
        match e {
          case Some(updateError) => return Some(updateError);
          case None =>
        }
        i := i + 1;
      }
      assert ids[..|ids|] == ids;
      err := None;
    }

    /** GetOrders: validates the customer id and `n`, then the customer's
        `n` latest orders. The zero orders List puts in front never reach
        the result: they belong to customer 0, which is refused. */
    method GetOrders(customerId: Id, n: int, filterGiven: bool) returns (r: Result<seq<Order>>)
      requires stor.Valid()
      ensures customerId == 0 ==> r == Err(Message("valid customer id is required"))
      ensures customerId != 0 && n < 0 ==> r == Err(Message("n must not be negative"))
      ensures r.Ok? <==> customerId != 0 && n >= 0
      ensures r.Ok? ==> IsTopN(stor.orders, ByCustomer(customerId, filterGiven), ByAddDate, n, r.value)
    {
      if customerId == 0 {
        return Err(Message("valid customer id is required"));
      }
      if n < 0 {
        return Err(Message("n must not be negative"));
      }
      var q := ByCustomer(customerId, filterGiven);
      var l, ks := stor.List();
      var matching := FilterLoop(l, q);
      var orders := SortDesc(matching, ByAddDate);
      ListedOnce(stor.orders, l, ks, q, ByAddDate, orders);
      TruncateTopN(stor.orders, q, ByAddDate, n, orders);
      if n > 0 && n < |orders| {
        orders := orders[..n];
      }
      r := Ok(orders);
    }

    /** AcceptReturn: validates both ids, then the lifecycle's return
        checks. */
    method AcceptReturn(orderId: Id, customerId: Id, now: Time) returns (err: Option<Error>)
      requires stor.Valid()
      modifies stor
      ensures stor.Valid() && stor.file == old(stor.file)
      ensures orderId == 0 ==> err == Some(Message("valid order id is required"))
      ensures orderId != 0 && customerId == 0 ==> err == Some(Message("valid customer id is required"))
      ensures orderId != 0 && customerId != 0 ==> err == ReturnError(old(stor.orders), orderId, customerId, now, Plain, FirstOrderStore.Missing)
      ensures err.Some? ==> stor.orders == old(stor.orders)
      ensures err.None? ==> stor.orders == old(stor.orders)[orderId := MarkReturned(old(stor.orders)[orderId], now)]
    {
      if orderId == 0 {
        return Some(Message("valid order id is required"));
      }
      if customerId == 0 {
        return Some(Message("valid customer id is required"));
      }
      var got := stor.Get(orderId);
      if got.Err? {
        return Some(got.error);
      }
      var order := got.value;
      if order.customerId != customerId {
        return Some(Message("order does not belong to customer"));
      }
      if !order.isGiven {
        return Some(Message("order was not given"));
      }
      if order.isReturned {
        return Some(Message("order was already returned"));
      }
      if order.giveDate + ReturnWindow < now {
        return Some(Message("too much time passed since give"));
      }
      err := stor.Update(MarkReturned(order, now));
    }

    /** GetReturns: validates the page size and number, then the page of
        returned orders, latest return first. */
    method GetReturns(count: int, pageNum: int) returns (r: Result<seq<Order>>, ghost all: seq<Order>)
      requires stor.Valid()
      ensures count <= 0 ==> r == Err(Message("invalid count of items on page"))
      ensures count > 0 && pageNum < 0 ==> r == Err(Message("invalid page number"))
      ensures count > 0 && pageNum >= 0 ==> IsSortedSelection(stor.orders, ReturnedOnly, ByReturnDate, all) && r == Page(all, count, pageNum, Plain)
      ensures r.Ok? ==> |r.value| <= count && SortedDesc(r.value, ByReturnDate)
      ensures r.Ok? ==> forall o :: o in r.value ==> o in stor.orders.Values && o.isReturned
    {
      if count <= 0 {
        return Err(Message("invalid count of items on page")), [];
      }
      if pageNum < 0 {
        return Err(Message("invalid page number")), [];
      }
      var l, ks := stor.List();
      var returned := FilterLoop(l, ReturnedOnly);
      var orders := SortDesc(returned, ByReturnDate);
      ListedOnce(stor.orders, l, ks, ReturnedOnly, ByReturnDate, orders);
      all := orders;
      r := Page(orders, count, pageNum, Plain);
      PageOfSelection(stor.orders, ReturnedOnly, ByReturnDate, all, count, pageNum, Plain);
    }
  }

  /** The doubled listing filters like the true one whenever the query
      drops the zero order, so sorting it gives the sorted selection. */
  lemma ListedOnce(m: map<Id, Order>, l: seq<Order>, ks: seq<Id>, q: Query, k: SortKey, sorted: seq<Order>)
    requires KeysMatchIds(m) && !Selects(q, ZeroOrder)
    requires |l| == 2 * |m| && l[..|m|] == LegacyOrderStore.Zeros(|m|) && IsListing(m, l[|m|..], ks)
    requires multiset(sorted) == multiset(Filter(l, q)) && SortedDesc(sorted, k)
    ensures IsSortedSelection(m, q, k, sorted)
  {
    assert l == l[..|m|] + l[|m|..];
    FilterSkipsUnselected(l[..|m|], l[|m|..], q);
    SelectionOfListing(m, l[|m|..], ks, q, k, sorted);
  }
}
