/** The order Service of the app: the lifecycle rules on top of the order
    FileRepository. The current instant is a parameter `now`. */
module OrderService {
  import opened Model
  import opened Listing
  import opened OrderQueries
  import opened Lifecycle
  import OrderRepo

  class Service {
    const repo: OrderRepo.FileRepository

    constructor (repo: OrderRepo.FileRepository)
      ensures this.repo == repo
    {
      this.repo := repo;
    }

    /** AddOrder: stores the order as given, refusing a taken id. */
    method AddOrder(o: Order) returns (err: Option<Error>)
      requires repo.Valid()
      modifies repo
      ensures repo.Valid() && repo.file == old(repo.file)
      ensures o.id in old(repo.orders) ==> err == Some(IdAlreadyExists) && repo.orders == old(repo.orders)
      ensures o.id !in old(repo.orders) ==> err.None? && repo.orders == old(repo.orders)[o.id := o]
    {
      err := repo.Create(o);
    }

    /** RemoveOrder: deletes the order when RemoveError allows it, and
        changes nothing otherwise. */
    method RemoveOrder(id: Id, now: Time) returns (err: Option<Error>)
      requires repo.Valid()
      modifies repo
      ensures repo.Valid() && repo.file == old(repo.file)
      ensures err == RemoveError(old(repo.orders), id, now, Typed, NoItemFound)
      ensures repo.orders == if err.None? then old(repo.orders) - {id} else old(repo.orders)
    {
      var got := repo.Get(id);
      if got.Err? {
        return Some(got.error);
      }
      var order := got.value;
      if order.isGiven && !order.isReturned {
        return Some(Validation("order has already been given to customer"));
      }
      if order.keepDate > now {
        return Some(Validation("keep date has not arrived yet"));
      }
      err := repo.Delete(id);
    }

    /** GiveOrders: checks the whole batch first, then marks every order
        given at the same instant; the result lists the updated orders in
        the order of `ids`. */
    method GiveOrders(ids: seq<Id>, now: Time) returns (r: Result<seq<Order>>)
      requires repo.Valid()
      modifies repo
      ensures repo.Valid() && repo.file == old(repo.file)
      ensures r.Err? <==> GiveError(old(repo.orders), ids, now, Typed, NoItemFound, None).Some?
      ensures r.Err? ==> Some(r.error) == GiveError(old(repo.orders), ids, now, Typed, NoItemFound, None)
      ensures r.Err? ==> repo.orders == old(repo.orders)
      ensures r.Ok? ==> repo.orders == GivenAll(old(repo.orders), ids, now)
      ensures r.Ok? ==> |r.value| == |ids|
      ensures r.Ok? ==> forall i :: 0 <= i < |ids| ==> ids[i] in old(repo.orders) && r.value[i] == Mark(old(repo.orders)[ids[i]], now)
    {
      var orders, err := CheckBatch(ids, now);
      if err.Some? {
        return Err(err.value);
      }
      r := MarkGiven(ids, orders, now);
    }

    /** GiveOrders' first loop: fetches every order, stopping at the first
        check that fails. */
    method CheckBatch(ids: seq<Id>, now: Time) returns (orders: seq<Order>, err: Option<Error>)
      ensures err == GiveError(repo.orders, ids, now, Typed, NoItemFound, None)
      ensures err.None? ==> |orders| == |ids| && forall j :: 0 <= j < |ids| ==> ids[j] in repo.orders && orders[j] == repo.orders[ids[j]]
    {
      orders := [];
      var customer: Option<Id> := None;
      var i := 0;
      while i < |ids|
        invariant 0 <= i <= |ids|
        invariant |orders| == i && forall j :: 0 <= j < i ==> ids[j] in repo.orders && orders[j] == repo.orders[ids[j]]
        invariant i == 0 ==> customer.None?
        invariant i > 0 ==> customer == Some(repo.orders[ids[0]].customerId)
        invariant GiveError(repo.orders, ids, now, Typed, NoItemFound, None) == GiveError(repo.orders, ids[i..], now, Typed, NoItemFound, customer)
      {
        assert ids[i..][1..] == ids[i + 1..];
        var got := repo.Get(ids[i]);
        if got.Err? {
          return orders, Some(got.error);
        }
        var order := got.value;
        if order.isGiven {
          return orders, Some(Validation("order has already been given"));
        }
        if order.keepDate < now {
          return orders, Some(Validation("keep date has already expired"));
        }
        if i == 0 {
          customer := Some(order.customerId);
        } else if order.customerId != customer.value {
          return orders, Some(Validation("orders belong to different customers"));
        }
        orders := orders + [order];
        i := i + 1;
      }
      assert ids[|ids|..] == [];
      err := None;
    }

    /** GiveOrders' second loop: stores every fetched order marked given at
        `now`. Every id was found by the first loop, so no Update fails. */
    method MarkGiven(ids: seq<Id>, orders: seq<Order>, now: Time) returns (r: Result<seq<Order>>)
      requires repo.Valid()
      requires |orders| == |ids| && forall j :: 0 <= j < |ids| ==> ids[j] in repo.orders && orders[j] == repo.orders[ids[j]]
      modifies repo
      ensures repo.Valid() && repo.file == old(repo.file)
      ensures r.Ok? && repo.orders == GivenAll(old(repo.orders), ids, now)
      ensures |r.value| == |ids| && forall j :: 0 <= j < |ids| ==> r.value[j] == Mark(orders[j], now)
    {
      ghost var m := repo.orders;
      var given: seq<Order> := [];
      var i := 0;
      while i < |orders|
        invariant 0 <= i <= |orders|
        invariant repo.Valid() && repo.file == old(repo.file)
        invariant repo.orders.Keys == m.Keys
        invariant forall k :: k in m ==> repo.orders[k] == if k in ids[..i] then Mark(m[k], now) else m[k]
        invariant |given| == i && forall j :: 0 <= j < i ==> given[j] == Mark(orders[j], now)
      {
        var o := Mark(orders[i], now);
        assert ids[..i + 1] == ids[..i] + [ids[i]];
        var e := repo.Update(o);
        match e {
          case Some(updateError) => return Err(updateError);
          case None =>
        }
        given := given + [o];
        i := i + 1;
      }
      assert ids[..|ids|] == ids;
      r := Ok(given);
    }

    /** GetOrders: the customer's `n` latest orders (all of them when `n`
        is not positive), latest first, skipping those the customer holds
        when `filterGiven` is set. */
    method GetOrders(customerId: Id, n: int, filterGiven: bool) returns (r: seq<Order>)
      requires repo.Valid()
      ensures IsTopN(repo.orders, ByCustomer(customerId, filterGiven), ByAddDate, n, r)
      ensures n <= 0 ==> forall o :: o in repo.orders.Values && Selects(ByCustomer(customerId, filterGiven), o) ==> o in r
    {
      var q := ByCustomer(customerId, filterGiven);
      var l, ks := repo.List();
      var matching := FilterLoop(l, q);
      var orders := SortDesc(matching, ByAddDate);
      SelectionOfListing(repo.orders, l, ks, q, ByAddDate, orders);
      TruncateTopN(repo.orders, q, ByAddDate, n, orders);
      if n > 0 && n < |orders| {
        orders := orders[..n];
      }
      r := orders;
    }

    /** AcceptReturn: takes the order back when ReturnError allows it and
        returns the updated order; on refusal the zero order and nothing
        changes. */
    method AcceptReturn(orderId: Id, customerId: Id, now: Time) returns (o: Order, err: Option<Error>)
      requires repo.Valid()
      modifies repo
      ensures repo.Valid() && repo.file == old(repo.file)
      ensures err == ReturnError(old(repo.orders), orderId, customerId, now, Typed, NoItemFound)
      ensures err.Some? ==> o == ZeroOrder && repo.orders == old(repo.orders)
      ensures err.None? ==> o == MarkReturned(old(repo.orders)[orderId], now) && repo.orders == old(repo.orders)[orderId := o]
    {
      var got := repo.Get(orderId);
      if got.Err? {
        return ZeroOrder, Some(got.error);
      }
      var order := got.value;
      if order.customerId != customerId {
        return ZeroOrder, Some(Validation("order does not belong to customer"));
      }
      if !order.isGiven {
        return ZeroOrder, Some(Validation("order was not given"));
      }
      if order.isReturned {
        return ZeroOrder, Some(Validation("order was already returned"));
      }
      if order.giveDate + ReturnWindow < now {
        return ZeroOrder, Some(Validation("too much time passed since give"));
      }
      o := MarkReturned(order, now);
      err := repo.Update(o);
    }

    /** GetReturns: page `pageNum` of the returned orders, `count` per
        page, latest return first. `all` is the sorted list the page is
        cut from. */
    method GetReturns(count: int, pageNum: int) returns (r: Result<seq<Order>>, ghost all: seq<Order>)
      requires repo.Valid()
      requires count >= 0 && pageNum >= 0
      ensures IsSortedSelection(repo.orders, ReturnedOnly, ByReturnDate, all)
      ensures r == Page(all, count, pageNum, Typed)
      ensures r.Err? <==> (|Selected(repo.orders, ReturnedOnly)| > 0 || pageNum != 0) && pageNum * count >= |Selected(repo.orders, ReturnedOnly)|
      ensures r.Ok? ==> |r.value| <= count && SortedDesc(r.value, ByReturnDate)
      ensures r.Ok? ==> forall o :: o in r.value ==> o in repo.orders.Values && o.isReturned
    {
      var l, ks := repo.List();
      var returned := FilterLoop(l, ReturnedOnly);
      var orders := SortDesc(returned, ByReturnDate);
      SelectionOfListing(repo.orders, l, ks, ReturnedOnly, ByReturnDate, orders);
      all := orders;
      r := Page(orders, count, pageNum, Typed);
      PageOfSelection(repo.orders, ReturnedOnly, ByReturnDate, all, count, pageNum, Typed);
    }
  }
}
