/** The order facade of the app (OrderCoreService): request validation and
    packaging in front of the order Service. */
module OrderCore {
  import opened Model
  import opened OrderQueries
  import opened Lifecycle
  import opened Packaging
  import OrderService

  /** The keep date as the request carries it: absent, not a valid
      `2006-01-02` date (with the parser's error), or the local midnight
      that starts the day. */
  datatype KeepDateInput = NoDate | Unparsable(parseError: Error) | Date(midnight: Time)

  datatype AcceptOrderRequest = AcceptOrderRequest(
    orderId: Id,
    customerId: Id,
    keepDate: KeepDateInput,
    priceRub: int64,
    weightKg: real,
    packagingType: string)

  /** The keep date is the last second of the named day. */
  const EndOfDay: int := 23 * 3600 + 59 * 60 + 59

  /** Whether packaging `p` refuses an order of this weight. */
  predicate Overweight(p: Packaging, weightKg: real) {
    (p == Bag && weightKg >= BagLimitKg) || (p == Box && weightKg >= BoxLimitKg)
  }

  /** AcceptOrder's checks and the order it builds: the order to store, or
      the first error in the order the facade checks. */
  function Prepared(req: AcceptOrderRequest, now: Time, variants: map<string, Packaging>): (r: Result<Order>)
    ensures r.Ok? <==>
      && req.orderId != 0 && req.customerId != 0
      && req.keepDate.Date? && now <= req.keepDate.midnight + EndOfDay
      && req.priceRub > 0 && req.weightKg > 0.0
      && (req.packagingType == "" || (req.packagingType in variants && !Overweight(variants[req.packagingType], req.weightKg)))
    ensures r.Ok? ==> && Fresh(r.value, now) && Lawful(r.value)
                      && r.value.id == req.orderId && r.value.customerId == req.customerId
                      && r.value.keepDate == req.keepDate.midnight + EndOfDay
                      && r.value.weightKg == req.weightKg
                      && r.value.giveDate == 0 && r.value.returnDate == 0
    ensures r.Ok? && req.packagingType == "" ==> r.value.priceRub == req.priceRub
    ensures r.Ok? && req.packagingType != "" ==>
      r.value.priceRub == Wrap64(req.priceRub as int + Surcharge(variants[req.packagingType]))
    ensures r.Ok? && req.packagingType != "" && req.priceRub as int <= MaxInt64 - 20 ==>
      r.value.priceRub as int == req.priceRub as int + Surcharge(variants[req.packagingType])
    ensures r.Err? && req.packagingType in variants && Overweight(variants[req.packagingType], req.weightKg)
            && req.orderId != 0 && req.customerId != 0 && req.keepDate.Date?
            && now <= req.keepDate.midnight + EndOfDay && req.priceRub > 0 && req.weightKg > 0.0 ==>
      r.error == Refusal(variants[req.packagingType])
    ensures req.orderId == 0 ==> r == Err(Message("valid order id is required"))
    ensures req.orderId != 0 && req.customerId == 0 ==> r == Err(Message("valid customer id is required"))
    ensures req.orderId != 0 && req.customerId != 0 && req.keepDate.NoDate? ==> r == Err(Message("keep date is required"))
    ensures req.orderId != 0 && req.customerId != 0 && req.keepDate.Unparsable? ==> r == Err(req.keepDate.parseError)
    ensures req.orderId != 0 && req.customerId != 0 && req.keepDate.Date? && req.keepDate.midnight + EndOfDay < now ==>
      r == Err(Message("keepDate can't be in the past"))
    ensures req.orderId != 0 && req.customerId != 0 && req.keepDate.Date? && now <= req.keepDate.midnight + EndOfDay
            && req.priceRub <= 0 ==>
      r == Err(Message("price must be positive"))
    ensures req.orderId != 0 && req.customerId != 0 && req.keepDate.Date? && now <= req.keepDate.midnight + EndOfDay
            && req.priceRub > 0 && req.weightKg <= 0.0 ==>
      r == Err(Message("weight must be positive"))
    ensures req.orderId != 0 && req.customerId != 0 && req.keepDate.Date? && now <= req.keepDate.midnight + EndOfDay
            && req.priceRub > 0 && req.weightKg > 0.0 && req.packagingType != "" && req.packagingType !in variants ==>
      r == Err(Message("invalid packaging type"))
  {
    if req.orderId == 0 then Err(Message("valid order id is required"))
    else if req.customerId == 0 then Err(Message("valid customer id is required"))
    else if req.keepDate.NoDate? then Err(Message("keep date is required"))
    else if req.keepDate.Unparsable? then Err(req.keepDate.parseError)
    else if req.keepDate.midnight + EndOfDay < now then Err(Message("keepDate can't be in the past"))
    else if req.priceRub <= 0 then Err(Message("price must be positive"))
    else if req.weightKg <= 0.0 then Err(Message("weight must be positive"))
    else if req.packagingType != "" && req.packagingType !in variants then Err(Message("invalid packaging type"))
    else
      var o := ZeroOrder.(keepDate := req.keepDate.midnight + EndOfDay, addDate := now, id := req.orderId,
                          customerId := req.customerId, priceRub := req.priceRub, weightKg := req.weightKg);
      if req.packagingType == "" then Ok(o)
      else
        var applied := Apply(variants[req.packagingType], o);
        if applied.err.Some? then Err(applied.err.value) else Ok(applied.order)
  }

  /** A keep date names a whole day: accepting works up to its last second
      and is refused from the next one on. */
  lemma KeepDateWholeDay(req: AcceptOrderRequest, variants: map<string, Packaging>)
    requires req.orderId != 0 && req.customerId != 0 && req.keepDate.Date?
    requires req.priceRub > 0 && req.weightKg > 0.0 && req.packagingType == ""
    ensures Prepared(req, req.keepDate.midnight, variants).Ok?
    ensures Prepared(req, req.keepDate.midnight + Day - Second, variants).Ok?
    ensures Prepared(req, req.keepDate.midnight + Day, variants) == Err(Message("keepDate can't be in the past"))
  {
  }

  /** An accepted order is one of its customer's listed orders, neither
      given nor returned, whether or not held orders are filtered out. */
  lemma AcceptedIsListed(req: AcceptOrderRequest, now: Time, variants: map<string, Packaging>, m: map<Id, Order>, filterGiven: bool)
    requires Prepared(req, now, variants).Ok?
    ensures var o := Prepared(req, now, variants).value;
      && o in m[o.id := o].Values
      && Selects(ByCustomer(req.customerId, filterGiven), o)
      && !o.isGiven && !o.isReturned
  {
    var o := Prepared(req, now, variants).value;
    assert m[o.id := o][o.id] == o;
  }

  /** A day in the life of order 1001: accepted for customer 7 with a keep
      date in the future, it cannot be sent back yet; it can be given; a
      return three days later is refused. */
  lemma OrderScenario(now: Time, midnight: Time, variants: map<string, Packaging>, m: map<Id, Order>)
    requires now < midnight
    ensures var req := AcceptOrderRequest(1001, 7, Date(midnight), 100, 2.0, "");
      && Prepared(req, now, variants).Ok?
      && var m1 := m[1001 := Prepared(req, now, variants).value];
      && RemoveError(m1, 1001, now, Typed, NoItemFound) == Some(Validation("keep date has not arrived yet"))
      && GiveError(m1, [1001], now, Typed, NoItemFound, None).None?
      && var m2 := GivenAll(m1, [1001], now);
      && StatusOf(m2[1001]) == Given
      && ReturnError(m2, 1001, 7, now + 3 * Day, Typed, NoItemFound) == Some(Validation("too much time passed since give"))
  {
    var req := AcceptOrderRequest(1001, 7, Date(midnight), 100, 2.0, "");
    var m1 := m[1001 := Prepared(req, now, variants).value];
    var m2 := GivenAll(m1, [1001], now);
    assert 1001 in [1001];
    assert m2[1001] == Mark(m1[1001], now);
  }

  class OrderCoreService {
    const orderService: OrderService.Service
    const packagingVariants: map<string, Packaging>

    constructor (orderService: OrderService.Service, packagingTypes: map<string, Packaging>)
      ensures this.orderService == orderService && this.packagingVariants == packagingTypes
    {
      this.orderService := orderService;
      this.packagingVariants := packagingTypes;
    }

    /** AcceptOrder: stores the prepared order, or reports why not. */
    method AcceptOrder(req: AcceptOrderRequest, now: Time) returns (err: Option<Error>)
      requires orderService.repo.Valid()
      modifies orderService.repo
      ensures orderService.repo.Valid()
      ensures Prepared(req, now, packagingVariants).Err? ==>
        err == Some(Prepared(req, now, packagingVariants).error) && orderService.repo.orders == old(orderService.repo.orders)
      ensures Prepared(req, now, packagingVariants).Ok? && req.orderId in old(orderService.repo.orders) ==>
        err == Some(IdAlreadyExists) && orderService.repo.orders == old(orderService.repo.orders)
      ensures Prepared(req, now, packagingVariants).Ok? && req.orderId !in old(orderService.repo.orders) ==>
        err.None? && orderService.repo.orders == old(orderService.repo.orders)[req.orderId := Prepared(req, now, packagingVariants).value]
      ensures AllLawful(old(orderService.repo.orders)) && NotAfter(old(orderService.repo.orders), now) ==>
        AllLawful(orderService.repo.orders) && NotAfter(orderService.repo.orders, now)
    {
      var o := Prepared(req, now, packagingVariants);
      if o.Err? {
        return Some(o.error);
      }
      ghost var m := orderService.repo.orders;
      err := orderService.AddOrder(o.value);
      if AllLawful(m) && NotAfter(m, now) && err.None? {
        AddKeepsLawful(m, o.value, now);
      }
    }

    /** ListOrders: validates the customer id and the count, then the
        customer's latest orders. */
    method ListOrders(customerId: Id, displayCount: int, filterGiven: bool) returns (r: Result<seq<Order>>)
      requires orderService.repo.Valid()
      ensures customerId == 0 ==> r == Err(Validation("valid customer id is required"))
      ensures customerId != 0 && displayCount < 0 ==> r == Err(Validation("n must not be negative"))
      ensures r.Ok? <==> customerId != 0 && displayCount >= 0
      ensures r.Ok? ==> IsTopN(orderService.repo.orders, ByCustomer(customerId, filterGiven), ByAddDate, displayCount, r.value)
    {
      if customerId == 0 {
        return Err(Validation("valid customer id is required"));
      }
      if displayCount < 0 {
        return Err(Validation("n must not be negative"));
      }
      var orders := orderService.GetOrders(customerId, displayCount, filterGiven);
      r := Ok(orders);
    }

    /** AcceptReturn: validates both ids, then the Service's return. */
    method AcceptReturn(orderId: Id, customerId: Id, now: Time) returns (o: Order, err: Option<Error>)
      requires orderService.repo.Valid()
      modifies orderService.repo
      ensures orderService.repo.Valid()
      ensures orderId == 0 ==> err == Some(Validation("valid order id is required"))
      ensures orderId != 0 && customerId == 0 ==> err == Some(Validation("valid customer id is required"))
      ensures orderId != 0 && customerId != 0 ==> err == ReturnError(old(orderService.repo.orders), orderId, customerId, now, Typed, NoItemFound)
      ensures err.Some? ==> o == ZeroOrder && orderService.repo.orders == old(orderService.repo.orders)
      ensures err.None? ==> o == MarkReturned(old(orderService.repo.orders)[orderId], now) && orderService.repo.orders == old(orderService.repo.orders)[orderId := o]
      ensures AllLawful(old(orderService.repo.orders)) && NotAfter(old(orderService.repo.orders), now) ==>
        AllLawful(orderService.repo.orders) && NotAfter(orderService.repo.orders, now)
    {
      if orderId == 0 {
        return ZeroOrder, Some(Validation("valid order id is required"));
      }
      if customerId == 0 {
        return ZeroOrder, Some(Validation("valid customer id is required"));
      }
      ghost var m := orderService.repo.orders;
      o, err := orderService.AcceptReturn(orderId, customerId, now);
      if AllLawful(m) && NotAfter(m, now) && err.None? {
        ReturnKeepsLawful(m, orderId, customerId, now, Typed, NoItemFound);
      }
    }

    /** ListReturns: validates the page size and number, then the page. */
    method ListReturns(count: int, pageNum: int) returns (r: Result<seq<Order>>, ghost all: seq<Order>)
      requires orderService.repo.Valid()
      ensures count <= 0 ==> r == Err(Validation("invalid count of items on page"))
      ensures count > 0 && pageNum < 0 ==> r == Err(Validation("invalid page number"))
      ensures count > 0 && pageNum >= 0 ==>
        (r.Err? <==> (|Selected(orderService.repo.orders, ReturnedOnly)| > 0 || pageNum != 0) && pageNum * count >= |Selected(orderService.repo.orders, ReturnedOnly)|)
      ensures r.Ok? ==> |r.value| <= count && SortedDesc(r.value, ByReturnDate)
      ensures r.Ok? ==> forall o :: o in r.value ==> o in orderService.repo.orders.Values && o.isReturned
      ensures count > 0 && pageNum >= 0 ==>
        IsSortedSelection(orderService.repo.orders, ReturnedOnly, ByReturnDate, all) && r == Page(all, count, pageNum, Typed)
    {
      all := [];
      if count <= 0 {
        return Err(Validation("invalid count of items on page")), all;
      }
      if pageNum < 0 {
        return Err(Validation("invalid page number")), all;
      }
      r, all := orderService.GetReturns(count, pageNum);
    }

    /** ReturnOrder: refuses the zero id, then the Service's removal. */
    method ReturnOrder(orderId: Id, now: Time) returns (err: Option<Error>)
      requires orderService.repo.Valid()
      modifies orderService.repo
      ensures orderService.repo.Valid()
      ensures orderId == 0 ==> err == Some(Validation("valid order id is required"))
      ensures orderId != 0 ==> err == RemoveError(old(orderService.repo.orders), orderId, now, Typed, NoItemFound)
      ensures orderService.repo.orders == if err.None? then old(orderService.repo.orders) - {orderId} else old(orderService.repo.orders)
      ensures AllLawful(old(orderService.repo.orders)) && NotAfter(old(orderService.repo.orders), now) ==>
        AllLawful(orderService.repo.orders) && NotAfter(orderService.repo.orders, now)
    {
      if orderId == 0 {
        return Some(Validation("valid order id is required"));
      }
      err := orderService.RemoveOrder(orderId, now);
    }

    /** GiveOrders: a nil id list (None) is refused; an empty one gives
        nothing and succeeds. */
    method GiveOrders(orderIds: Option<seq<Id>>, now: Time) returns (err: Option<Error>)
      requires orderService.repo.Valid()
      modifies orderService.repo
      ensures orderService.repo.Valid()
      ensures orderIds.None? ==> err == Some(Message("list of valid ids is required")) && orderService.repo.orders == old(orderService.repo.orders)
      ensures orderIds.Some? ==> err == GiveError(old(orderService.repo.orders), orderIds.value, now, Typed, NoItemFound, None)
      ensures orderIds.Some? && err.None? ==> orderService.repo.orders == GivenAll(old(orderService.repo.orders), orderIds.value, now)
      ensures orderIds.Some? && err.Some? ==> orderService.repo.orders == old(orderService.repo.orders)
      ensures AllLawful(old(orderService.repo.orders)) && NotAfter(old(orderService.repo.orders), now) ==>
        AllLawful(orderService.repo.orders) && NotAfter(orderService.repo.orders, now)
    {
      if orderIds.None? {
        return Some(Message("list of valid ids is required"));
      }
      ghost var m := orderService.repo.orders;
      var r := orderService.GiveOrders(orderIds.value, now);
      err := if r.Err? then Some(r.error) else None;
      if AllLawful(m) && NotAfter(m, now) && err.None? {
        GiveErrorIff(m, orderIds.value, now, Typed, NoItemFound);
        GiveKeepsLawful(m, orderIds.value, now);
      }
    }
  }
}
