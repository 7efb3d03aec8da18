/** The order lifecycle both service revisions implement: an order is
    accepted, given to its customer, possibly returned within two days, and
    removed once its keep date has arrived while it is not with the
    customer. Each check is a function of the stored orders and the current
    instant giving the error the service reports, or None. */
module Lifecycle {
  import opened Model

  datatype Status = Accepted | Given | Returned

  function StatusOf(o: Order): Status {
    if !o.isGiven then Accepted else if !o.isReturned then Given else Returned
  }

  /** Flags and dates every operation keeps consistent: only a given order
      is returned, and it was given after it was added and returned within
      the window after it was given. */
  predicate Lawful(o: Order) {
    && (o.isReturned ==> o.isGiven)
    && (o.isGiven ==> o.addDate <= o.giveDate)
    && (o.isReturned ==> o.giveDate <= o.returnDate <= o.giveDate + ReturnWindow)
  }

  ghost predicate AllLawful(m: map<Id, Order>) {
    forall k :: k in m ==> Lawful(m[k])
  }

  /** No instant recorded in `m` lies after `now`: the clock only moves
      forward. */
  ghost predicate NotAfter(m: map<Id, Order>, now: Time) {
    forall k :: k in m ==>
      && m[k].addDate <= now
      && (m[k].isGiven ==> m[k].giveDate <= now)
      && (m[k].isReturned ==> m[k].returnDate <= now)
  }

  /** A freshly accepted order, as AddOrder builds it. */
  predicate Fresh(o: Order, now: Time) {
    !o.isGiven && !o.isReturned && o.addDate == now
  }

  /** RemoveOrder's checks: the order must exist, must not be with the
      customer, and its keep date must have arrived. */
  function RemoveError(m: map<Id, Order>, id: Id, now: Time, d: Dialect, missing: Error): (r: Option<Error>)
    ensures r.None? <==> id in m && StatusOf(m[id]) != Given && m[id].keepDate <= now
    ensures id !in m ==> r == Some(missing)
    ensures id in m && r.Some? ==> r.value.Validation? || r.value.Message?
  {
    if id !in m then Some(missing)
    else if m[id].isGiven && !m[id].isReturned then Some(Invalid(d, "order has already been given to customer"))
    else if m[id].keepDate > now then Some(Invalid(d, "keep date has not arrived yet"))
    else None
  }

  /** GiveOrders' first loop: the error for the first id that is missing,
      already given, past its keep date, or owned by another customer than
      the first order; `customer` is the first order's owner once known. */
  function GiveError(m: map<Id, Order>, ids: seq<Id>, now: Time, d: Dialect, missing: Error, customer: Option<Id>): Option<Error>
  {
    if ids == [] then None
    else if ids[0] !in m then Some(missing)
    else if m[ids[0]].isGiven then Some(Invalid(d, "order has already been given"))
    else if m[ids[0]].keepDate < now then Some(Invalid(d, "keep date has already expired"))
    else if customer.Some? && m[ids[0]].customerId != customer.value then Some(Invalid(d, "orders belong to different customers"))
    else GiveError(m, ids[1..], now, d, missing, Some(m[ids[0]].customerId))
  }

  /** Every id names a stored order, not yet given, still within its keep
      date, and owned by `customer`. */
  ghost predicate Givable(m: map<Id, Order>, ids: seq<Id>, now: Time, customer: Id) {
    forall i :: 0 <= i < |ids| ==>
      ids[i] in m && !m[ids[i]].isGiven && now <= m[ids[i]].keepDate && m[ids[i]].customerId == customer
  }

  /** A batch can be given: it is empty, or every order in it is givable
      and belongs to the first order's customer. */
  ghost predicate BatchGivable(m: map<Id, Order>, ids: seq<Id>, now: Time) {
    ids == [] || (ids[0] in m && Givable(m, ids, now, m[ids[0]].customerId))
  }

  lemma {:induction false} GiveErrorGivable(m: map<Id, Order>, ids: seq<Id>, now: Time, d: Dialect, missing: Error, c: Id)
    ensures GiveError(m, ids, now, d, missing, Some(c)).None? <==> Givable(m, ids, now, c)
  {
    if ids != [] {
      GiveErrorGivable(m, ids[1..], now, d, missing, c);
      if ids[0] in m && !m[ids[0]].isGiven && now <= m[ids[0]].keepDate && m[ids[0]].customerId == c {
        assert Givable(m, ids, now, c) <==> Givable(m, ids[1..], now, c) by {
          if Givable(m, ids[1..], now, c) {
            forall i | 0 <= i < |ids| ensures ids[i] in m && !m[ids[i]].isGiven && now <= m[ids[i]].keepDate && m[ids[i]].customerId == c {
              if i > 0 {
                assert ids[i] == ids[1..][i - 1];
              }
            }
          }
          if Givable(m, ids, now, c) {
            forall i | 0 <= i < |ids[1..]| ensures ids[1..][i] in m && !m[ids[1..][i]].isGiven && now <= m[ids[1..][i]].keepDate && m[ids[1..][i]].customerId == c {
              assert ids[1..][i] == ids[i + 1];
            }
          }
        }
      } else {
        assert !Givable(m, ids, now, c) by {
          assert 0 < |ids|;
        }
      }
    }
  }

  /** GiveOrders succeeds exactly when the whole batch is givable. */
  lemma GiveErrorIff(m: map<Id, Order>, ids: seq<Id>, now: Time, d: Dialect, missing: Error)
    ensures GiveError(m, ids, now, d, missing, None).None? <==> BatchGivable(m, ids, now)
  {
    if ids != [] && ids[0] in m {
      var c := m[ids[0]].customerId;
      GiveErrorGivable(m, ids[1..], now, d, missing, c);
      if Givable(m, ids[1..], now, c) && !m[ids[0]].isGiven && now <= m[ids[0]].keepDate {
        forall i | 0 <= i < |ids| ensures ids[i] in m && !m[ids[i]].isGiven && now <= m[ids[i]].keepDate && m[ids[i]].customerId == c {
          if i > 0 {
            assert ids[i] == ids[1..][i - 1];
          }
        }
      }
      if Givable(m, ids, now, c) {
        forall i | 0 <= i < |ids[1..]| ensures ids[1..][i] in m && !m[ids[1..][i]].isGiven && now <= m[ids[1..][i]].keepDate && m[ids[1..][i]].customerId == c {
          assert ids[1..][i] == ids[i + 1];
        }
      }
    }
  }

  /** An order handed to its customer at `now`. */
  function Mark(o: Order, now: Time): Order {
    o.(isGiven := true, giveDate := now)
  }

  /** The stored orders after a successful GiveOrders: each listed order
      marked given at `now`, the others untouched. */
  ghost function GivenAll(m: map<Id, Order>, ids: seq<Id>, now: Time): map<Id, Order> {
    map k | k in m :: if k in ids then Mark(m[k], now) else m[k]
  }

  /** AcceptReturn's checks: the order exists, belongs to the customer, is
      with the customer, and at most two days passed since it was given. */
  function ReturnError(m: map<Id, Order>, orderId: Id, customerId: Id, now: Time, d: Dialect, missing: Error): (r: Option<Error>)
    ensures r.None? <==> orderId in m && m[orderId].customerId == customerId && StatusOf(m[orderId]) == Given && now <= m[orderId].giveDate + ReturnWindow
    ensures orderId !in m ==> r == Some(missing)
  {
    if orderId !in m then Some(missing)
    else if m[orderId].customerId != customerId then Some(Invalid(d, "order does not belong to customer"))
    else if !m[orderId].isGiven then Some(Invalid(d, "order was not given"))
    else if m[orderId].isReturned then Some(Invalid(d, "order was already returned"))
    else if m[orderId].giveDate + ReturnWindow < now then Some(Invalid(d, "too much time passed since give"))
    else None
  }

  /** An order taken back from its customer at `now`. */
  function MarkReturned(o: Order, now: Time): Order {
    o.(isReturned := true, returnDate := now)
  }

  /** The return window is closed at both ends: a return exactly two days
      after the give is accepted, one second later it is refused. */
  lemma ReturnWindowEdges(m: map<Id, Order>, id: Id, d: Dialect, missing: Error)
    requires id in m && StatusOf(m[id]) == Given
    ensures ReturnError(m, id, m[id].customerId, m[id].giveDate + 2 * Day, d, missing).None?
    ensures ReturnError(m, id, m[id].customerId, m[id].giveDate + 2 * Day + Second, d, missing)
         == Some(Invalid(d, "too much time passed since give"))
  {
  }

  /** The transitions: accepted to given, given to returned; and nothing
      else moves an order's status. */
  lemma StatusTransitions(o: Order, now: Time)
    requires Lawful(o)
    ensures StatusOf(o) == Accepted ==> StatusOf(Mark(o, now)) == Given
    ensures StatusOf(o) == Given ==> StatusOf(MarkReturned(o, now)) == Returned
  {
  }

  /** Accepting a fresh order keeps every stored order lawful and no stored
      instant after the clock. */
  lemma AddKeepsLawful(m: map<Id, Order>, o: Order, now: Time)
    requires AllLawful(m) && NotAfter(m, now) && Fresh(o, now)
    ensures AllLawful(m[o.id := o]) && NotAfter(m[o.id := o], now)
  {
  }

  /** A successful GiveOrders keeps every stored order lawful. */
  lemma GiveKeepsLawful(m: map<Id, Order>, ids: seq<Id>, now: Time)
    requires AllLawful(m) && NotAfter(m, now) && BatchGivable(m, ids, now)
    ensures AllLawful(GivenAll(m, ids, now)) && NotAfter(GivenAll(m, ids, now), now)
    ensures forall i :: 0 <= i < |ids| ==> StatusOf(GivenAll(m, ids, now)[ids[i]]) == Given
  {
    var g := GivenAll(m, ids, now);
    forall k | k in g ensures Lawful(g[k]) {
      if k in ids {
        var i :| 0 <= i < |ids| && ids[i] == k;
        assert !m[ids[i]].isGiven;
      }
    }
    forall i | 0 <= i < |ids| ensures StatusOf(g[ids[i]]) == Given {
      assert !m[ids[i]].isGiven;
    }
  }

  /** A successful AcceptReturn keeps every stored order lawful. */
  lemma ReturnKeepsLawful(m: map<Id, Order>, id: Id, customerId: Id, now: Time, d: Dialect, missing: Error)
    requires AllLawful(m) && NotAfter(m, now)
    requires ReturnError(m, id, customerId, now, d, missing).None?
    ensures AllLawful(m[id := MarkReturned(m[id], now)]) && NotAfter(m[id := MarkReturned(m[id], now)], now)
  {
  }

  /** Time passing keeps stored instants in the past. */
  lemma NotAfterLater(m: map<Id, Order>, now: Time, later: Time)
    requires NotAfter(m, now) && now <= later
    ensures NotAfter(m, later)
  {
  }
}
