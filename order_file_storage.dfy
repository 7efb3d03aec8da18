/** OrderFileStorage (internal/storage/file): the revision of the order
    store that fixed the listing and dirty-flag mistakes of the one before
    it; the same map operations, with plain error strings. */
module FileOrderStore {
  import opened Model
  import opened Listing

  const Duplicate: Error := Message("order with such id already exists")
  const Missing: Error := Message("no such order found")

  class OrderFileStorage {
    var orders: map<Id, Order>
    var file: map<Id, Order>
    var changed: bool

    /** Orders filed under their ids; nothing unsaved when `changed` is
        clear. */
    ghost predicate Valid()
      reads this
    {
      && KeysMatchIds(orders)
      && (!changed ==> file == orders)
    }

    /** NewOrderFileStorage: an empty file gives an empty map. */
    constructor Open(content: Option<map<Id, Order>>)
      requires content.Some? ==> KeysMatchIds(content.value)
      ensures Valid() && !changed
      ensures orders == file == (if content.Some? then content.value else map[])
    {
      var m := if content.Some? then content.value else map[];
      orders, file, changed := m, m, false;
    }

    /** Close: no write when unchanged; `changed` is cleared after a
        successful write. */
    method Close(writeError: Option<Error>) returns (err: Option<Error>)
      requires Valid()
      modifies this
      ensures Valid() && orders == old(orders)
      ensures !old(changed) ==> err.None? && file == old(file) && !changed
      ensures old(changed) && writeError.Some? ==> err == writeError && file == old(file) && changed
      ensures old(changed) && writeError.None? ==> err.None? && file == orders && !changed
    {
      if !changed {
        return None;
      }
      if writeError.Some? {
        return writeError;
      }
      file := orders;
      changed := false;
      return None;
    }

    method Create(order: Order) returns (err: Option<Error>)
      requires Valid()
      modifies this
      ensures Valid() && file == old(file)
      ensures order.id in old(orders) ==> err == Some(Duplicate) && orders == old(orders) && changed == old(changed)
      ensures order.id !in old(orders) ==> err.None? && orders == old(orders)[order.id := order] && changed
    {
      if order.id in orders {
        return Some(Duplicate);
      }
      orders := orders[order.id := order];
      changed := true;
      return None;
    }

    /** List: every stored order exactly once, and nothing else. */
    method List() returns (s: seq<Order>, ghost ks: seq<Id>)
      ensures IsListing(orders, s, ks)
      ensures |s| == |orders|
    {
      s, ks := Values(orders);
      ListingLength(orders, s, ks);
    }

    method Get(id: Id) returns (r: Result<Order>)
      ensures id in orders ==> r == Ok(orders[id])
      ensures id !in orders ==> r == Err(Missing)
    {
      if id in orders {
        return Ok(orders[id]);
      }
      return Err(Missing);
    }

    /** Update: replaces an existing entry and marks the store changed, so
        the next Close persists it. */
    method Update(order: Order) returns (err: Option<Error>)
      requires Valid()
      modifies this
      ensures Valid() && file == old(file)
      ensures order.id !in old(orders) ==> err == Some(Missing) && orders == old(orders) && changed == old(changed)
      ensures order.id in old(orders) ==> err.None? && orders == old(orders)[order.id := order] && changed
    {
      if order.id !in orders {
        return Some(Missing);
      }
      orders := orders[order.id := order];
      changed := true;
      return None;
    }

    method Delete(id: Id) returns (err: Option<Error>)
      requires Valid()
      modifies this
      ensures Valid() && file == old(file)
      ensures id !in old(orders) ==> err == Some(Missing) && orders == old(orders) && changed == old(changed)
      ensures id in old(orders) ==> err.None? && orders == old(orders) - {id} && changed
    {
      if id !in orders {
        return Some(Missing);
      }
      orders := orders - {id};
      changed := true;
      return None;
    }
  }
}
