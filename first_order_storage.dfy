/** FileStorage of the first homework revision: the order map is searched
    by scanning the stored orders' `Id` fields rather than by key, there is
    no dirty flag, and `Save` always writes the whole map. */
module FirstOrderStore {
  import opened Model
  import opened Listing
  import LegacyOrderStore

  const Duplicate: Error := Message("order with such id already exists")
  const Missing: Error := Message("no such order found")

  class FileStorage {
    var orders: map<Id, Order>
    var file: map<Id, Order>

    ghost predicate Valid()
      reads this
    {
      KeysMatchIds(orders)
    }

    constructor Open(content: Option<map<Id, Order>>)
      requires content.Some? ==> KeysMatchIds(content.value)
      ensures Valid()
      ensures orders == file == (if content.Some? then content.value else map[])
    {
      var m := if content.Some? then content.value else map[];
      orders, file := m, m;
    }

    /** Save: always writes the whole map. */
    method Save(writeError: Option<Error>) returns (err: Option<Error>)
      requires Valid()
      modifies this
      ensures Valid() && orders == old(orders) && err == writeError
      ensures writeError.None? ==> file == orders
      ensures writeError.Some? ==> file == old(file)
    {
      if writeError.Some? {
        return writeError;
      }
      file := orders;
      return None;
    }

    /** Create: refuses when some stored order already carries the id,
        otherwise files the order under its id. */
    method Create(order: Order) returns (err: Option<Error>)
      requires Valid()
      modifies this
      ensures Valid() && file == old(file)
      ensures order.id in old(orders) ==> err == Some(Duplicate) && orders == old(orders)
      ensures order.id !in old(orders) ==> err.None? && orders == old(orders)[order.id := order]
    {
      var rest := orders.Keys;
      while rest != {}
        invariant rest <= orders.Keys
        invariant forall k :: k in orders && k !in rest ==> orders[k].id != order.id
        decreases rest
      {
        var k :| k in rest;
        if order.id == orders[k].id {
          return Some(Duplicate);
        }
        rest := rest - {k};
      }
      orders := orders[order.id := order];
      return None;
    }

    /** List: the same pre-sized slice as the later revision, so the n
        stored orders come after n zero orders. */
    method List() returns (s: seq<Order>, ghost ks: seq<Id>)
      ensures |s| == 2 * |orders|
      ensures s[..|orders|] == LegacyOrderStore.Zeros(|orders|)
      ensures IsListing(orders, s[|orders|..], ks)
    {
      var listed;
      listed, ks := Values(orders);
      ListingLength(orders, listed, ks);
      s := LegacyOrderStore.Zeros(|orders|) + listed;
      assert s[|orders|..] == listed;
    }

    method Get(id: Id) returns (r: Result<Order>)
      ensures id in orders ==> r == Ok(orders[id])
      ensures id !in orders ==> r == Err(Missing)
    {
      if id in orders {
        return Ok(orders[id]);
      }
      return Err(Missing);
    }

    /** Update: overwrites the entry whose stored order carries the same
        `Id`; with none, fails and changes nothing. */
    method Update(order: Order) returns (err: Option<Error>)
      requires Valid()
      modifies this
      ensures Valid() && file == old(file)
      ensures order.id !in old(orders) ==> err == Some(Missing) && orders == old(orders)
      ensures order.id in old(orders) ==> err.None? && orders == old(orders)[order.id := order]
    {
      var rest := orders.Keys;
      while rest != {}
        invariant rest <= orders.Keys
        invariant forall k :: k in orders && k !in rest ==> orders[k].id != order.id
        decreases rest
      {
        var k :| k in rest;
        if order.id == orders[k].id {
          orders := orders[k := order];
          return None;
        }
        rest := rest - {k};
      }
      return Some(Missing);
    }

    /** Delete: removes the entry whose stored order carries `id`. */
    method Delete(id: Id) returns (err: Option<Error>)
      requires Valid()
      modifies this
      ensures Valid() && file == old(file)
      ensures id !in old(orders) ==> err == Some(Missing) && orders == old(orders)
      ensures id in old(orders) ==> err.None? && orders == old(orders) - {id}
    {
      var rest := orders.Keys;
      while rest != {}
        invariant rest <= orders.Keys
        invariant forall k :: k in orders && k !in rest ==> orders[k].id != id
        decreases rest
      {
        var k :| k in rest;
        if id == orders[k].id {
          orders := orders - {orders[k].id};
          return None;
        }
        rest := rest - {k};
      }
      return Some(Missing);
    }
  }
}
