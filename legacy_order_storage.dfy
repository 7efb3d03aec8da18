/** FileStorage (internal/storage/storage.go): the order store revision in
    which `List` returns twice as many entries as it holds, `Update` does
    not mark the store changed, and `Close` never clears the flag. */
module LegacyOrderStore {
  import opened Model
  import opened Listing

  const Duplicate: Error := Message("order with such id already exists")
  const Missing: Error := Message("no such order found")

  /** `make([]Order, n)`: n zero orders. */
  function Zeros(n: nat): (r: seq<Order>)
    ensures |r| == n && forall i :: 0 <= i < n ==> r[i] == ZeroOrder
  {
    seq(n, _ => ZeroOrder)
  }

  class FileStorage {
    var orders: map<Id, Order>
    var file: map<Id, Order>
    var changed: bool

    /** Only the filing invariant holds here: an update can leave the file
        stale while `changed` is clear. */
    ghost predicate Valid()
      reads this
    {
      KeysMatchIds(orders)
    }

    constructor Open(content: Option<map<Id, Order>>)
      requires content.Some? ==> KeysMatchIds(content.value)
      ensures Valid() && !changed
      ensures orders == file == (if content.Some? then content.value else map[])
    {
      var m := if content.Some? then content.value else map[];
      orders, file, changed := m, m, false;
    }

    /** Close: writes when changed, and leaves `changed` set afterwards. */
    method Close(writeError: Option<Error>) returns (err: Option<Error>)
      requires Valid()
      modifies this
      ensures Valid() && orders == old(orders) && changed == old(changed)
      ensures !old(changed) ==> err.None? && file == old(file)
      ensures old(changed) && writeError.Some? ==> err == writeError && file == old(file)
      ensures old(changed) && writeError.None? ==> err.None? && file == orders
    {
      if !changed {
        return None;
      }
      if writeError.Some? {
        return writeError;
      }
      file := orders;
      return None;
    }

    method Create(order: Order) returns (err: Option<Error>)
      requires Valid()
      modifies this
      ensures Valid() && file == old(file)
      ensures order.id in old(orders) ==> err == Some(Duplicate) && orders == old(orders) && changed == old(changed)
      ensures order.id !in old(orders) ==> err.None? && orders == old(orders)[order.id := order] && changed
    {
      if order.id in orders {
        return Some(Duplicate);
      }
      orders := orders[order.id := order];
      changed := true;
      return None;
    }

    /** List as written: the slice is pre-sized to the map's size and then
        appended to, so it starts with that many zero orders and only then
        lists the stored ones. */
    method List() returns (s: seq<Order>, ghost ks: seq<Id>)
      ensures |s| == 2 * |orders|
      ensures s[..|orders|] == Zeros(|orders|)
      ensures IsListing(orders, s[|orders|..], ks)
    {
      var listed;
      listed, ks := Values(orders);
      ListingLength(orders, listed, ks);
      s := Zeros(|orders|) + listed;
      assert s[|orders|..] == listed;
    }

    method Get(id: Id) returns (r: Result<Order>)
      ensures id in orders ==> r == Ok(orders[id])
      ensures id !in orders ==> r == Err(Missing)
    {
      if id in orders {
        return Ok(orders[id]);
      }
      return Err(Missing);
    }

    /** Update as written: replaces the entry but leaves `changed` as it
        was. */
    method Update(order: Order) returns (err: Option<Error>)
      requires Valid()
      modifies this
      ensures Valid() && file == old(file) && changed == old(changed)
      ensures order.id !in old(orders) ==> err == Some(Missing) && orders == old(orders)
      ensures order.id in old(orders) ==> err.None? && orders == old(orders)[order.id := order]
    {
      if order.id !in orders {
        return Some(Missing);
      }
      orders := orders[order.id := order];
      return None;
    }

    /** Delete: scans the stored orders for one whose `Id` is `id` and
        deletes the entry filed under that `Id`. */
    method Delete(id: Id) returns (err: Option<Error>)
      requires Valid()
      modifies this
      ensures Valid() && file == old(file)
      ensures id !in old(orders) ==> err == Some(Missing) && orders == old(orders) && changed == old(changed)
      ensures id in old(orders) ==> err.None? && orders == old(orders) - {id} && changed
    {
      var rest := orders.Keys;
      while rest != {}
        invariant rest <= orders.Keys
        invariant forall k :: k in orders && k !in rest ==> orders[k].id != id
        decreases rest
      {
        var k :| k in rest;
        if orders[k].id == id {
          orders := orders - {orders[k].id};
          changed := true;
          return None;
        }
        rest := rest - {k};
      }
      return Some(Missing);
    }
  }

  /** An update followed by a Close loses the update: the file keeps the
      old order while the store holds the new one. */
  method LostUpdate() returns (onDisk: map<Id, Order>, inMemory: map<Id, Order>)
    ensures onDisk != inMemory
  {
    var o := ZeroOrder.(id := 1, customerId := 7);
    var st := new FileStorage.Open(Some(map[1 := o]));
    var e := st.Update(o.(isGiven := true));
    e := st.Close(None);
    onDisk, inMemory := st.file, st.orders;
    assert onDisk[1] != inMemory[1];
  }
}
