/** The order FileRepository of the app: orders kept in a map keyed by id,
    loaded from a JSON file when opened and written back by `Close` only
    when something changed. The file's content is the field `file` (the JSON
    codec is not modelled: what is written is what is read). */
module OrderRepo {
  import opened Model
  import opened Listing

  class FileRepository {
    var orders: map<Id, Order>
    var file: map<Id, Order>
    var changed: bool

    /** Every order is filed under its id, and when nothing is pending the
        file already holds the current orders. */
    ghost predicate Valid()
      reads this
    {
      && KeysMatchIds(orders)
      && (!changed ==> file == orders)
    }

    /** NewOrderFileRepository: an empty file gives an empty map, otherwise
        the decoded map. */
    constructor Open(content: Option<map<Id, Order>>)
      requires content.Some? ==> KeysMatchIds(content.value)
      ensures Valid() && !changed
      ensures orders == file == (if content.Some? then content.value else map[])
    {
      var m := if content.Some? then content.value else map[];
      orders, file, changed := m, m, false;
    }

    /** Close: writes the orders to the file only when changed, and clears
        `changed` only when the write succeeded (`writeError` is the outcome
        of the file system write). */
    method Close(writeError: Option<Error>) returns (err: Option<Error>)
      requires Valid()
      modifies this
      ensures Valid() && orders == old(orders)
      ensures !old(changed) ==> err.None? && file == old(file) && !changed
      ensures old(changed) && writeError.Some? ==> err == writeError && file == old(file) && changed
      ensures old(changed) && writeError.None? ==> err.None? && file == orders && !changed
    {
      if !changed {
        return None;
      }
      if writeError.Some? {
        return writeError;
      }
      file := orders;
      changed := false;
      return None;
    }

    /** Create: refuses an id already present, otherwise files the order
        under its id. */
    method Create(order: Order) returns (err: Option<Error>)
      requires Valid()
      modifies this
      ensures Valid() && file == old(file)
      ensures order.id in old(orders) ==> err == Some(IdAlreadyExists) && orders == old(orders) && changed == old(changed)
      ensures order.id !in old(orders) ==> err.None? && orders == old(orders)[order.id := order] && changed
    {
      if order.id in orders {
        return Some(IdAlreadyExists);
      }
      orders := orders[order.id := order];
      changed := true;
      return None;
    }

    /** List: every stored order exactly once. */
    method List() returns (s: seq<Order>, ghost ks: seq<Id>)
      ensures IsListing(orders, s, ks)
      ensures |s| == |orders|
    {
      s, ks := Values(orders);
      ListingLength(orders, s, ks);
    }

    /** Get: the stored order, or ErrNoItemFound. */
    method Get(id: Id) returns (r: Result<Order>)
      ensures id in orders ==> r == Ok(orders[id])
      ensures id !in orders ==> r == Err(NoItemFound)
    {
      if id in orders {
        return Ok(orders[id]);
      }
      return Err(NoItemFound);
    }

    /** Update: replaces the order filed under the same id, or fails with
        ErrNoItemFound and changes nothing. */
    method Update(order: Order) returns (err: Option<Error>)
      requires Valid()
      modifies this
      ensures Valid() && file == old(file)
      ensures order.id !in old(orders) ==> err == Some(NoItemFound) && orders == old(orders) && changed == old(changed)
      ensures order.id in old(orders) ==> err.None? && orders == old(orders)[order.id := order] && changed
    {
      if order.id !in orders {
        return Some(NoItemFound);
      }
      orders := orders[order.id := order];
      changed := true;
      return None;
    }

    /** Delete: removes only that id, or fails with ErrNoItemFound. */
    method Delete(id: Id) returns (err: Option<Error>)
      requires Valid()
      modifies this
      ensures Valid() && file == old(file)
      ensures id !in old(orders) ==> err == Some(NoItemFound) && orders == old(orders) && changed == old(changed)
      ensures id in old(orders) ==> err.None? && orders == old(orders) - {id} && changed
    {
      if id !in orders {
        return Some(NoItemFound);
      }
      orders := orders - {id};
      changed := true;
      return None;
    }
  }
}
