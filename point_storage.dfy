/** PickUpPointFileStorage (internal/storage): the earliest pick-up point
    store, with plain error strings and a plain mutex. */
module LegacyPointStore {
  import opened Model
  import opened Listing

  const Duplicate: Error := Message("point with such id already exists")
  const Missing: Error := Message("no such point found")

  class PickUpPointFileStorage {
    var points: map<Id, PickUpPoint>
    var file: map<Id, PickUpPoint>
    var changed: bool

    /** Nothing unsaved when `changed` is clear. */
    ghost predicate Valid()
      reads this
    {
      !changed ==> file == points
    }

    /** NewPickUpPointFileStorage: an empty file gives an empty map, otherwise the
        decoded map. */
    constructor Open(content: Option<map<Id, PickUpPoint>>)
      ensures Valid() && !changed
      ensures points == file == (if content.Some? then content.value else map[])
      ensures content.None? ==> points == map[]
    {
      var m := if content.Some? then content.value else map[];
      points, file, changed := m, m, false;
    }

    /** Close: no write when unchanged; `changed` cleared after a successful
        write. */
    method Close(writeError: Option<Error>) returns (err: Option<Error>)
      requires Valid()
      modifies this
      ensures Valid() && points == old(points)
      ensures !old(changed) ==> err.None? && file == old(file) && !changed
      ensures old(changed) && writeError.Some? ==> err == writeError && file == old(file) && changed
      ensures old(changed) && writeError.None? ==> err.None? && file == points && !changed
    {
      if !changed {
        return None;
      }
      if writeError.Some? {
        return writeError;
      }
      file := points;
      changed := false;
      return None;
    }

    /** Create: the duplicate-id error for a taken id (map and flag unchanged),
        otherwise the point is stored under its id. */
    method Create(point: PickUpPoint) returns (err: Option<Error>)
      requires Valid()
      modifies this
      ensures Valid() && file == old(file)
      ensures point.id in old(points) ==> err == Some(Duplicate) && points == old(points) && changed == old(changed)
      ensures point.id !in old(points) ==> err.None? && points == old(points)[point.id := point] && changed
    {
      if point.id in points {
        return Some(Duplicate);
      }
      points := points[point.id := point];
      changed := true;
      return None;
    }

    /** List: every stored point exactly once, in no particular order. */
    method List() returns (s: seq<PickUpPoint>, ghost ks: seq<Id>)
      ensures IsListing(points, s, ks)
      ensures |s| == |points|
    {
      s, ks := Values(points);
      ListingLength(points, s, ks);
    }

    method Get(id: Id) returns (r: Result<PickUpPoint>)
      ensures id in points ==> r == Ok(points[id])
      ensures id !in points ==> r == Err(Missing)
    {
      if id in points {
        return Ok(points[id]);
      }
      return Err(Missing);
    }

    /** Update: replaces the point wholesale, or the "no such point found" error. */
    method Update(point: PickUpPoint) returns (err: Option<Error>)
      requires Valid()
      modifies this
      ensures Valid() && file == old(file)
      ensures point.id !in old(points) ==> err == Some(Missing) && points == old(points) && changed == old(changed)
      ensures point.id in old(points) ==> err.None? && points == old(points)[point.id := point] && changed
    {
      if point.id !in points {
        return Some(Missing);
      }
      points := points[point.id := point];
      changed := true;
      return None;
    }

    /** Delete: removes only that id, or the "no such point found" error. */
    method Delete(id: Id) returns (err: Option<Error>)
      requires Valid()
      modifies this
      ensures Valid() && file == old(file)
      ensures id !in old(points) ==> err == Some(Missing) && points == old(points) && changed == old(changed)
      ensures id in old(points) ==> err.None? && points == old(points) - {id} && changed
    {
      if id !in points {
        return Some(Missing);
      }
      points := points - {id};
      changed := true;
      return None;
    }
  }
}
