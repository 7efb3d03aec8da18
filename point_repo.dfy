/** The pick-up point FileRepository of the app (the reader/writer-based
    revision): points in a map keyed by id, a `changed` flag, and `Close`
    writing the map out only when it changed. The writer's content is the
    field `file`. */
module PointRepo {
  import opened Model
  import opened Listing

  class FileRepository {
    var points: map<Id, PickUpPoint>
    var file: map<Id, PickUpPoint>
    var changed: bool

    /** Nothing unsaved when `changed` is clear. */
    ghost predicate Valid()
      reads this
    {
      !changed ==> file == points
    }

    /** NewFileRepository: empty input gives an empty map, otherwise the
        decoded map. */
    constructor Open(content: Option<map<Id, PickUpPoint>>)
      ensures Valid() && !changed
      ensures points == file == (if content.Some? then content.value else map[])
      ensures content.None? ==> points == map[]
    {
      var m := if content.Some? then content.value else map[];
      points, file, changed := m, m, false;
    }

    /** Close: no write when unchanged; `changed` cleared after a successful
        write. */
    method Close(writeError: Option<Error>) returns (err: Option<Error>)
      requires Valid()
      modifies this
      ensures Valid() && points == old(points)
      ensures !old(changed) ==> err.None? && file == old(file) && !changed
      ensures old(changed) && writeError.Some? ==> err == writeError && file == old(file) && changed
      ensures old(changed) && writeError.None? ==> err.None? && file == points && !changed
    {
      if !changed {
        return None;
      }
      if writeError.Some? {
        return writeError;
      }
      file := points;
      changed := false;
      return None;
    }

    /** Create: ErrIdAlreadyExists for a taken id (map and flag unchanged),
        otherwise the point is stored under its id. */
    method Create(point: PickUpPoint) returns (err: Option<Error>)
      requires Valid()
      modifies this
      ensures Valid() && file == old(file)
      ensures point.id in old(points) ==> err == Some(IdAlreadyExists) && points == old(points) && changed == old(changed)
      ensures point.id !in old(points) ==> err.None? && points == old(points)[point.id := point] && changed
    {
      if point.id in points {
        return Some(IdAlreadyExists);
      }
      points := points[point.id := point];
      changed := true;
      return None;
    }

    /** List: every stored point exactly once, in no particular order. */
    method List() returns (s: seq<PickUpPoint>, ghost ks: seq<Id>)
      ensures IsListing(points, s, ks)
      ensures |s| == |points|
    {
      s, ks := Values(points);
      ListingLength(points, s, ks);
    }

    method Get(id: Id) returns (r: Result<PickUpPoint>)
      ensures id in points ==> r == Ok(points[id])
      ensures id !in points ==> r == Err(NoItemFound)
    {
      if id in points {
        return Ok(points[id]);
      }
      return Err(NoItemFound);
    }

    /** Update: replaces the point wholesale, or ErrNoItemFound. */
    method Update(point: PickUpPoint) returns (err: Option<Error>)
      requires Valid()
      modifies this
      ensures Valid() && file == old(file)
      ensures point.id !in old(points) ==> err == Some(NoItemFound) && points == old(points) && changed == old(changed)
      ensures point.id in old(points) ==> err.None? && points == old(points)[point.id := point] && changed
    {
      if point.id !in points {
        return Some(NoItemFound);
      }
      points := points[point.id := point];
      changed := true;
      return None;
    }

    /** Delete: removes only that id, or ErrNoItemFound. */
    method Delete(id: Id) returns (err: Option<Error>)
      requires Valid()
      modifies this
      ensures Valid() && file == old(file)
      ensures id !in old(points) ==> err == Some(NoItemFound) && points == old(points) && changed == old(changed)
      ensures id in old(points) ==> err.None? && points == old(points) - {id} && changed
    {
      if id !in points {
        return Some(NoItemFound);
      }
      points := points - {id};
      changed := true;
      return None;
    }
  }
}
