/** The in-memory TTL cache of pick-up points: each entry remembers when it
    expires; lookups ignore expired entries and a periodic sweep drops
    them. The current instant is a parameter `now`. */
module PointCache {
  import opened Model

  datatype CachedItem = CachedItem(value: PickUpPoint, expire: Time)

  const NotCached: Error := Message("point not found")

  /** What a lookup at `now` sees: an entry that has not expired yet. */
  function Lookup(m: map<Id, CachedItem>, id: Id, now: Time): (r: Result<PickUpPoint>)
    ensures r.Ok? <==> id in m && now <= m[id].expire
    ensures r.Ok? ==> r.value == m[id].value
    ensures r.Err? ==> r.error == NotCached
  {
    if id !in m || m[id].expire < now then Err(NotCached) else Ok(m[id].value)
  }

  /** The entries a sweep at `now` keeps. */
  ghost function Swept(m: map<Id, CachedItem>, now: Time): map<Id, CachedItem> {
    map k | k in m && !(m[k].expire < now) :: m[k]
  }

  /** A sweep changes no lookup, at its own instant or later. */
  lemma SweepInvisible(m: map<Id, CachedItem>, now: Time, later: Time, id: Id)
    requires now <= later
    ensures Lookup(Swept(m, now), id, later) == Lookup(m, id, later)
  {
    if id in m && later <= m[id].expire {
      assert id in Swept(m, now);
    }
  }

  /** A point put at `now` is seen exactly until `now + ttl`, whatever was
      cached before. */
  lemma PutThenLookup(m: map<Id, CachedItem>, p: PickUpPoint, now: Time, ttl: int, t: Time)
    ensures Lookup(m[p.id := CachedItem(p, now + ttl)], p.id, t) == if t <= now + ttl then Ok(p) else Err(NotCached)
  {
  }

  class Cache {
    var points: map<Id, CachedItem>
    const ttl: int
    const collectorInterval: int

    /** NewCache: empty. */
    constructor (ttl: int, collectorInterval: int)
      ensures points == map[] && this.ttl == ttl && this.collectorInterval == collectorInterval
    {
      points := map[];
      this.ttl := ttl;
      this.collectorInterval := collectorInterval;
    }

    /** invalidateCache: drops every entry that expired before `now`,
        visiting the entries in the map's iteration order. */
    method InvalidateCache(now: Time)
      modifies this
      ensures points == Swept(old(points), now)
    {
      ghost var m := points;
      var rest := points.Keys;
      while rest != {}
        invariant rest <= m.Keys
        invariant forall k :: k in points <==> k in m && (k in rest || !(m[k].expire < now))
        invariant forall k :: k in points ==> points[k] == m[k]
        decreases rest
      {
        var id :| id in rest;
        if points[id].expire < now {
          points := points - {id};
        }
        rest := rest - {id};
      }
    }

    /** PutPoint: caches the point until `now + ttl`, replacing any entry. */
    method PutPoint(point: PickUpPoint, now: Time)
      modifies this
      ensures points == old(points)[point.id := CachedItem(point, now + ttl)]
    {
      points := points[point.id := CachedItem(point, now + ttl)];
    }

    /** GetPoint: the cached point while it has not expired. */
    method GetPoint(id: Id, now: Time) returns (r: Result<PickUpPoint>)
      ensures r == Lookup(points, id, now)
    {
      if id !in points || points[id].expire < now {
        return Err(NotCached);
      }
      return Ok(points[id].value);
    }

    /** DeletePoint: forgets the entry, if any. */
    method DeletePoint(id: Id)
      modifies this
      ensures points == old(points) - {id}
    {
      points := points - {id};
    }
  }
}
