/** The pick-up point facade's writes (UpdatePoint, DeletePoint): the
    stored points change first, and the cache follows only when the change
    succeeded, so the cache never holds a point that differs from the
    stored one. */
module PointCore {
  import opened Model
  import PointRepo
  import PointCache

  class PickUpPointCoreService {
    const pointService: PointRepo.FileRepository
    const cache: PointCache.Cache

    /** The facade starts from a freshly made, empty cache, which agrees
        with any store. */
    constructor (pointService: PointRepo.FileRepository, cache: PointCache.Cache)
      ensures this.pointService == pointService && this.cache == cache
      ensures cache.points == map[] ==> Coherent()
    {
      this.pointService := pointService;
      this.cache := cache;
    }

    /** Every cached point is stored, and the cached value is the stored
        one. */
    ghost predicate Coherent()
      reads pointService, cache
    {
      forall id :: id in cache.points ==> id in pointService.points && cache.points[id].value == pointService.points[id]
    }

    /** UpdatePoint: the stored point is replaced and then cached until
        `now + ttl`; a failed update leaves the cache alone. */
    method UpdatePoint(id: Id, name: string, address: string, contact: string, now: Time) returns (err: Option<Error>)
      requires pointService.Valid() && Coherent()
      modifies pointService, cache
      ensures pointService.Valid() && Coherent()
      ensures id !in old(pointService.points) ==> err == Some(NoItemFound) && pointService.points == old(pointService.points) && cache.points == old(cache.points)
      ensures id in old(pointService.points) ==> err.None?
      ensures id in old(pointService.points) ==> pointService.points == old(pointService.points)[id := PickUpPoint(id, name, address, contact)]
      ensures id in old(pointService.points) ==>
        cache.points == old(cache.points)[id := PointCache.CachedItem(PickUpPoint(id, name, address, contact), now + cache.ttl)]
    {
      var point := PickUpPoint(id, name, address, contact);
      err := pointService.Update(point);
      if err.Some? {
        return err;
      }
      cache.PutPoint(point, now);
    }

    /** DeletePoint: the stored point is deleted and then dropped from the
        cache; a failed delete leaves the cache alone. */
    method DeletePoint(id: Id) returns (err: Option<Error>)
      requires pointService.Valid() && Coherent()
      modifies pointService, cache
      ensures pointService.Valid() && Coherent()
      ensures id !in old(pointService.points) ==> err == Some(NoItemFound) && pointService.points == old(pointService.points) && cache.points == old(cache.points)
      ensures id in old(pointService.points) ==> err.None? && pointService.points == old(pointService.points) - {id} && cache.points == old(cache.points) - {id}
    {
      err := pointService.Delete(id);
      if err.Some? {
        return err;
      }
      cache.DeletePoint(id);
    }
  }

  /** Under coherence, a cache hit returns the stored point: reading
      through the cache agrees with reading the repository. */
  lemma CoherentHit(points: map<Id, PickUpPoint>, cached: map<Id, PointCache.CachedItem>, id: Id, now: Time)
    requires forall k :: k in cached ==> k in points && cached[k].value == points[k]
    ensures PointCache.Lookup(cached, id, now).Ok? ==> id in points && PointCache.Lookup(cached, id, now).value == points[id]
  {
  }

  /** A sweep keeps the cache coherent. */
  lemma SweepKeepsCoherent(points: map<Id, PickUpPoint>, cached: map<Id, PointCache.CachedItem>, now: Time)
    requires forall k :: k in cached ==> k in points && cached[k].value == points[k]
    ensures forall k :: k in PointCache.Swept(cached, now) ==> k in points && PointCache.Swept(cached, now)[k].value == points[k]
  {
  }
}
