# Pick-up point orders: a Dafny model

This project models the core of a pick-up point service written in Go. An
order is accepted at a pick-up point, given to its customer, possibly
returned within two days, and finally sent back to the courier once its keep
date has passed. Pick-up points themselves are kept in a store, with a TTL
cache in front.

The model covers:

- the order lifecycle rules of both service revisions: the app's `Service`
  and the first homework's `Service`, the latter with its own input checks;
- the app's order facade (`OrderCoreService`): request validation, keep dates
  that run to the end of the named day, and packaging;
- the packaging rules in both revisions;
- the eight map-backed file stores, four for orders and four for pick-up
  points;
- the TTL cache of pick-up points, and the facade's update and delete that
  keep it coherent with the store.

Time is an integer count of seconds passed in as `now`. Prices are Go `int64`
and wrap around explicitly. Every store keeps its map in a class field. The
file it writes is a second field, `file`. Go's map iteration is a
nondeterministic choice over the keys still to visit.

Modules, by file:

- `model.dfy`: ids, instants, `Order`, `PickUpPoint`, errors, `int64` wrap-around.
- `listing.dfy`: what every `List` returns.
- `packaging.dfy`: the packaging rules.
- `order_repo.dfy`, `order_file_storage.dfy`, `legacy_order_storage.dfy`,
  `first_order_storage.dfy`: the order stores.
- `point_repo.dfy`, `point_path_repo.dfy`, `point_file_storage.dfy`,
  `point_storage.dfy`: the pick-up point stores.
- `lifecycle.dfy`: the state machine and the checks of each operation, as
  functions.
- `order_queries.dfy`: filtering, the descending sort, truncation and paging.
- `order_service.dfy`, `first_service.dfy`: the two service revisions.
- `order_core.dfy`: the order facade.
- `cache.dfy`: the TTL cache.
- `point_core.dfy`: the pick-up point facade's writes.

In three places the model follows the code as written:

- Packaging refusals are plain errors in the code, not validation errors.
- The facade's own AcceptOrder checks also return plain errors.
- The facade calls `RemoveOrder` and `GiveOrders` with a shorter signature
  than its `OrderService` interface declares (internal/app/core/order.go).
  The model binds the facade to the app `Service` and keeps only the error of
  `GiveOrders`.

## Model

| member | source | states |
|---|---|---|
| Model.Wrap64 | internal/app/packaging/bag.go:16 | `+=` on an `int64` price: the exact sum when it fits in 64 bits, and always congruent to it modulo 2^64 |
| Listing.Values | internal/app/order/repository.go:73-79 | the `range` loop over the map yields every stored value once, each read under a distinct key, in whatever order the map chooses: as many entries as keys, and exactly the stored values |
| Listing.ListingLength | internal/app/order/repository.go:73-79 | a listing has exactly as many entries as the map has keys |
| Listing.ListingMembers | internal/app/order/repository.go:73-79 | a value is in the listing if and only if it is stored in the map |
| Listing.ListingNoDup | internal/app/order/repository.go:73-79 | when orders are filed under their own ids, a listing repeats no order |
| Packaging.BagApply | internal/app/packaging/bag.go:11-18 | refused (input handed back, 'bag cannot handle more than 10 kg') if and only if the weight is at least 10 kg; otherwise only the price changes, by +5 in int64 arithmetic |
| Packaging.BoxApply | internal/app/packaging/box.go:11-18 | refused (input handed back) if and only if the weight is at least 30 kg; otherwise only the price changes, by +20 |
| Packaging.FilmApply | internal/app/packaging/film.go:10-13 | never refuses; only the price changes, by +1 |
| Packaging.WrapApply | internal/app/packaging/wrap.go:10-13 | never refuses; only the price changes, by +1 |
| Packaging.Apply | internal/app/core/acceptorder.go:66-72 | applying the looked-up packaging refuses exactly the overweight bag and box orders, handing the input back with that packaging's weight message; otherwise it raises the price by the packaging's surcharge (bag 5, box 20, film and wrap 1) in 64-bit arithmetic and changes nothing else |
| Packaging.BagVariantApply | internal/packaging/bag.go:11-18 | older bag: same 10 kg bound and +5 surcharge, but an overweight order comes back as the zero order |
| Packaging.BoxVariantApply | internal/packaging/box.go:11-18 | older box: same 30 kg bound and +20 surcharge, the zero order on refusal |
| Packaging.RevisionsAgreeOnSuccess | internal/packaging/bag.go:11-18 | the two revisions report the same errors and hand back the same order whenever they accept it |
| OrderRepo.FileRepository.Open | internal/app/order/repository.go:19-42 | opening an empty file gives no orders, otherwise the file's orders; nothing is pending |
| OrderRepo.FileRepository.Close | internal/app/order/repository.go:45-59 | writes the orders to the file only when something changed; a failed write is reported and leaves the change pending; the file is in sync afterwards otherwise |
| OrderRepo.FileRepository.Create | internal/app/order/repository.go:62-70 | a taken id gives ErrIdAlreadyExists and changes nothing; otherwise exactly that entry is added and marked pending; the file is in sync whenever nothing is pending |
| OrderRepo.FileRepository.List | internal/app/order/repository.go:73-79 | every stored entry exactly once, as many as are stored |
| OrderRepo.FileRepository.Get | internal/app/order/repository.go:82-87 | the entry stored under the id, or ErrNoItemFound |
| OrderRepo.FileRepository.Update | internal/app/order/repository.go:90-98 | an unknown id gives ErrNoItemFound and changes nothing; otherwise exactly that entry is replaced and marked pending |
| OrderRepo.FileRepository.Delete | internal/app/order/repository.go:101-109 | an unknown id gives ErrNoItemFound and changes nothing; otherwise exactly that entry is removed and marked pending |
| FileOrderStore.OrderFileStorage.Open | internal/storage/file/order.go:19-42 | opening an empty file gives no orders, otherwise the file's orders; nothing is pending |
| FileOrderStore.OrderFileStorage.Close | internal/storage/file/order.go:45-59 | writes the orders to the file only when something changed; a failed write is reported and leaves the change pending; the file is in sync afterwards otherwise |
| FileOrderStore.OrderFileStorage.Create | internal/storage/file/order.go:62-70 | a taken id gives 'order with such id already exists' and changes nothing; otherwise exactly that entry is added and marked pending; the file is in sync whenever nothing is pending |
| FileOrderStore.OrderFileStorage.List | internal/storage/file/order.go:73-79 | every stored entry exactly once, as many as are stored |
| FileOrderStore.OrderFileStorage.Get | internal/storage/file/order.go:82-87 | the entry stored under the id, or 'no such order found' |
| FileOrderStore.OrderFileStorage.Update | internal/storage/file/order.go:90-98 | an unknown id gives 'no such order found' and changes nothing; otherwise exactly that entry is replaced and marked pending |
| FileOrderStore.OrderFileStorage.Delete | internal/storage/file/order.go:101-109 | an unknown id gives 'no such order found' and changes nothing; otherwise exactly that entry is removed and marked pending |
| PointRepo.FileRepository.Open | internal/app/pickuppoint/filerepository.go:18-33 | opening an empty file gives no points, otherwise the file's points; nothing is pending |
| PointRepo.FileRepository.Close | internal/app/pickuppoint/filerepository.go:36-53 | writes the points to the file only when something changed; a failed write is reported and leaves the change pending; the file is in sync afterwards otherwise |
| PointRepo.FileRepository.Create | internal/app/pickuppoint/filerepository.go:56-66 | a taken id gives ErrIdAlreadyExists and changes nothing; otherwise exactly that entry is added and marked pending; the file is in sync whenever nothing is pending |
| PointRepo.FileRepository.List | internal/app/pickuppoint/filerepository.go:69-77 | every stored entry exactly once, as many as are stored |
| PointRepo.FileRepository.Get | internal/app/pickuppoint/filerepository.go:80-88 | the entry stored under the id, or ErrNoItemFound |
| PointRepo.FileRepository.Update | internal/app/pickuppoint/filerepository.go:91-101 | an unknown id gives ErrNoItemFound and changes nothing; otherwise exactly that entry is replaced and marked pending |
| PointRepo.FileRepository.Delete | internal/app/pickuppoint/filerepository.go:104-114 | an unknown id gives ErrNoItemFound and changes nothing; otherwise exactly that entry is removed and marked pending |
| PointPathRepo.FileRepository.Open | internal/app/pickuppoint/filestorage.go:23-46 | opening an empty file gives no points, otherwise the file's points; nothing is pending |
| PointPathRepo.FileRepository.Close | internal/app/pickuppoint/filestorage.go:49-66 | writes the points to the file only when something changed; a failed write is reported and leaves the change pending; the file is in sync afterwards otherwise |
| PointPathRepo.FileRepository.Create | internal/app/pickuppoint/filestorage.go:69-79 | a taken id gives ErrIdAlreadyExists and changes nothing; otherwise exactly that entry is added and marked pending; the file is in sync whenever nothing is pending |
| PointPathRepo.FileRepository.List | internal/app/pickuppoint/filestorage.go:82-90 | every stored entry exactly once, as many as are stored |
| PointPathRepo.FileRepository.Get | internal/app/pickuppoint/filestorage.go:93-101 | the entry stored under the id, or ErrNoItemFound |
| PointPathRepo.FileRepository.Update | internal/app/pickuppoint/filestorage.go:104-114 | an unknown id gives ErrNoItemFound and changes nothing; otherwise exactly that entry is replaced and marked pending |
| PointPathRepo.FileRepository.Delete | internal/app/pickuppoint/filestorage.go:117-127 | an unknown id gives ErrNoItemFound and changes nothing; otherwise exactly that entry is removed and marked pending |
| FilePointStore.PickUpPointFileStorage.Open | internal/storage/file/pickuppoint.go:22-45 | opening an empty file gives no points, otherwise the file's points; nothing is pending |
| FilePointStore.PickUpPointFileStorage.Close | internal/storage/file/pickuppoint.go:48-65 | writes the points to the file only when something changed; a failed write is reported and leaves the change pending; the file is in sync afterwards otherwise |
| FilePointStore.PickUpPointFileStorage.Create | internal/storage/file/pickuppoint.go:68-78 | a taken id gives 'point with such id already exists' and changes nothing; otherwise exactly that entry is added and marked pending; the file is in sync whenever nothing is pending |
| FilePointStore.PickUpPointFileStorage.List | internal/storage/file/pickuppoint.go:81-89 | every stored entry exactly once, as many as are stored |
| FilePointStore.PickUpPointFileStorage.Get | internal/storage/file/pickuppoint.go:92-100 | the entry stored under the id, or 'no such point found' |
| FilePointStore.PickUpPointFileStorage.Update | internal/storage/file/pickuppoint.go:103-113 | an unknown id gives 'no such point found' and changes nothing; otherwise exactly that entry is replaced and marked pending |
| FilePointStore.PickUpPointFileStorage.Delete | internal/storage/file/pickuppoint.go:116-126 | an unknown id gives 'no such point found' and changes nothing; otherwise exactly that entry is removed and marked pending |
| LegacyPointStore.PickUpPointFileStorage.Open | internal/storage/pickuppointstorage.go:21-44 | opening an empty file gives no points, otherwise the file's points; nothing is pending |
| LegacyPointStore.PickUpPointFileStorage.Close | internal/storage/pickuppointstorage.go:47-63 | writes the points to the file only when something changed; a failed write is reported and leaves the change pending; the file is in sync afterwards otherwise |
| LegacyPointStore.PickUpPointFileStorage.Create | internal/storage/pickuppointstorage.go:66-76 | a taken id gives 'point with such id already exists' and changes nothing; otherwise exactly that entry is added and marked pending; the file is in sync whenever nothing is pending |
| LegacyPointStore.PickUpPointFileStorage.List | internal/storage/pickuppointstorage.go:79-87 | every stored entry exactly once, as many as are stored |
| LegacyPointStore.PickUpPointFileStorage.Get | internal/storage/pickuppointstorage.go:90-98 | the entry stored under the id, or 'no such point found' |
| LegacyPointStore.PickUpPointFileStorage.Update | internal/storage/pickuppointstorage.go:101-111 | an unknown id gives 'no such point found' and changes nothing; otherwise exactly that entry is replaced and marked pending |
| LegacyPointStore.PickUpPointFileStorage.Delete | internal/storage/pickuppointstorage.go:114-124 | an unknown id gives 'no such point found' and changes nothing; otherwise exactly that entry is removed and marked pending |
| LegacyOrderStore.FileStorage.Open | internal/storage/storage.go:21-44 | opening an empty file gives no orders, otherwise the file's orders |
| LegacyOrderStore.FileStorage.Close | internal/storage/storage.go:47-60 | writes the orders only when `changed` is set, and never clears it |
| LegacyOrderStore.FileStorage.Create | internal/storage/storage.go:63-71 | a taken id gives 'order with such id already exists' and changes nothing; otherwise exactly that order is added and `changed` set |
| LegacyOrderStore.FileStorage.List | internal/storage/storage.go:74-80 | as written: twice as many entries as orders, the first half zero orders, the second half every order once |
| LegacyOrderStore.FileStorage.Get | internal/storage/storage.go:83-88 | the stored order, or 'no such order found' |
| LegacyOrderStore.FileStorage.Update | internal/storage/storage.go:91-98 | as written: replaces exactly that order but leaves `changed` as it was |
| LegacyOrderStore.FileStorage.Delete | internal/storage/storage.go:101-110 | the scan removes exactly the order with that id, or reports 'no such order found' and changes nothing |
| LegacyOrderStore.LostUpdate | internal/storage/storage.go:91-98 | opening one order, updating it and closing leaves a file that differs from the orders held |
| FirstOrderStore.FileStorage.Open | Homework-1/internal/storage/storage.go:18-41 | opening an empty file gives no orders, otherwise the file's orders |
| FirstOrderStore.FileStorage.Save | Homework-1/internal/storage/storage.go:44-54 | always writes the whole map; a failed write is reported and leaves the file as it was |
| FirstOrderStore.FileStorage.Create | Homework-1/internal/storage/storage.go:57-65 | the scan refuses an id some stored order already has; otherwise exactly that order is added |
| FirstOrderStore.FileStorage.List | Homework-1/internal/storage/storage.go:68-74 | as written: one zero order per stored order, then every order once |
| FirstOrderStore.FileStorage.Get | Homework-1/internal/storage/storage.go:77-82 | the stored order, or 'no such order found' |
| FirstOrderStore.FileStorage.Update | Homework-1/internal/storage/storage.go:85-93 | the scan replaces exactly the order with that id, or reports 'no such order found' and changes nothing |
| FirstOrderStore.FileStorage.Delete | Homework-1/internal/storage/storage.go:96-104 | the scan removes exactly the order with that id, or reports 'no such order found' and changes nothing |
| Lifecycle.RemoveError | internal/app/order/service.go:55-66 | removal is allowed if and only if the order exists, is not with the customer, and its keep date has arrived; a missing order gives the repository's not-found error |
| Lifecycle.GiveErrorGivable | internal/app/order/service.go:77-94 | once the first customer is known, the rest of a batch passes the checks if and only if every order is stored, not given, within its keep date and that customer's |
| Lifecycle.GiveErrorIff | internal/app/order/service.go:77-94 | a batch passes the checks if and only if it is givable as a whole: every order stored, not given, within its keep date, and all owned by the first order's customer |
| Lifecycle.ReturnError | internal/app/order/service.go:147-160 | a return is accepted if and only if the order exists, belongs to the customer, is given and not returned, and at most two days have passed since it was given |
| Lifecycle.ReturnWindowEdges | internal/app/order/service.go:157-160 | a return exactly two days after the give is accepted; one second later it is refused with 'too much time passed since give' |
| Lifecycle.StatusTransitions | internal/app/order/service.go:95-104 | giving moves an accepted order to given; taking it back moves a given order to returned |
| Lifecycle.AddKeepsLawful | internal/app/order/service.go:43-48 | adding a fresh order keeps every order's flags and dates consistent and none in the future |
| Lifecycle.GiveKeepsLawful | internal/app/order/service.go:95-104 | a successful batch keeps every order consistent and leaves every order of the batch given |
| Lifecycle.ReturnKeepsLawful | internal/app/order/service.go:161-163 | an accepted return keeps every order consistent: returned within the window after it was given |
| Lifecycle.NotAfterLater | internal/app/order/service.go:76 | recorded instants stay in the past as the clock advances |
| OrderQueries.FilterMembers | internal/app/order/service.go:112-122 | an order survives the filter if and only if it was listed and the query keeps it |
| OrderQueries.FilterNoDup | internal/app/order/service.go:112-122 | filtering a listing without repeats gives no repeats |
| OrderQueries.FilterSkipsUnselected | Homework-1/internal/service/service.go:115-123 | orders the query drops, put in front of a listing, do not change what the filter keeps |
| OrderQueries.FilterLoop | internal/app/order/service.go:112-122 | the `append` loop keeps exactly the orders the query selects, in listing order |
| OrderQueries.SortDesc | internal/app/order/service.go:123-131 | the result is a permutation of the input, latest date first |
| OrderQueries.Insert | internal/app/order/service.go:123-131 | one insertion keeps the sequence sorted latest first and adds exactly the new order |
| OrderQueries.SelectionOfListing | internal/app/order/service.go:111-131 | filtering and sorting a listing yields every selected stored order exactly once, latest first |
| OrderQueries.SelectionLength | internal/app/order/service.go:112-122 | the sorted selection has as many entries as there are selected stored orders |
| OrderQueries.Truncate | internal/app/order/service.go:132-134 | keeps the first `n` entries when `0 < n` and fewer than there are, otherwise all of them |
| OrderQueries.TruncateTopN | internal/app/order/service.go:108-136 | the truncated list holds the `n` latest selected orders: none left out is later than one kept, and all of them when `n` is not positive |
| OrderQueries.Page | internal/app/order/service.go:188-197 | page 0 of nothing is empty; a page is refused with 'page number is too large' if and only if it starts at or past the end; otherwise it is the slice of at most `count` entries starting at `pageNum*count` |
| OrderQueries.PageOfSelection | internal/app/order/service.go:188-197 | a page of the sorted returns is refused exactly when it starts past the number of returned orders, otherwise holds at most `count` returned stored orders, latest first |
| OrderQueries.PagesSpellList | internal/app/order/service.go:188-197 | the pages in order, joined, spell out the sorted list: paging loses and repeats nothing |
| OrderQueries.ThreeReturnsTwoPerPage | internal/app/order/service.go:188-197 | three returns, two per page: page 0 has the first two, page 1 the third, page 2 is refused |
| OrderQueries.PageCutAsWritten | internal/app/order/service.go:191-197 | paging with 64-bit products as the code computes them; any slice it cuts starts before the end of the list |
| OrderQueries.PagingOverflows | internal/app/order/service.go:191-197 | count 2, page 2^62, one return: the guard passes and the slice starts at a negative index |
| OrderQueries.PageCutAgrees | internal/app/order/service.go:191-197 | while `(pageNum+1)*count` fits in 64 bits, the code cuts exactly where Page does, within bounds |
| OrderService.Service.AddOrder | internal/app/order/service.go:43-48 | stores the order as given, or reports ErrIdAlreadyExists and changes nothing |
| OrderService.Service.RemoveOrder | internal/app/order/service.go:51-67 | reports exactly RemoveError; deletes that order when it is None and changes nothing otherwise |
| OrderService.Service.GiveOrders | internal/app/order/service.go:70-105 | all or nothing: reports exactly GiveError and changes nothing, or marks every listed order given at the same instant and returns them in the order asked |
| OrderService.Service.CheckBatch | internal/app/order/service.go:77-94 | the first loop reports exactly GiveError, and on success has fetched the stored order for each id in order |
| OrderService.Service.MarkGiven | internal/app/order/service.go:95-104 | the second loop stores every fetched order marked given at `now`, leaving other orders untouched |
| OrderService.Service.GetOrders | internal/app/order/service.go:108-136 | the customer's `n` latest orders (all when `n` is not positive), distinct and latest first, skipping held ones when `filterGiven` is set |
| OrderService.Service.AcceptReturn | internal/app/order/service.go:139-164 | reports exactly ReturnError; on success the order is marked returned at `now` and returned, otherwise the zero order and no change |
| OrderService.Service.GetReturns | internal/app/order/service.go:167-198 | page `pageNum` of the returned orders sorted latest return first, refused exactly when it starts past their number |
| FirstService.Service.AddOrder | Homework-1/internal/service/service.go:29-50 | refuses a zero order id, a zero customer id, a keep date in the past and a taken id; otherwise stores a fresh order added at `now` |
| FirstService.Service.RemoveOrder | Homework-1/internal/service/service.go:53-69 | refuses the zero id, then reports exactly RemoveError and deletes only when it is None |
| FirstService.Service.GiveOrders | Homework-1/internal/service/service.go:72-103 | all or nothing: reports exactly GiveError, or marks every listed order given at the same instant |
| FirstService.Service.CheckBatch | Homework-1/internal/service/service.go:76-93 | the first loop reports exactly GiveError and fetches every order on success |
| FirstService.Service.MarkGiven | Homework-1/internal/service/service.go:94-101 | the second loop stores every fetched order marked given |
| FirstService.Service.GetOrders | Homework-1/internal/service/service.go:106-137 | refuses customer 0 and negative `n`; otherwise the customer's `n` latest orders, with the doubled listing's zero orders never included |
| FirstService.Service.AcceptReturn | Homework-1/internal/service/service.go:140-168 | refuses zero ids, then reports exactly ReturnError and marks the order returned when it is None |
| FirstService.Service.GetReturns | Homework-1/internal/service/service.go:171-205 | refuses a non-positive count and a negative page; otherwise the page of returned orders, latest return first |
| FirstService.ListedOnce | Homework-1/internal/service/service.go:113-132 | the zero orders the doubled listing puts in front are dropped by the filter, so sorting yields the true selection |
| OrderCore.Prepared | internal/app/core/acceptorder.go:21-72 | the request passes if and only if both ids are non-zero, the keep date is given and its last second is not past, price and weight are positive, and the packaging (if named) exists and accepts the weight; each failed check gives its own error, in the code's order: 'valid order id is required', 'valid customer id is required', 'keep date is required', the date parser's error, 'keepDate can't be in the past', 'price must be positive', 'weight must be positive', 'invalid packaging type', then the refusing packaging's own error; the order built is fresh, added now, kept to the end of that day, priced at the request's price plus the packaging's surcharge (wrapped to 64 bits) |
| OrderCore.KeepDateWholeDay | internal/app/core/acceptorder.go:36-40 | a keep date can be used until the last second of its day and is refused from the next midnight |
| OrderCore.AcceptedIsListed | internal/app/core/acceptorder.go:58-65 | an accepted order is among its customer's listed orders, neither given nor returned |
| OrderCore.OrderScenario | internal/app/core/acceptorder.go:21-74 | order 1001 accepted for customer 7 cannot be sent back before its keep date, can be given, and cannot be returned three days later |
| OrderCore.OrderCoreService.AcceptOrder | internal/app/core/acceptorder.go:21-74 | stores the prepared order, or reports the first failed check or ErrIdAlreadyExists and changes nothing; a store whose orders all have consistent flags and no instant after `now` stays so |
| OrderCore.OrderCoreService.ListOrders | internal/app/core/getorders.go:15-26 | refuses customer 0 and a negative count; otherwise the customer's latest orders as GetOrders promises |
| OrderCore.OrderCoreService.AcceptReturn | internal/app/core/acceptreturn.go:14-25 | refuses zero ids, then the Service's return; a store whose orders all have consistent flags and no instant after `now` stays so |
| OrderCore.OrderCoreService.ListReturns | internal/app/core/listreturns.go:14-25 | refuses a non-positive count and a negative page; otherwise exactly the requested page of the stored returned orders sorted latest first, refused exactly past the last page |
| OrderCore.OrderCoreService.ReturnOrder | internal/app/core/removeorder.go:4-9 | refuses the zero id, then the Service's removal; a store whose orders all have consistent flags and no instant after `now` stays so |
| OrderCore.OrderCoreService.GiveOrders | internal/app/core/giveorders.go:6-11 | a nil id list is refused; otherwise the Service's all-or-nothing batch; a store whose orders all have consistent flags and no instant after `now` stays so |
| PointCache.Lookup | internal/app/cache/cache.go:79-90 | a hit if and only if the entry exists and has not expired; then its value; otherwise 'point not found' |
| PointCache.SweepInvisible | internal/app/cache/cache.go:50-65 | a sweep at `now` changes no lookup at `now` or later |
| PointCache.PutThenLookup | internal/app/cache/cache.go:67-77 | a point put at `now` is seen exactly until `now + ttl` |
| PointCache.Cache.constructor | internal/app/cache/cache.go:26-33 | a new cache is empty |
| PointCache.Cache.InvalidateCache | internal/app/cache/cache.go:50-65 | the sweep leaves exactly the entries that have not expired, unchanged |
| PointCache.Cache.PutPoint | internal/app/cache/cache.go:67-77 | the entry for the point's id becomes the point, expiring at `now + ttl` |
| PointCache.Cache.GetPoint | internal/app/cache/cache.go:79-90 | answers exactly as the lookup specification PointCache.Lookup: the cached point while its entry exists and has not expired, otherwise 'point not found' |
| PointCache.Cache.DeletePoint | internal/app/cache/cache.go:92-99 | the entry for the id is gone, nothing else changes |
| PointCore.PickUpPointCoreService.constructor | internal/app/core/pickuppoint.go:50-57 | the facade starts from a freshly made, empty cache, so the cache agrees with the store from the start |
| PointCore.PickUpPointCoreService.UpdatePoint | internal/app/core/updatepoint.go:15-28 | a failed update changes neither store nor cache; a successful one replaces the stored point and caches it; the cache stays coherent with the store |
| PointCore.PickUpPointCoreService.DeletePoint | internal/app/core/deletepoint.go:5-15 | a failed delete changes neither; a successful one removes the point from the store and then the cache; the cache stays coherent |
| PointCore.CoherentHit | internal/app/core/updatepoint.go:23-27 | with a coherent cache, every cache hit is the stored point |
| PointCore.SweepKeepsCoherent | internal/app/cache/cache.go:54-63 | a sweep keeps the cache coherent with the store |

## Left out

- Concurrency: the pick-up point read and write lanes, mutexes, goroutines, `Cache.Run`'s ticker, and context cancellation (including the sweep stopping early on a cancelled context). Each operation is modelled as one atomic step.
- The pick-up point `Service` and its transaction manager (internal/app/pickuppoint/service.go) only pass calls through. The facade is bound directly to the file repository.
- The PostgreSQL, Redis and Kafka back ends, the list-level cache, tracing, metrics and logging: these are I/O or observability.
- JSON encoding and the file system: the file's content is the `file` field, and a write's outcome is a parameter (`writeError`). A decode error on open is not modelled, so `Open` takes the decoded map or nothing.
- Date parsing and time zones: a keep date arrives already parsed as the local midnight of its day (or as the parser's error). Daylight-saving days are treated as 86400 seconds long, including the two-day return window.
- Weights are `real`, not IEEE doubles. Ids are unbounded naturals, which matches the code since it never does arithmetic on ids.
- The facade's `CreatePoint`, `ListPoints` and `GetPoint` are not part of this model.
- OrderQueries.SortDesc: the library sort is not stable, so the order among orders with equal dates is left unspecified, as the code leaves it.
- OrderService.Service.GetReturns: requires `count >= 0` and `pageNum >= 0`, which the facade guarantees. With negative values the code may panic on a bad slice, or give an empty page or the 'page number is too large' error, depending on the values and on how many orders were returned; the facade never passes them.
- OrderRepo.FileRepository.Open: a data file whose map keys differ from the `Id` fields of the orders under them is assumed away (the code only ever writes files whose keys match, but it reads whatever is on disk). Every property that rests on it, such as the listings being free of duplicates, is stated only for files the program wrote.
- FileOrderStore.OrderFileStorage.Open: a data file whose keys differ from its orders' ids is assumed away, as for OrderRepo.FileRepository.Open.
- LegacyOrderStore.FileStorage.Open: a data file whose keys differ from its orders' ids is assumed away, as for OrderRepo.FileRepository.Open.
- FirstOrderStore.FileStorage.Open: a data file whose keys differ from its orders' ids is assumed away, as for OrderRepo.FileRepository.Open. On such a file the id-scanning `Create`, `Update` and `Delete` of this store would disagree with its key-based `Get`; the model does not show that.
- OrderQueries.Page: uses unbounded integers. The 64-bit overflow of `pageNum*count` is modelled separately by OrderQueries.PageCutAsWritten (see Findings).

## Findings

| source | as written | input that shows it | evidently intended | confidence | as-written member | corrected member |
|---|---|---|---|---|---|---|
| internal/storage/storage.go:74-80 | `List` makes a slice of length n and then appends the n orders, returning 2n entries, the first n of them zero orders (Homework-1/internal/storage/storage.go:68-74 does the same) | any store holding one order: `List` returns two entries | one entry per stored order, as the later revisions do | high, not executed | LegacyOrderStore.FileStorage.List | FileOrderStore.OrderFileStorage.List |
| internal/storage/storage.go:91-98 | `Update` replaces the order but does not set `changed`, so a later `Close` may skip the write | open a file with order 1, update it, close: the file still holds the old order | every change is marked pending and reaches the file on close | high, not executed | LegacyOrderStore.LostUpdate | FileOrderStore.OrderFileStorage.Update |
| internal/app/order/service.go:191-197 | `pageNum*count` is a 64-bit product; a huge page number wraps to a negative start that passes the "too large" guard, and the slice panics (Homework-1/internal/service/service.go:198-204 does the same) | one returned order, count 2, pageNum 2^62 | such a page is refused as too large | medium, not executed | OrderQueries.PagingOverflows | OrderQueries.Page |
