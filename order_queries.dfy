/** The read side of the order services: which orders a listing keeps, the
    descending sort by a date, the truncation of GetOrders and the paging of
    GetReturns. */
module OrderQueries {
  import opened Model
  import opened Listing

  /** What a listing keeps: one customer's orders (optionally without those
      currently held by the customer), or the returned orders. */
  datatype Query = ByCustomer(customerId: Id, filterGiven: bool) | ReturnedOnly

  predicate Selects(q: Query, o: Order) {
    match q
    case ByCustomer(c, filterGiven) => !(filterGiven && o.isGiven && !o.isReturned) && o.customerId == c
    case ReturnedOnly => o.isReturned
  }

  /** The date a listing is sorted by, latest first. */
  datatype SortKey = ByAddDate | ByReturnDate

  function KeyOf(k: SortKey, o: Order): Time {
    match k
    case ByAddDate => o.addDate
    case ByReturnDate => o.returnDate
  }

  predicate SortedDesc(s: seq<Order>, k: SortKey) {
    forall i, j :: 0 <= i < j < |s| ==> KeyOf(k, s[i]) >= KeyOf(k, s[j])
  }

  /** The orders of `s` that `q` keeps, in their order in `s`. */
  function Filter(s: seq<Order>, q: Query): seq<Order> {
    if s == [] then []
    else Filter(s[..|s| - 1], q) + (if Selects(q, s[|s| - 1]) then [s[|s| - 1]] else [])
  }

  lemma {:induction false} FilterMembers(s: seq<Order>, q: Query, o: Order)
    ensures o in Filter(s, q) <==> o in s && Selects(q, o)
  {
    if s != [] {
      var init := s[..|s| - 1];
      FilterMembers(init, q, o);
      assert s == init + [s[|s| - 1]];
    }
  }

  lemma {:induction false} FilterNoDup(s: seq<Order>, q: Query)
    requires NoDup(s)
    ensures NoDup(Filter(s, q))
  {
    if s != [] {
      var init, last := s[..|s| - 1], s[|s| - 1];
      assert NoDup(init);
      FilterNoDup(init, q);
      FilterMembers(init, q, last);
      assert last !in init by {
        forall j | 0 <= j < |init| ensures init[j] != last {
          assert init[j] == s[j];
        }
      }
    }
  }

  lemma {:induction false} FilterAppend(a: seq<Order>, b: seq<Order>, q: Query)
    ensures Filter(a + b, q) == Filter(a, q) + Filter(b, q)
  {
    if b != [] {
      var binit := b[..|b| - 1];
      assert (a + b)[..|a + b| - 1] == a + binit;
      FilterAppend(a, binit, q);
    } else {
      assert a + b == a;
    }
  }

  /** Orders nobody owns and nobody returned, such as the zero order, are
      dropped whatever comes before them. */
  lemma {:induction false} FilterSkipsUnselected(z: seq<Order>, s: seq<Order>, q: Query)
    requires forall i :: 0 <= i < |z| ==> !Selects(q, z[i])
    ensures Filter(z + s, q) == Filter(s, q)
  {
    FilterAppend(z, s, q);
    FilterNone(z, q);
  }

  lemma {:induction false} FilterNone(z: seq<Order>, q: Query)
    requires forall i :: 0 <= i < |z| ==> !Selects(q, z[i])
    ensures Filter(z, q) == []
  {
    if z != [] {
      FilterNone(z[..|z| - 1], q);
    }
  }

  /** The `for ... { if ... continue; orders = append(orders, order) }`
      loop. */
  method FilterLoop(s: seq<Order>, q: Query) returns (r: seq<Order>)
    ensures r == Filter(s, q)
  {
    r := [];
    var i := 0;
    while i < |s|
      invariant 0 <= i <= |s|
      invariant r == Filter(s[..i], q)
    {
      assert s[..i + 1][..i] == s[..i];
      if Selects(q, s[i]) {
        r := r + [s[i]];
      }
      i := i + 1;
    }
    assert s[..|s|] == s;
  }

  /** `slices.SortFunc` with the "later date first" comparator. The library
      sort is not stable; only sortedness and permutation are promised. */
  method SortDesc(xs: seq<Order>, k: SortKey) returns (r: seq<Order>)
    ensures multiset(r) == multiset(xs)
    ensures SortedDesc(r, k)
  {
    r := [];
    var i := 0;
    while i < |xs|
      invariant 0 <= i <= |xs|
      invariant multiset(r) == multiset(xs[..i])
      invariant SortedDesc(r, k)
    {
      r := Insert(r, xs[i], k);
      assert xs[..i + 1] == xs[..i] + [xs[i]];
      i := i + 1;
    }
    assert xs[..|xs|] == xs;
  }

  /** One insertion step: `x` goes after every entry whose key is at least
      its own. */
  method Insert(r: seq<Order>, x: Order, k: SortKey) returns (n: seq<Order>)
    requires SortedDesc(r, k)
    ensures SortedDesc(n, k)
    ensures multiset(n) == multiset(r) + multiset{x}
  {
    var j := 0;
    while j < |r| && KeyOf(k, r[j]) >= KeyOf(k, x)
      invariant 0 <= j <= |r|
      invariant forall t :: 0 <= t < j ==> KeyOf(k, r[t]) >= KeyOf(k, x)
    {
      j := j + 1;
    }
    InsertSorted(r, j, x, k);
    assert r == r[..j] + r[j..];
    n := r[..j] + [x] + r[j..];
  }

  /** Putting `x` just after the entries whose key is at least its own
      keeps the sequence sorted and adds exactly `x`. */
  lemma InsertSorted(r: seq<Order>, j: nat, x: Order, k: SortKey)
    requires j <= |r| && SortedDesc(r, k)
    requires forall t :: 0 <= t < j ==> KeyOf(k, r[t]) >= KeyOf(k, x)
    requires j < |r| ==> KeyOf(k, r[j]) < KeyOf(k, x)
    ensures SortedDesc(r[..j] + [x] + r[j..], k)
  {
    var n := r[..j] + [x] + r[j..];
    assert forall t :: 0 <= t < j ==> n[t] == r[t];
    assert forall t :: j < t < |n| ==> n[t] == r[t - 1];
    forall a, b | 0 <= a < b < |n| ensures KeyOf(k, n[a]) >= KeyOf(k, n[b]) {
      if b < j {
        assert KeyOf(k, r[a]) >= KeyOf(k, r[b]);
      } else if a > j {
        assert KeyOf(k, r[a - 1]) >= KeyOf(k, r[b - 1]);
      } else if a == j {
        assert KeyOf(k, r[j]) >= KeyOf(k, r[b - 1]);
      } else if b > j {
        assert KeyOf(k, r[a]) >= KeyOf(k, r[b - 1]);
      }
    }
  }

  /** The stored orders `q` keeps. */
  ghost function Selected(m: map<Id, Order>, q: Query): map<Id, Order> {
    map k | k in m && Selects(q, m[k]) :: m[k]
  }

  /** `all` holds exactly the stored orders `q` keeps, each once, latest
      first. */
  ghost predicate IsSortedSelection(m: map<Id, Order>, q: Query, k: SortKey, all: seq<Order>) {
    && NoDup(all)
    && (forall o :: o in all <==> o in m.Values && Selects(q, o))
    && SortedDesc(all, k)
  }

  /** Filtering a listing and sorting the result yields the sorted
      selection. */
  lemma SelectionOfListing(m: map<Id, Order>, s: seq<Order>, ks: seq<Id>, q: Query, k: SortKey, sorted: seq<Order>)
    requires IsListing(m, s, ks) && KeysMatchIds(m)
    requires multiset(sorted) == multiset(Filter(s, q)) && SortedDesc(sorted, k)
    ensures IsSortedSelection(m, q, k, sorted)
  {
    ListingNoDup(m, s, ks);
    FilterNoDup(s, q);
    PermutationNoDup(Filter(s, q), sorted);
    forall o ensures o in sorted <==> o in m.Values && Selects(q, o) {
      assert o in sorted <==> o in multiset(sorted);
      assert o in Filter(s, q) <==> o in multiset(Filter(s, q));
      FilterMembers(s, q, o);
      ListingMembers(m, s, ks, o);
    }
  }

  function Ids(s: seq<Order>): (r: seq<Id>)
    ensures |r| == |s| && forall i :: 0 <= i < |s| ==> r[i] == s[i].id
  {
    seq(|s|, i requires 0 <= i < |s| => s[i].id)
  }

  /** A sorted selection has one entry per selected stored order. */
  lemma SelectionLength(m: map<Id, Order>, q: Query, k: SortKey, all: seq<Order>)
    requires KeysMatchIds(m) && IsSortedSelection(m, q, k, all)
    ensures |all| == |Selected(m, q)|
  {
    var ids := Ids(all);
    forall i, j | 0 <= i < j < |ids| ensures ids[i] != ids[j] {
      assert all[i] in m.Values && all[j] in m.Values;
      assert all[i] == m[all[i].id] && all[j] == m[all[j].id];
    }
    DistinctCard(ids);
    forall id ensures id in Elems(ids) <==> id in Selected(m, q) {
      if id in Selected(m, q) {
        assert m[id] in m.Values;
        var i :| 0 <= i < |all| && all[i] == m[id];
        assert ids[i] == id;
      }
      if id in Elems(ids) {
        var i :| 0 <= i < |ids| && ids[i] == id;
        assert all[i] in m.Values;
      }
    }
    assert Elems(ids) == Selected(m, q).Keys;
  }

  /** GetOrders' `if n > 0 && n < len(orders) { orders = orders[:n] }`. */
  function Truncate(s: seq<Order>, n: int): (r: seq<Order>)
    ensures |r| == (if 0 < n < |s| then n else |s|)
    ensures r == s[..|r|]
  {
    if n > 0 && n < |s| then s[..n] else s
  }

  /** What GetOrders promises: distinct selected stored orders, latest
      first, as many as asked for (all of them when `n` is not positive),
      and no selected order left out that is later than one kept. */
  ghost predicate IsTopN(m: map<Id, Order>, q: Query, k: SortKey, n: int, r: seq<Order>) {
    && NoDup(r)
    && (forall o :: o in r ==> o in m.Values && Selects(q, o))
    && SortedDesc(r, k)
    && |r| == (if 0 < n < |Selected(m, q)| then n else |Selected(m, q)|)
    && (forall o :: o in m.Values && Selects(q, o) && o !in r ==>
          forall i :: 0 <= i < |r| ==> KeyOf(k, o) <= KeyOf(k, r[i]))
  }

  /** Truncating a sorted selection keeps the `n` latest selected orders. */
  lemma TruncateTopN(m: map<Id, Order>, q: Query, k: SortKey, n: int, all: seq<Order>)
    requires KeysMatchIds(m) && IsSortedSelection(m, q, k, all)
    ensures IsTopN(m, q, k, n, Truncate(all, n))
    ensures n <= 0 || n >= |Selected(m, q)| ==> forall o :: o in m.Values && Selects(q, o) ==> o in Truncate(all, n)
  {
    SelectionLength(m, q, k, all);
    var r := Truncate(all, n);
    forall o | o in m.Values && Selects(q, o) && o !in r
      ensures forall i :: 0 <= i < |r| ==> KeyOf(k, o) <= KeyOf(k, r[i])
    {
      var j :| 0 <= j < |all| && all[j] == o;
      assert j >= |r|;
    }
  }

  function Min(a: int, b: int): int {
    if a <= b then a else b
  }

  /** GetReturns' paging of the sorted returns: page 0 of nothing is empty;
      a page starting at or past the end is refused; otherwise the slice
      [pageNum*count, min((pageNum+1)*count, len)). */
  function Page(s: seq<Order>, count: int, pageNum: int, d: Dialect): (r: Result<seq<Order>>)
    requires count >= 0 && pageNum >= 0
    ensures r.Err? <==> (|s| > 0 || pageNum != 0) && pageNum * count >= |s|
    ensures r.Err? ==> r.error == Invalid(d, "page number is too large")
    ensures r.Ok? ==> |r.value| <= count
    ensures r.Ok? && |s| > 0 ==> r.value == s[pageNum * count .. Min((pageNum + 1) * count, |s|)]
  {
    if |s| == 0 && pageNum == 0 then Ok(s)
    else if pageNum * count >= |s| then Err(Invalid(d, "page number is too large"))
    else if (pageNum + 1) * count > |s| then Ok(s[pageNum * count..])
    else Ok(s[pageNum * count .. (pageNum + 1) * count])
  }

  /** A page of a sorted selection: refused exactly when it starts past
      the selected orders, otherwise at most `count` of them, still
      sorted. */
  lemma PageOfSelection(m: map<Id, Order>, q: Query, k: SortKey, all: seq<Order>, count: int, pageNum: int, d: Dialect)
    requires KeysMatchIds(m) && IsSortedSelection(m, q, k, all)
    requires count >= 0 && pageNum >= 0
    ensures var r := Page(all, count, pageNum, d);
      && (r.Err? <==> (|Selected(m, q)| > 0 || pageNum != 0) && pageNum * count >= |Selected(m, q)|)
      && (r.Ok? ==> |r.value| <= count && SortedDesc(r.value, k))
      && (r.Ok? ==> forall o :: o in r.value ==> o in m.Values && Selects(q, o))
  {
    SelectionLength(m, q, k, all);
    var r := Page(all, count, pageNum, d);
    if r.Ok? && |all| > 0 {
      SliceOfSorted(all, pageNum * count, Min((pageNum + 1) * count, |all|), k);
    }
  }

  /** A slice of a sorted sequence is sorted and drawn from it. */
  lemma SliceOfSorted(s: seq<Order>, lo: int, hi: int, k: SortKey)
    requires 0 <= lo <= hi <= |s| && SortedDesc(s, k)
    ensures SortedDesc(s[lo..hi], k)
    ensures forall o :: o in s[lo..hi] ==> o in s
  {
    var t := s[lo..hi];
    assert forall i :: 0 <= i < |t| ==> t[i] == s[lo + i];
    forall i, j | 0 <= i < j < |t| ensures KeyOf(k, t[i]) >= KeyOf(k, t[j]) {
      assert KeyOf(k, s[lo + i]) >= KeyOf(k, s[lo + j]);
    }
  }

  /** The pages before page `p`, joined. */
  function PagesBefore(s: seq<Order>, count: int, p: nat, d: Dialect): seq<Order>
    requires count > 0
  {
    if p == 0 then []
    else
      var prev := PagesBefore(s, count, p - 1, d);
      var page := Page(s, count, p - 1, d);
      if page.Ok? then prev + page.value else prev
  }

  /** Paging loses nothing and repeats nothing: the pages in order, up to the
      first refused one, spell out the whole sorted list. */
  lemma {:induction false} PagesSpellList(s: seq<Order>, count: int, p: nat, d: Dialect)
    requires count > 0
    ensures PagesBefore(s, count, p, d) == s[..Min(p * count, |s|)]
  {
    if p > 0 {
      PagesSpellList(s, count, p - 1, d);
      var page := Page(s, count, p - 1, d);
      if (p - 1) * count < |s| {
        assert page.Ok?;
        assert s[..Min(p * count, |s|)] == s[..(p - 1) * count] + s[(p - 1) * count .. Min(p * count, |s|)];
      } else {
        assert Min(p * count, |s|) == |s| == Min((p - 1) * count, |s|);
      }
    }
  }

  /** The worked example: three returns, two per page. */
  lemma ThreeReturnsTwoPerPage(a: Order, b: Order, c: Order, d: Dialect)
    ensures Page([a, b, c], 2, 0, d) == Ok([a, b])
    ensures Page([a, b, c], 2, 1, d) == Ok([c])
    ensures Page([a, b, c], 2, 2, d) == Err(Invalid(d, "page number is too large"))
  {
    assert [a, b, c][0..2] == [a, b];
    assert [a, b, c][2..] == [c];
  }

  /** Where GetReturns cuts its sorted list: the whole (empty) list, a
      refusal, or the slice [lo, hi). */
  datatype PageCut = WholeList | TooLarge | Slice(lo: int, hi: int)

  /** GetReturns' paging as the Go code computes it: `pageNum*count` and
      `(pageNum+1)*count` are 64-bit `int` products, which wrap around. */
  function PageCutAsWritten(len: nat, count: int64, pageNum: int64): (c: PageCut)
    ensures c.Slice? ==> c.lo < len
  {
    var start := Wrap64(pageNum as int * count as int);
    var next := Wrap64(Wrap64(pageNum as int + 1) as int * count as int);
    if len == 0 && pageNum == 0 then WholeList
    else if start as int >= len then TooLarge
    else if next as int > len then Slice(start as int, len)
    else Slice(start as int, next as int)
  }

  /** One returned order, two per page, page 2^62: both products wrap to
      negative numbers, the "too large" guard lets the request through and
      the slice starts at a negative index, on which Go panics. Both
      arguments pass the facade's checks (count > 0, pageNum >= 0). */
  lemma PagingOverflows()
    ensures var c := PageCutAsWritten(1, 2, 0x4000_0000_0000_0000);
      c.Slice? && c.lo < 0
  {
    assert Wrap64(0x4000_0000_0000_0000 * 2) as int == MinInt64;
  }

  /** As long as `(pageNum+1)*count` fits in 64 bits the Go code cuts
      exactly where Page does, within the list's bounds. */
  lemma PageCutAgrees(s: seq<Order>, count: int64, pageNum: int64, d: Dialect)
    requires count >= 0 && pageNum >= 0
    requires (pageNum as int + 1) * count as int <= MaxInt64
    ensures var c := PageCutAsWritten(|s|, count, pageNum);
      && (c.TooLarge? <==> Page(s, count as int, pageNum as int, d).Err?)
      && (c.Slice? ==> 0 <= c.lo <= c.hi <= |s| && Page(s, count as int, pageNum as int, d) == Ok(s[c.lo..c.hi]))
      && (c.WholeList? ==> Page(s, count as int, pageNum as int, d) == Ok(s))
  {
    var p, n := pageNum as int, count as int;
    var start, next := p * n, (p + 1) * n;
    assert next == start + n;
    assert start >= 0 by {
      if p > 0 && n > 0 {
        assert p * n >= n;
      }
    }
    assert Wrap64(start) as int == start;
    assert Wrap64(Wrap64(p + 1) as int * n) as int == next by {
      if n > 0 {
        assert p + 1 <= next;
        assert Wrap64(p + 1) as int == p + 1;
      }
    }
  }
}
