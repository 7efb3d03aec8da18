/** What `List` of every repository produces: the values of its map, each
    exactly once, in an order the map iteration chooses. */
module Listing {
  import opened Model

  /** No two positions of `s` hold the same value. */
  predicate NoDup<T(==)>(s: seq<T>) {
    forall i, j :: 0 <= i < j < |s| ==> s[i] != s[j]
  }

  /** `s` lists the values of `m`: `ks` are the keys read, pairwise distinct,
      each position holds the value stored under its key, and every key of
      `m` is read. */
  ghost predicate IsListing<V>(m: map<Id, V>, s: seq<V>, ks: seq<Id>) {
    && |s| == |ks|
    && NoDup(ks)
    && (forall i :: 0 <= i < |ks| ==> ks[i] in m && s[i] == m[ks[i]])
    && (forall k :: k in m ==> k in ks)
  }

  /** The `for _, v := range m { slice = append(slice, v) }` loop. */
  method Values<V(==)>(m: map<Id, V>) returns (s: seq<V>, ghost ks: seq<Id>)
    ensures IsListing(m, s, ks)
    ensures |s| == |m|
    ensures forall v :: v in s <==> v in m.Values
  {
    s, ks := [], [];
    var rest := m.Keys;
    while rest != {}
      invariant rest <= m.Keys
      invariant |s| == |ks| && NoDup(ks)
      invariant forall i :: 0 <= i < |ks| ==> ks[i] in m && ks[i] !in rest && s[i] == m[ks[i]]
      invariant forall k :: k in m ==> k in rest || k in ks
      decreases rest
    {
      var k :| k in rest;
      s, ks := s + [m[k]], ks + [k];
      rest := rest - {k};
    }
    ListingLength(m, s, ks);
    forall v ensures v in s <==> v in m.Values {
      ListingMembers(m, s, ks, v);
    }
  }

  /** The keys of `ks` as a set. */
  function Elems(ks: seq<Id>): (r: set<Id>)
    ensures forall k :: k in r <==> k in ks
  {
    if ks == [] then {} else {ks[0]} + Elems(ks[1..])
  }

  lemma {:induction false} DistinctCard(ks: seq<Id>)
    requires NoDup(ks)
    ensures |Elems(ks)| == |ks|
  {
    if ks != [] {
      var t := ks[1..];
      assert NoDup(t);
      DistinctCard(t);
      assert ks[0] !in t by {
        forall j | 0 <= j < |t| ensures t[j] != ks[0] {
          assert t[j] == ks[j + 1];
        }
      }
    }
  }

  /** A listing has exactly as many entries as the map. */
  lemma ListingLength<V>(m: map<Id, V>, s: seq<V>, ks: seq<Id>)
    requires IsListing(m, s, ks)
    ensures |s| == |m|
  {
    DistinctCard(ks);
    assert Elems(ks) == m.Keys;
  }

  /** A listing holds exactly the values of the map. */
  lemma ListingMembers<V>(m: map<Id, V>, s: seq<V>, ks: seq<Id>, v: V)
    requires IsListing(m, s, ks)
    ensures v in s <==> v in m.Values
  {
    if v in s {
      var i :| 0 <= i < |s| && s[i] == v;
      assert m[ks[i]] == v;
    }
    if v in m.Values {
      var k :| k in m && m[k] == v;
      var i :| 0 <= i < |ks| && ks[i] == k;
      assert s[i] == v;
    }
  }

  /** When the map stores every order under its own id, a listing repeats no
      order. */
  lemma ListingNoDup(m: map<Id, Order>, s: seq<Order>, ks: seq<Id>)
    requires IsListing(m, s, ks) && KeysMatchIds(m)
    ensures NoDup(s)
  {
    forall i, j | 0 <= i < j < |s| ensures s[i] != s[j] {
      assert s[i].id == ks[i] && s[j].id == ks[j];
    }
  }

  /** A permutation of a duplicate-free sequence is duplicate-free. */
  lemma {:induction false} NoDupMultiset<T>(s: seq<T>)
    ensures NoDup(s) <==> forall x :: x in multiset(s) ==> multiset(s)[x] == 1
  {
    if s != [] {
      var t := s[1..];
      assert s == [s[0]] + t;
      NoDupMultiset(t);
      assert multiset(s) == multiset{s[0]} + multiset(t);
      if NoDup(s) {
        assert NoDup(t);
        forall j | 0 <= j < |t| ensures t[j] != s[0] {
          assert t[j] == s[j + 1];
        }
      }
      if forall x :: x in multiset(s) ==> multiset(s)[x] == 1 {
        assert multiset(s)[s[0]] == 1;
        assert s[0] !in multiset(t);
        forall x | x in multiset(t) ensures multiset(t)[x] == 1 {
          assert multiset(s)[x] == multiset(t)[x] + (if x == s[0] then 1 else 0);
        }
        forall i, j | 0 <= i < j < |s| ensures s[i] != s[j] {
          if i > 0 {
            assert s[i] == t[i - 1] && s[j] == t[j - 1];
          } else {
            assert s[j] in t;
          }
        }
      }
    }
  }

  lemma PermutationNoDup<T>(a: seq<T>, b: seq<T>)
    requires multiset(a) == multiset(b) && NoDup(a)
    ensures NoDup(b)
  {
    NoDupMultiset(a);
    NoDupMultiset(b);
  }
}
