/** Stable sorting by a strict weak order, as Go's `sort` package does it.  `less` is any strict
    weak order; where it tells all elements apart, the sorted sequence is unique. */
module Sorting {
  ghost predicate StrictWeakOrder<T(!new)>(less: (T, T) -> bool) {
    && (forall x: T :: !less(x, x))
    && (forall x: T, y: T, z: T :: less(x, y) && less(y, z) ==> less(x, z))
    && (forall x: T, y: T, z: T :: less(x, z) ==> less(x, y) || less(y, z))
  }

  ghost predicate Sorted<T>(less: (T, T) -> bool, s: seq<T>) {
    forall i, j :: 0 <= i < j < |s| ==> !less(s[j], s[i])
  }

  /** `less` orders any two different elements of `s`. */
  ghost predicate Separates<T>(less: (T, T) -> bool, s: seq<T>) {
    forall i, j :: 0 <= i < |s| && 0 <= j < |s| && s[i] != s[j] ==> less(s[i], s[j]) || less(s[j], s[i])
  }

  function Insert<T>(less: (T, T) -> bool, x: T, s: seq<T>): seq<T> {
    if s == [] || !less(s[0], x) then [x] + s else [s[0]] + Insert(less, x, s[1..])
  }

  function Sort<T>(less: (T, T) -> bool, s: seq<T>): seq<T> {
    if s == [] then [] else Insert(less, s[0], Sort(less, s[1..]))
  }

  lemma InsertPermutes<T>(less: (T, T) -> bool, x: T, s: seq<T>)
    ensures multiset(Insert(less, x, s)) == multiset([x] + s)
  {
    if s != [] && less(s[0], x) {
      InsertPermutes(less, x, s[1..]);
      assert s == [s[0]] + s[1..];
    }
  }

  lemma {:induction false} SortPermutes<T>(less: (T, T) -> bool, s: seq<T>)
    ensures multiset(Sort(less, s)) == multiset(s)
    ensures |Sort(less, s)| == |s|
  {
    if s != [] {
      SortPermutes(less, s[1..]);
      InsertPermutes(less, s[0], Sort(less, s[1..]));
      assert s == [s[0]] + s[1..];
      assert |multiset(Sort(less, s))| == |multiset(s)|;
    }
  }

  lemma SortMembers<T>(less: (T, T) -> bool, s: seq<T>)
    ensures forall x :: x in s <==> x in Sort(less, s)
  {
    SortPermutes(less, s);
    assert forall x :: x in s <==> x in multiset(s);
    assert forall x :: x in Sort(less, s) <==> x in multiset(Sort(less, s));
  }

  lemma InsertSorted<T(!new)>(less: (T, T) -> bool, x: T, s: seq<T>)
    requires StrictWeakOrder(less) && Sorted(less, s)
    ensures Sorted(less, Insert(less, x, s))
  {
    var r := Insert(less, x, s);
    if s == [] {
    } else if !less(s[0], x) {
      forall j | 0 < j < |r|
        ensures !less(r[j], x)
      {
        assert r[j] == s[j - 1];
        if j > 1 {
          assert !less(s[j - 1], s[0]);
        }
      }
    } else {
      InsertSorted(less, x, s[1..]);
      var t := Insert(less, x, s[1..]);
      InsertPermutes(less, x, s[1..]);
      forall j | 0 <= j < |t|
        ensures !less(t[j], s[0])
      {
        assert t[j] in multiset(t);
        if t[j] != x {
          assert t[j] in multiset([x] + s[1..]);
          assert t[j] in ([x] + s[1..]);
          assert t[j] in s[1..];
        }
      }
    }
  }

  lemma SortSorted<T(!new)>(less: (T, T) -> bool, s: seq<T>)
    requires StrictWeakOrder(less)
    ensures Sorted(less, Sort(less, s))
  {
    if s != [] {
      SortSorted(less, s[1..]);
      InsertSorted(less, s[0], Sort(less, s[1..]));
    }
  }

  lemma SameLeast<T(!new)>(less: (T, T) -> bool, a: seq<T>, b: seq<T>)
    requires StrictWeakOrder(less)
    requires Sorted(less, a) && Sorted(less, b)
    requires multiset(a) == multiset(b) && a != [] && b != []
    requires Separates(less, a)
    ensures a[0] == b[0]
  {
    assert a[0] in multiset(b) && b[0] in multiset(a);
    var i :| 0 <= i < |b| && b[i] == a[0];
    var j :| 0 <= j < |a| && a[j] == b[0];
    assert !less(b[i], b[0]);
    assert !less(a[j], a[0]);
  }

  lemma TailSorted<T>(less: (T, T) -> bool, s: seq<T>)
    requires s != [] && Sorted(less, s)
    ensures Sorted(less, s[1..])
  {
    forall i, j | 0 <= i < j < |s[1..]|
      ensures !less(s[1..][j], s[1..][i])
    {
      assert !less(s[j + 1], s[i + 1]);
    }
  }

  lemma TailSeparates<T>(less: (T, T) -> bool, s: seq<T>)
    requires s != [] && Separates(less, s)
    ensures Separates(less, s[1..])
  {
    var t := s[1..];
    forall i, j | 0 <= i < |t| && 0 <= j < |t| && t[i] != t[j]
      ensures less(t[i], t[j]) || less(t[j], t[i])
    {
      assert t[i] == s[i + 1] && t[j] == s[j + 1];
    }
  }

  lemma TailMultiset<T>(s: seq<T>)
    requires s != []
    ensures multiset(s[1..]) == multiset(s) - multiset{s[0]}
  {
    assert s == [s[0]] + s[1..];
  }

  /** Two sorted arrangements of the same elements agree when the order tells them apart. */
  lemma {:induction false} SortedUnique<T(!new)>(less: (T, T) -> bool, a: seq<T>, b: seq<T>)
    requires StrictWeakOrder(less)
    requires Sorted(less, a) && Sorted(less, b)
    requires multiset(a) == multiset(b)
    requires Separates(less, a)
    ensures a == b
    decreases |a|
  {
    assert |multiset(a)| == |a| && |multiset(b)| == |b|;
    if a != [] {
      SameLeast(less, a, b);
      TailSorted(less, a);
      TailSorted(less, b);
      TailSeparates(less, a);
      TailMultiset(a);
      TailMultiset(b);
      SortedUnique(less, a[1..], b[1..]);
      assert a == [a[0]] + a[1..] && b == [b[0]] + b[1..];
    }
  }

  lemma SeparatesMembers<T>(less: (T, T) -> bool, a: seq<T>, s: seq<T>)
    requires Separates(less, a) && forall x :: x in s ==> x in a
    ensures Separates(less, s)
  {
    forall i, j | 0 <= i < |s| && 0 <= j < |s| && s[i] != s[j]
      ensures less(s[i], s[j]) || less(s[j], s[i])
    {
      assert s[i] in a && s[j] in a;
    }
  }

  /** Sorting forgets the order of arrival when the order tells all elements apart. */
  lemma SortForgetsArrival<T(!new)>(less: (T, T) -> bool, a: seq<T>, b: seq<T>)
    requires StrictWeakOrder(less)
    requires multiset(a) == multiset(b)
    requires Separates(less, a)
    ensures Sort(less, a) == Sort(less, b)
  {
    SortPermutes(less, a);
    SortPermutes(less, b);
    SortSorted(less, a);
    SortSorted(less, b);
    SortMembers(less, a);
    hide Sort, Sorted, StrictWeakOrder;
    SeparatesMembers(less, a, Sort(less, a));
    hide Separates;
    SortedUnique(less, Sort(less, a), Sort(less, b));
  }

  /** A sequence that is sorted already is left alone. */
  lemma SortOfSorted<T(!new)>(less: (T, T) -> bool, s: seq<T>)
    requires Sorted(less, s)
    ensures Sort(less, s) == s
  {
    if s != [] {
      SortOfSorted(less, s[1..]);
    }
  }

  /** The elements of `s` that the order does not tell apart from `z`, as they come. */
  function Peers<T>(less: (T, T) -> bool, z: T, s: seq<T>): seq<T> {
    if s == [] then []
    else (if !less(s[0], z) && !less(z, s[0]) then [s[0]] else []) + Peers(less, z, s[1..])
  }

  lemma {:induction false} InsertPeers<T(!new)>(less: (T, T) -> bool, x: T, s: seq<T>, z: T)
    requires StrictWeakOrder(less)
    ensures Peers(less, z, Insert(less, x, s)) == Peers(less, z, [x] + s)
    decreases |s|
  {
    if s != [] && less(s[0], x) {
      InsertPeers(less, x, s[1..], z);
      var r := Insert(less, x, s);
      assert r[1..] == Insert(less, x, s[1..]);
      assert ([x] + s)[1..] == s && ([x] + s[1..])[1..] == s[1..];
    }
  }

  /** Sorting is stable: elements that the order does not tell apart keep their relative order. */
  lemma {:induction false} SortStable<T(!new)>(less: (T, T) -> bool, s: seq<T>, z: T)
    requires StrictWeakOrder(less)
    ensures Peers(less, z, Sort(less, s)) == Peers(less, z, s)
    decreases |s|
  {
    if s != [] {
      SortStable(less, s[1..], z);
      var t := Sort(less, s[1..]);
      InsertPeers(less, s[0], t, z);
      assert ([s[0]] + t)[1..] == t;
    }
  }

  /** Whatever element is asked for, both sequences have the same peers of it in the same order. */
  ghost predicate SamePeers<T(!new)>(less: (T, T) -> bool, a: seq<T>, b: seq<T>) {
    forall z :: Peers(less, z, a) == Peers(less, z, b)
  }

  lemma {:induction false} PeerFound<T(!new)>(less: (T, T) -> bool, z: T, s: seq<T>)
    requires StrictWeakOrder(less) && Sorted(less, s) && Peers(less, z, s) != []
    ensures s != [] && !less(z, s[0])
    decreases |s|
  {
    if less(s[0], z) || less(z, s[0]) {
      TailSorted(less, s);
      PeerFound(less, z, s[1..]);
      assert !less(s[1], s[0]);
    }
  }

  lemma {:induction false} SameFirst<T(!new)>(less: (T, T) -> bool, a: seq<T>, b: seq<T>)
    requires StrictWeakOrder(less) && Sorted(less, a) && Sorted(less, b) && SamePeers(less, a, b)
    ensures a == [] <==> b == []
    ensures a != [] ==> a[0] == b[0]
  {
    if a != [] {
      assert Peers(less, a[0], a)[0] == a[0];
      PeerFound(less, a[0], b);
    }
    if b != [] {
      assert Peers(less, b[0], b)[0] == b[0];
      PeerFound(less, b[0], a);
    }
    if a != [] {
      assert Peers(less, a[0], b)[0] == b[0];
    }
  }

  /** Two sorted sequences with the same peers everywhere are the same. */
  lemma {:induction false} SortedPeersUnique<T(!new)>(less: (T, T) -> bool, a: seq<T>, b: seq<T>)
    requires StrictWeakOrder(less) && Sorted(less, a) && Sorted(less, b) && SamePeers(less, a, b)
    ensures a == b
    decreases |a|
  {
    SameFirst(less, a, b);
    if a != [] {
      forall z
        ensures Peers(less, z, a[1..]) == Peers(less, z, b[1..])
      {
        var head := if !less(a[0], z) && !less(z, a[0]) then [a[0]] else [];
        assert Peers(less, z, a) == head + Peers(less, z, a[1..]) && Peers(less, z, b) == head + Peers(less, z, b[1..]);
        assert Peers(less, z, a)[|head|..] == Peers(less, z, a[1..]);
        assert Peers(less, z, b)[|head|..] == Peers(less, z, b[1..]);
      }
      TailSorted(less, a);
      TailSorted(less, b);
      SortedPeersUnique(less, a[1..], b[1..]);
      assert a == [a[0]] + a[1..] && b == [b[0]] + b[1..];
    }
  }

  /** Two arrangements sort alike exactly if elements that the order does not tell apart come in the same
      order in both. */
  lemma {:induction false} SortSameExact<T(!new)>(less: (T, T) -> bool, a: seq<T>, b: seq<T>)
    requires StrictWeakOrder(less)
    ensures Sort(less, a) == Sort(less, b) <==> SamePeers(less, a, b)
  {
    forall z
      ensures Peers(less, z, Sort(less, a)) == Peers(less, z, a) && Peers(less, z, Sort(less, b)) == Peers(less, z, b)
    {
      SortStable(less, a, z);
      SortStable(less, b, z);
    }
    SortSorted(less, a);
    SortSorted(less, b);
    hide Sort, Sorted, StrictWeakOrder, Peers;
    if SamePeers(less, a, b) {
      SortedPeersUnique(less, Sort(less, a), Sort(less, b));
    }
  }

  ghost predicate Distinct<T>(s: seq<T>) {
    forall i, j :: 0 <= i < j < |s| ==> s[i] != s[j]
  }

  /** A sequence has no repetition exactly when every element occurs once. */
  lemma {:induction false} DistinctMultiset<T>(s: seq<T>)
    ensures Distinct(s) <==> forall x :: multiset(s)[x] <= 1
    decreases |s|
  {
    if s != [] {
      var t := s[..|s| - 1];
      var last := s[|s| - 1];
      assert s == t + [last];
      DistinctMultiset(t);
      if Distinct(s) {
        assert last !in t;
        assert multiset(t)[last] == 0;
      }
      if forall x :: multiset(s)[x] <= 1 {
        assert forall x :: multiset(t)[x] <= multiset(s)[x];
        assert multiset(s)[last] == multiset(t)[last] + 1;
        assert last !in t;
      }
    }
  }

  lemma {:induction false} SortKeepsDistinct<T>(less: (T, T) -> bool, s: seq<T>)
    requires Distinct(s)
    ensures Distinct(Sort(less, s))
  {
    SortPermutes(less, s);
    DistinctMultiset(s);
    DistinctMultiset(Sort(less, s));
  }
}
