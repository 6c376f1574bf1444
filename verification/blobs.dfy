/**
 Detection results and their ordering. The detector returns its entries sorted
 ascending by screen y with Python's stable `list.sort`; this module models that
 sort by a stable insertion sort and proves that the ordering it produces is the
 only one that is both sorted and stable, so any stable sort agrees with it.
 */
module Blobs {

  /** One detected badge: absolute screen coordinates, contour area and circularity. */
  datatype Blob = Blob(x: int, y: int, area: real, circularity: real)

  /** An absolute screen position. */
  datatype Point = Point(x: int, y: int)

  predicate SortedByY(s: seq<Blob>) {
    forall i, j :: 0 <= i < j < |s| ==> s[i].y <= s[j].y
  }

  /** The entries of `s` whose screen y is `k`, in their order in `s`. */
  function WithY(s: seq<Blob>, k: int): seq<Blob>
    decreases |s|
  {
    if s == [] then []
    else (if s[0].y == k then [s[0]] else []) + WithY(s[1..], k)
  }

  /** Two lists order every group of equal-y entries the same way. */
  ghost predicate SameTies(a: seq<Blob>, b: seq<Blob>) {
    forall k :: WithY(a, k) == WithY(b, k)
  }

  /** Places `b` in front of the first entry whose y is not smaller than its own. */
  function Insert(b: Blob, t: seq<Blob>): (r: seq<Blob>)
    ensures |r| == |t| + 1
    ensures multiset(r) == multiset(t) + multiset{b}
    decreases |t|
  {
    if t == [] then [b]
    else if b.y <= t[0].y then [b] + t
    else
      assert t == [t[0]] + t[1..];
      [t[0]] + Insert(b, t[1..])
  }

  /** Inserting into a sorted list keeps it sorted. */
  lemma {:induction false} InsertKeepsSorted(b: Blob, t: seq<Blob>)
    requires SortedByY(t)
    ensures SortedByY(Insert(b, t))
    decreases |t|
  {
    if t != [] && b.y > t[0].y {
      var rest := Insert(b, t[1..]);
      InsertKeepsSorted(b, t[1..]);
      forall i | 0 <= i < |rest| ensures t[0].y <= rest[i].y {
        assert rest[i] in multiset(rest);
        assert rest[i] == b || rest[i] in multiset(t[1..]);
      }
      var r := [t[0]] + rest;
      assert r == Insert(b, t);
      forall i, j | 0 <= i < j < |r| ensures r[i].y <= r[j].y {
        if i > 0 {
          assert r[i] == rest[i - 1] && r[j] == rest[j - 1];
        }
      }
    }
  }

  /** The detector's `sort(key=lambda circle: circle[1])`. */
  function SortByY(s: seq<Blob>): (r: seq<Blob>)
    ensures |r| == |s|
    ensures multiset(r) == multiset(s)
    ensures SortedByY(r)
    decreases |s|
  {
    if s == [] then []
    else
      assert s == [s[0]] + s[1..];
      InsertKeepsSorted(s[0], SortByY(s[1..]));
      Insert(s[0], SortByY(s[1..]))
  }

  lemma WithYCons(x: Blob, t: seq<Blob>, k: int)
    ensures WithY([x] + t, k) == (if x.y == k then [x] else []) + WithY(t, k)
  {
    assert ([x] + t)[1..] == t;
  }

  /** Inserting `b` adds it in front of its own group and leaves every group otherwise unchanged. */
  lemma {:induction false} InsertKeepsTies(b: Blob, t: seq<Blob>, k: int)
    ensures WithY(Insert(b, t), k) == (if b.y == k then [b] else []) + WithY(t, k)
    decreases |t|
  {
    if t == [] {
      WithYCons(b, [], k);
    } else if b.y <= t[0].y {
      WithYCons(b, t, k);
    } else {
      InsertKeepsTies(b, t[1..], k);
      InsertPastHead(b, t, k);
    }
  }

  /** The step of `InsertKeepsTies` where `b` moves past the head of `t`. */
  lemma InsertPastHead(b: Blob, t: seq<Blob>, k: int)
    requires t != [] && b.y > t[0].y
    requires WithY(Insert(b, t[1..]), k) == (if b.y == k then [b] else []) + WithY(t[1..], k)
    ensures WithY(Insert(b, t), k) == (if b.y == k then [b] else []) + WithY(t, k)
  {
    var x := t[0];
    var rest := Insert(b, t[1..]);
    assert Insert(b, t) == [x] + rest;
    assert t == [x] + t[1..];
    WithYCons(x, rest, k);
    WithYCons(x, t[1..], k);
    if b.y == k {
      assert x.y != k;
      assert WithY([x] + rest, k) == WithY(rest, k);
      assert WithY(t, k) == WithY(t[1..], k);
    } else {
      assert WithY(rest, k) == WithY(t[1..], k);
    }
  }

  /** The sort is stable: entries with equal y keep their relative order. */
  lemma {:induction false} SortByYIsStable(s: seq<Blob>)
    ensures SameTies(SortByY(s), s)
    decreases |s|
  {
    if s != [] {
      SortByYIsStable(s[1..]);
      forall k ensures WithY(SortByY(s), k) == WithY(s, k) {
        InsertKeepsTies(s[0], SortByY(s[1..]), k);
      }
    }
  }

  lemma {:induction false} HeadGroupNonEmpty(s: seq<Blob>)
    requires s != []
    ensures WithY(s, s[0].y) != []
  {
  }

  /** In a sorted list no entry lies above the first one. */
  lemma {:induction false} NothingAboveHead(s: seq<Blob>, k: int)
    requires SortedByY(s)
    requires s != [] && k < s[0].y
    ensures WithY(s, k) == []
    decreases |s|
  {
    if |s| > 1 {
      NothingAboveHead(s[1..], k);
    }
  }

  /**
   Uniqueness of stable sorting: two lists that are both sorted by y and order
   every group of equal-y entries the same way are equal.
   */
  lemma {:induction false} StableSortIsUnique(a: seq<Blob>, b: seq<Blob>)
    requires SortedByY(a) && SortedByY(b)
    requires SameTies(a, b)
    ensures a == b
    decreases |a|
  {
    if a != [] {
      HeadGroupNonEmpty(a);
    }
    if b != [] {
      HeadGroupNonEmpty(b);
    }
    assert a == [] <==> b == [] by {
      assert WithY(a, 0) == WithY(b, 0);
    }
    if a != [] {
      if a[0].y < b[0].y {
        NothingAboveHead(b, a[0].y);
      }
      if b[0].y < a[0].y {
        NothingAboveHead(a, b[0].y);
      }
      assert a[0].y == b[0].y;
      var k := a[0].y;
      assert WithY(a, k) == [a[0]] + WithY(a[1..], k);
      assert WithY(b, k) == [b[0]] + WithY(b[1..], k);
      assert WithY(a, k)[0] == a[0] && WithY(b, k)[0] == b[0];
      forall k' ensures WithY(a[1..], k') == WithY(b[1..], k') {
        if k' == k {
          assert WithY(a, k)[1..] == WithY(a[1..], k);
          assert WithY(b, k)[1..] == WithY(b[1..], k);
        } else {
          assert WithY(a, k') == WithY(a[1..], k');
          assert WithY(b, k') == WithY(b[1..], k');
        }
      }
      StableSortIsUnique(a[1..], b[1..]);
      assert a == [a[0]] + a[1..];
      assert b == [b[0]] + b[1..];
    }
  }

  /**
   Any list that is sorted by y and keeps the ties of `s` in their order is
   `SortByY(s)`; in particular Python's stable Timsort yields the same list.
   */
  lemma SortByYIsTheStableSort(s: seq<Blob>, r: seq<Blob>)
    requires SortedByY(r) && SameTies(r, s)
    ensures r == SortByY(s)
  {
    SortByYIsStable(s);
    StableSortIsUnique(r, SortByY(s));
  }
}
