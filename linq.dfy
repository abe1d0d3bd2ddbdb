/** The LINQ operators the services apply to their tables: `OrderBy` (a
    stable sort on an integer key), `Where`, `Count`, `FirstOrDefault`,
    `Max`, and the best element of a table (least key, earliest among equal
    keys), which is what "first after ordering" amounts to. */
module Linq {
  import opened Wrappers

  /** Keys never decrease along `s`. */
  ghost predicate SortedBy<T>(s: seq<T>, key: T -> int) {
    forall i, j :: 0 <= i < j < |s| ==> key(s[i]) <= key(s[j])
  }

  /** Places `x` before the first element whose key is not below its own. */
  function Insert<T>(x: T, s: seq<T>, key: T -> int): (r: seq<T>)
    ensures multiset(r) == multiset(s) + multiset{x}
    ensures |r| == |s| + 1 && (r[0] == x || (|s| > 0 && r[0] == s[0]))
  {
    if |s| == 0 then [x]
    else if key(x) <= key(s[0]) then [x] + s
    else
      assert s == [s[0]] + s[1..];
      [s[0]] + Insert(x, s[1..], key)
  }

  /** Inserting into a sorted sequence keeps it sorted. */
  lemma {:induction false} InsertSorted<T>(x: T, s: seq<T>, key: T -> int)
    requires SortedBy(s, key)
    ensures SortedBy(Insert(x, s, key), key)
  {
    if |s| > 0 && key(x) > key(s[0]) {
      var rest := Insert(x, s[1..], key);
      InsertSorted(x, s[1..], key);
      assert key(s[0]) <= key(rest[0]);
      assert Insert(x, s, key) == [s[0]] + rest;
    }
  }

  /** OrderBy(key): an insertion sort that keeps elements with equal keys
      in their original order. */
  function SortBy<T>(s: seq<T>, key: T -> int): (r: seq<T>)
    ensures SortedBy(r, key)
    ensures multiset(r) == multiset(s)
  {
    if |s| == 0 then []
    else
      assert s == [s[0]] + s[1..];
      InsertSorted(s[0], SortBy(s[1..], key), key);
      Insert(s[0], SortBy(s[1..], key), key)
  }

  /** The first element of `s` that satisfies `p`. */
  function FirstWhere<T>(s: seq<T>, p: T -> bool): (r: Option<T>)
    ensures r.Some? ==> r.value in s && p(r.value)
    ensures r.None? ==> forall i :: 0 <= i < |s| ==> !p(s[i])
  {
    if |s| == 0 then None
    else if p(s[0]) then Some(s[0])
    else FirstWhere(s[1..], p)
  }

  /** The position of the element satisfying `p` with the least key; among
      equal keys, the earliest. */
  function BestIndex<T>(s: seq<T>, key: T -> int, p: T -> bool): (r: Option<nat>)
    ensures r.Some? ==> r.value < |s| && p(s[r.value])
    ensures r.Some? ==> forall i :: 0 <= i < |s| && p(s[i]) ==> key(s[r.value]) <= key(s[i])
    ensures r.Some? ==> forall i :: 0 <= i < r.value && p(s[i]) ==> key(s[r.value]) < key(s[i])
    ensures r.None? ==> forall i :: 0 <= i < |s| ==> !p(s[i])
  {
    if |s| == 0 then None
    else
      var rest := BestIndex(s[1..], key, p);
      if p(s[0]) && (rest.None? || key(s[0]) <= key(s[1 + rest.value])) then Some(0)
      else if rest.Some? then Some(1 + rest.value)
      else None
  }

  /** The element at `BestIndex`, if any. */
  function Best<T>(s: seq<T>, key: T -> int, p: T -> bool): (r: Option<T>)
    ensures r.Some? ==> r.value in s && p(r.value)
    ensures r.Some? ==> forall i :: 0 <= i < |s| && p(s[i]) ==> key(r.value) <= key(s[i])
    ensures r.None? ==> forall i :: 0 <= i < |s| ==> !p(s[i])
  {
    match BestIndex(s, key, p)
    case Some(i) => Some(s[i])
    case None => None
  }

  /** How `Best` extends by one element at the front. */
  lemma BestCons<T>(x: T, s: seq<T>, key: T -> int, p: T -> bool)
    ensures Best([x] + s, key, p)
         == if p(x) && (Best(s, key, p).None? || key(x) <= key(Best(s, key, p).value)) then Some(x)
            else Best(s, key, p)
  {
    assert ([x] + s)[1..] == s;
  }

  /** An element that does not qualify has no influence on `Best`,
      wherever it stands. */
  lemma {:induction false} BestSkips<T>(a: seq<T>, x: T, b: seq<T>, key: T -> int, p: T -> bool)
    requires !p(x)
    ensures Best(a + [x] + b, key, p) == Best(a + b, key, p)
  {
    if |a| == 0 {
      assert a + [x] + b == [x] + b && a + b == b;
      BestCons(x, b, key, p);
    } else {
      assert a + [x] + b == [a[0]] + (a[1..] + [x] + b);
      assert a + b == [a[0]] + (a[1..] + b);
      BestSkips(a[1..], x, b, key, p);
      BestCons(a[0], a[1..] + [x] + b, key, p);
      BestCons(a[0], a[1..] + b, key, p);
    }
  }

  /** Inserting into a sorted list: the first hit is `x` exactly when `x`
      qualifies and no earlier-ranked element does with a smaller key. */
  lemma {:induction false} FirstWhereInsert<T>(x: T, s: seq<T>, key: T -> int, p: T -> bool)
    requires SortedBy(s, key)
    ensures FirstWhere(Insert(x, s, key), p)
         == if p(x) && (FirstWhere(s, p).None? || key(x) <= key(FirstWhere(s, p).value)) then Some(x)
            else FirstWhere(s, p)
  {
    if |s| == 0 {
    } else if key(x) <= key(s[0]) {
      assert ([x] + s)[1..] == s;
      var f := FirstWhere(s, p);
      if f.Some? {
        var k :| 0 <= k < |s| && s[k] == f.value;
        assert key(s[0]) <= key(s[k]);
      }
    } else {
      assert s == [s[0]] + s[1..];
      var t := s[1..];
      assert SortedBy(t, key) by {
        forall i, j | 0 <= i < j < |t| ensures key(t[i]) <= key(t[j]) {
          assert t[i] == s[i + 1] && t[j] == s[j + 1];
        }
      }
      FirstWhereInsert(x, t, key, p);
      assert ([s[0]] + Insert(x, t, key))[1..] == Insert(x, t, key);
    }
  }

  /** The first qualifying element after a stable sort is the best one of the
      unsorted list: least key, and earliest in the original order on ties. */
  lemma {:induction false} FirstOfSorted<T>(s: seq<T>, key: T -> int, p: T -> bool)
    ensures FirstWhere(SortBy(s, key), p) == Best(s, key, p)
  {
    if |s| == 0 {
    } else {
      assert s == [s[0]] + s[1..];
      FirstOfSorted(s[1..], key, p);
      FirstWhereInsert(s[0], SortBy(s[1..], key), key, p);
      BestCons(s[0], s[1..], key, p);
    }
  }

  /** Sorting an already sorted list leaves it unchanged, so sorting twice
      is the same as sorting once. */
  lemma {:induction false} SortSorted<T>(s: seq<T>, key: T -> int)
    requires SortedBy(s, key)
    ensures SortBy(s, key) == s
  {
    if |s| > 0 {
      var t := s[1..];
      assert SortedBy(t, key) by {
        forall i, j | 0 <= i < j < |t| ensures key(t[i]) <= key(t[j]) {
          assert t[i] == s[i + 1] && t[j] == s[j + 1];
        }
      }
      SortSorted(t, key);
      if |t| > 0 {
        assert key(s[0]) <= key(t[0]);
      }
      assert [s[0]] + t == s;
    }
  }

  /** Sorting is idempotent. */
  lemma SortTwice<T>(s: seq<T>, key: T -> int)
    ensures SortBy(SortBy(s, key), key) == SortBy(s, key)
  {
    SortSorted(SortBy(s, key), key);
  }

  /** The elements of `s` satisfying `p`, in their original order. */
  function Filter<T>(s: seq<T>, p: T -> bool): (r: seq<T>)
    ensures |r| <= |s|
    ensures forall i :: 0 <= i < |r| ==> r[i] in s && p(r[i])
    ensures forall i :: 0 <= i < |s| && p(s[i]) ==> s[i] in r
  {
    if |s| == 0 then []
    else if p(s[0]) then [s[0]] + Filter(s[1..], p)
    else Filter(s[1..], p)
  }

  /** Filtering distributes over concatenation. */
  lemma {:induction false} FilterAppend<T>(a: seq<T>, b: seq<T>, p: T -> bool)
    ensures Filter(a + b, p) == Filter(a, p) + Filter(b, p)
  {
    if |a| == 0 {
      assert a + b == b;
    } else {
      assert (a + b)[1..] == a[1..] + b;
      FilterAppend(a[1..], b, p);
    }
  }

  /** Filtering an already filtered sequence by a weaker condition keeps
      what the stronger one keeps; in particular filtering twice by the same
      condition is filtering once. */
  lemma {:induction false} FilterFilter<T>(s: seq<T>, p: T -> bool, q: T -> bool)
    requires forall i :: 0 <= i < |s| && q(s[i]) ==> p(s[i])
    ensures Filter(Filter(s, p), q) == Filter(s, q)
  {
    if |s| > 0 {
      FilterFilter(s[1..], p, q);
    }
  }

  /** A filter every element passes keeps everything. */
  lemma {:induction false} FilterAll<T>(s: seq<T>, p: T -> bool)
    requires forall i :: 0 <= i < |s| ==> p(s[i])
    ensures Filter(s, p) == s
  {
    if |s| > 0 {
      FilterAll(s[1..], p);
    }
  }

  /** A filter no element passes keeps nothing. */
  lemma {:induction false} FilterNone<T>(s: seq<T>, p: T -> bool)
    requires forall i :: 0 <= i < |s| ==> !p(s[i])
    ensures Filter(s, p) == []
  {
    if |s| > 0 {
      FilterNone(s[1..], p);
    }
  }

  /** Replacing an element the filter drops by another it drops leaves the
      filtered sequence unchanged. */
  lemma {:induction false} FilterUpdate<T>(s: seq<T>, k: nat, v: T, p: T -> bool)
    requires k < |s| && !p(s[k]) && !p(v)
    ensures Filter(s[k := v], p) == Filter(s, p)
  {
    if k > 0 {
      FilterUpdate(s[1..], k - 1, v, p);
      assert s[k := v][1..] == s[1..][k - 1 := v];
    }
  }

  /** Removing an element the filter drops leaves the filtered sequence
      unchanged. */
  lemma {:induction false} FilterRemove<T>(s: seq<T>, k: nat, p: T -> bool)
    requires k < |s| && !p(s[k])
    ensures Filter(s[..k] + s[k + 1..], p) == Filter(s, p)
  {
    if k == 0 {
      assert s[..0] + s[1..] == s[1..];
    } else {
      FilterRemove(s[1..], k - 1, p);
      assert (s[..k] + s[k + 1..])[1..] == s[1..][..k - 1] + s[1..][k..];
      assert (s[..k] + s[k + 1..])[0] == s[0];
    }
  }

  /** How many elements of `s` satisfy `p`. */
  function Count<T>(s: seq<T>, p: T -> bool): (n: nat)
    ensures n <= |s|
    ensures n == |Filter(s, p)|
  {
    if |s| == 0 then 0
    else (if p(s[0]) then 1 else 0) + Count(s[1..], p)
  }

  /** Elements either satisfy `p` or they do not: the two counts add up. */
  lemma {:induction false} CountSplit<T>(s: seq<T>, p: T -> bool, q: T -> bool)
    requires forall i :: 0 <= i < |s| ==> (q(s[i]) <==> !p(s[i]))
    ensures Count(s, p) + Count(s, q) == |s|
  {
    if |s| > 0 {
      CountSplit(s[1..], p, q);
    }
  }

  /** `MaxAsync(key) ?? 0` over the elements satisfying `p`: the largest key,
      or 0 when no element qualifies. */
  function MaxOrZero<T>(s: seq<T>, key: T -> int, p: T -> bool): (m: int)
    ensures forall i :: 0 <= i < |s| && p(s[i]) ==> key(s[i]) <= m
    ensures (exists i :: 0 <= i < |s| && p(s[i])) ==> exists i :: 0 <= i < |s| && p(s[i]) && key(s[i]) == m
    ensures (forall i :: 0 <= i < |s| ==> !p(s[i])) ==> m == 0
  {
    match BestIndex(s, x => -key(x), p)
    case Some(i) => key(s[i])
    case None => 0
  }
}
