/** A stable insertion sort driven by a three-way comparison, the way
    `Array.prototype.sort` applies a comparator (stable since ECMAScript 2019). */
module StableSort {

  /** `cmp(a, b) == -cmp(b, a)` for all elements of `dom`. */
  ghost predicate Antisymmetric<T>(cmp: (T, T) -> int, dom: seq<T>) {
    forall a, b | a in dom && b in dom :: cmp(a, b) == -cmp(b, a)
  }

  /** "Compares at most 0" is transitive on the elements of `dom`. */
  ghost predicate Transitive<T>(cmp: (T, T) -> int, dom: seq<T>) {
    forall a, b, c | a in dom && b in dom && c in dom :: cmp(a, b) <= 0 && cmp(b, c) <= 0 ==> cmp(a, c) <= 0
  }

  /** A comparator consistent on `dom`, as the language standard requires for a
      well-defined sort order. */
  ghost predicate Consistent<T>(cmp: (T, T) -> int, dom: seq<T>) {
    Antisymmetric(cmp, dom) && Transitive(cmp, dom)
  }

  ghost predicate Sorted<T>(s: seq<T>, cmp: (T, T) -> int) {
    forall i, j :: 0 <= i < j < |s| ==> cmp(s[i], s[j]) <= 0
  }

  /** The elements of `s` that tie with `k`, in their order in `s`. */
  function Ties<T>(s: seq<T>, k: T, cmp: (T, T) -> int): seq<T> {
    if |s| == 0 then []
    else (if cmp(s[0], k) == 0 then [s[0]] else []) + Ties(s[1..], k, cmp)
  }

  /** Elements that tie keep their relative order from `s` in `r`. */
  ghost predicate Stable<T>(s: seq<T>, r: seq<T>, cmp: (T, T) -> int) {
    forall k | k in s :: Ties(r, k, cmp) == Ties(s, k, cmp)
  }

  /** `x` goes in front of the first element it compares at most 0 with, so
      it stays ahead of everything it ties with. */
  function Insert<T>(x: T, s: seq<T>, cmp: (T, T) -> int): (r: seq<T>)
    ensures multiset(r) == multiset(s) + multiset{x}
    ensures |r| == |s| + 1
    ensures r[0] == x || (|s| > 0 && r[0] == s[0])
  {
    if |s| == 0 then [x]
    else if cmp(x, s[0]) <= 0 then [x] + s
    else
      assert s == [s[0]] + s[1..];
      [s[0]] + Insert(x, s[1..], cmp)
  }

  function Sort<T>(s: seq<T>, cmp: (T, T) -> int): (r: seq<T>)
    ensures multiset(r) == multiset(s)
  {
    if |s| == 0 then []
    else
      assert s == [s[0]] + s[1..];
      Insert(s[0], Sort(s[1..], cmp), cmp)
  }

  /** A comparator that ties everything leaves the order alone. */
  lemma {:induction false} SortAllTies<T>(s: seq<T>, cmp: (T, T) -> int)
    requires forall a, b :: cmp(a, b) == 0
    ensures Sort(s, cmp) == s
  {
    if |s| > 0 {
      SortAllTies(s[1..], cmp);
      assert s == [s[0]] + s[1..];
    }
  }

  lemma InDomain<T>(x: T, s: seq<T>, dom: seq<T>)
    requires x in multiset(s)
    requires forall y | y in s :: y in dom
    ensures x in dom
  {
    assert x in s;
  }

  /** Each element compares at most 0 with its successor. */
  ghost predicate AdjacentSorted<T>(s: seq<T>, cmp: (T, T) -> int) {
    forall i :: 0 < i < |s| ==> cmp(s[i - 1], s[i]) <= 0
  }

  lemma {:induction false} Chain<T>(s: seq<T>, cmp: (T, T) -> int, dom: seq<T>, i: nat, j: nat)
    requires Transitive(cmp, dom) && forall y | y in s :: y in dom
    requires AdjacentSorted(s, cmp)
    requires i < j < |s|
    ensures cmp(s[i], s[j]) <= 0
    decreases j - i
  {
    if i + 1 < j {
      Chain(s, cmp, dom, i, j - 1);
      assert s[i] in s && s[j - 1] in s && s[j] in s;
    }
  }

  /** With a transitive comparator, adjacent order is order. */
  lemma AdjacentIsSorted<T>(s: seq<T>, cmp: (T, T) -> int, dom: seq<T>)
    requires Transitive(cmp, dom) && forall y | y in s :: y in dom
    requires AdjacentSorted(s, cmp)
    ensures Sorted(s, cmp)
  {
    forall i, j | 0 <= i < j < |s|
      ensures cmp(s[i], s[j]) <= 0
    {
      Chain(s, cmp, dom, i, j);
    }
  }

  lemma {:induction false} InsertSorted<T>(x: T, s: seq<T>, cmp: (T, T) -> int, dom: seq<T>)
    requires Antisymmetric(cmp, dom)
    requires x in dom && forall y | y in s :: y in dom
    requires AdjacentSorted(s, cmp)
    ensures AdjacentSorted(Insert(x, s, cmp), cmp)
  {
    if |s| > 0 && cmp(x, s[0]) > 0 {
      assert s[0] in s;
      InsertSorted(x, s[1..], cmp, dom);
      var t := Insert(x, s[1..], cmp);
      assert cmp(s[0], t[0]) <= 0 by {
        if t[0] != x {
          assert t[0] == s[1];
        }
      }
      var r := Insert(x, s, cmp);
      assert r == [s[0]] + t;
      forall i | 0 < i < |r|
        ensures cmp(r[i - 1], r[i]) <= 0
      {
        if i > 1 {
          assert r[i - 1] == t[i - 2] && r[i] == t[i - 1];
        }
      }
    }
  }

  lemma {:induction false} SortSorted<T>(s: seq<T>, cmp: (T, T) -> int, dom: seq<T>)
    requires Antisymmetric(cmp, dom)
    requires forall y | y in s :: y in dom
    ensures AdjacentSorted(Sort(s, cmp), cmp)
  {
    if |s| > 0 {
      SortSorted(s[1..], cmp, dom);
      var t := Sort(s[1..], cmp);
      forall y | y in t
        ensures y in dom
      {
        assert y in multiset(t);
        assert y in multiset(s[1..]);
      }
      assert s[0] in s;
      InsertSorted(s[0], t, cmp, dom);
    }
  }

  lemma TiesAppend<T>(a: seq<T>, b: seq<T>, k: T, cmp: (T, T) -> int)
    ensures Ties(a + b, k, cmp) == Ties(a, k, cmp) + Ties(b, k, cmp)
  {
    if |a| > 0 {
      TiesAppend(a[1..], b, k, cmp);
      assert (a + b)[1..] == a[1..] + b;
    } else {
      assert a + b == b;
    }
  }

  /** Inserting `x` puts it ahead of every element of `s` that ties with the same key. */
  lemma {:induction false} InsertTies<T>(x: T, s: seq<T>, k: T, cmp: (T, T) -> int, dom: seq<T>)
    requires Consistent(cmp, dom)
    requires x in dom && k in dom && forall y | y in s :: y in dom
    ensures Ties(Insert(x, s, cmp), k, cmp) == Ties([x], k, cmp) + Ties(s, k, cmp)
  {
    if |s| == 0 {
    } else if cmp(x, s[0]) <= 0 {
      TiesAppend([x], s, k, cmp);
    } else {
      InsertTies(x, s[1..], k, cmp, dom);
      assert s[0] in s;
      NotBothTie(x, s[0], k, cmp, dom);
      InsertPast(x, s, cmp);
      assert s == [s[0]] + s[1..];
      TiesSwap(s[0], x, Insert(x, s[1..], cmp), s[1..], Insert(x, s, cmp), s, k, cmp);
    }
  }

  /** Two elements that compare unequal cannot both tie with the same key. */
  lemma NotBothTie<T>(x: T, y: T, k: T, cmp: (T, T) -> int, dom: seq<T>)
    requires Consistent(cmp, dom)
    requires x in dom && y in dom && k in dom
    requires cmp(x, y) > 0
    ensures !(cmp(x, k) == 0 && cmp(y, k) == 0)
  {
  }

  /** An element that compares above the head goes after it. */
  lemma InsertPast<T>(x: T, s: seq<T>, cmp: (T, T) -> int)
    requires |s| > 0 && cmp(x, s[0]) > 0
    ensures Insert(x, s, cmp) == [s[0]] + Insert(x, s[1..], cmp)
  {
  }

  /** `u` is `y` in front of a list `t` whose ties are `x`'s followed by
      those of `r`; when `x` and `y` do not both tie with `k`, the ties of `u`
      are `x`'s followed by those of `v`, which is `y` in front of `r`. */
  lemma TiesSwap<T>(y: T, x: T, t: seq<T>, r: seq<T>, u: seq<T>, v: seq<T>, k: T, cmp: (T, T) -> int)
    requires !(cmp(x, k) == 0 && cmp(y, k) == 0)
    requires Ties(t, k, cmp) == Ties([x], k, cmp) + Ties(r, k, cmp)
    requires u == [y] + t && v == [y] + r
    ensures Ties(u, k, cmp) == Ties([x], k, cmp) + Ties(v, k, cmp)
  {
    var hx, hy, rest := Ties([x], k, cmp), Ties([y], k, cmp), Ties(r, k, cmp);
    TiesAppend([y], t, k, cmp);
    TiesAppend([y], r, k, cmp);
    if cmp(x, k) == 0 {
      assert hy == [];
      assert hy + (hx + rest) == hx + rest == hx + (hy + rest);
    } else {
      assert hx == [];
      assert hx + rest == rest && hx + (hy + rest) == hy + rest;
    }
  }

  lemma {:induction false} SortTies<T>(s: seq<T>, k: T, cmp: (T, T) -> int, dom: seq<T>)
    requires Consistent(cmp, dom)
    requires k in dom && forall y | y in s :: y in dom
    ensures Ties(Sort(s, cmp), k, cmp) == Ties(s, k, cmp)
  {
    if |s| > 0 {
      SortTies(s[1..], k, cmp, dom);
      var t := Sort(s[1..], cmp);
      forall y | y in t
        ensures y in dom
      {
        assert y in multiset(t);
        assert y in multiset(s[1..]);
      }
      InsertTies(s[0], t, k, cmp, dom);
      TiesAppend([s[0]], s[1..], k, cmp);
      assert s == [s[0]] + s[1..];
    }
  }

  /** On a list where the comparator is consistent the result is sorted and
      stable; on any list it is a permutation. */
  lemma SortCorrect<T>(s: seq<T>, cmp: (T, T) -> int)
    requires Consistent(cmp, s)
    ensures multiset(Sort(s, cmp)) == multiset(s)
    ensures Sorted(Sort(s, cmp), cmp)
    ensures Stable(s, Sort(s, cmp), cmp)
  {
    SortSorted(s, cmp, s);
    var r := Sort(s, cmp);
    forall y | y in r
      ensures y in s
    {
      assert y in multiset(r);
    }
    AdjacentIsSorted(r, cmp, s);
    forall k | k in s
      ensures Ties(Sort(s, cmp), k, cmp) == Ties(s, k, cmp)
    {
      SortTies(s, k, cmp, s);
    }
  }
}
