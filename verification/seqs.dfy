/** Sequence helpers shared by the loader and the engine: label uniqueness,
    order-preserving selection, bounded prefixes and sums of keyed values. */
module Seqs {

  /** No label occurs twice. */
  predicate NoDuplicates<T(==)>(xs: seq<T>) {
    forall i, j :: 0 <= i < j < |xs| ==> xs[i] != xs[j]
  }

  /** The elements of `xs` satisfying `p`, in their original order
      (a boolean-mask selection). */
  function Filter<T(!new)>(xs: seq<T>, p: T -> bool): (r: seq<T>)
    ensures |r| <= |xs|
    ensures forall x :: x in r <==> x in xs && p(x)
    ensures forall i :: 0 <= i < |r| ==> p(r[i])
  {
    if |xs| == 0 then []
    else if p(xs[0]) then [xs[0]] + Filter(xs[1..], p)
    else Filter(xs[1..], p)
  }

  /** Selection distributes over concatenation: what is selected from an
      earlier part of the sequence comes first. */
  lemma {:induction false} FilterAppend<T(!new)>(a: seq<T>, b: seq<T>, p: T -> bool)
    ensures Filter(a + b, p) == Filter(a, p) + Filter(b, p)
  {
    if |a| == 0 {
      assert a + b == b;
    } else {
      assert (a + b)[1..] == a[1..] + b;
      FilterAppend(a[1..], b, p);
    }
  }

  /** Selecting from a duplicate-free sequence gives a duplicate-free one. */
  lemma {:induction false} FilterNoDuplicates<T(!new)>(xs: seq<T>, p: T -> bool)
    requires NoDuplicates(xs)
    ensures NoDuplicates(Filter(xs, p))
  {
    if |xs| > 0 {
      assert NoDuplicates(xs[1..]) by {
        forall i, j | 0 <= i < j < |xs[1..]| ensures xs[1..][i] != xs[1..][j] {
          assert xs[1..][i] == xs[i + 1] && xs[1..][j] == xs[j + 1];
        }
      }
      FilterNoDuplicates(xs[1..], p);
      if p(xs[0]) {
        var r := [xs[0]] + Filter(xs[1..], p);
        forall i, j | 0 <= i < j < |r| ensures r[i] != r[j] {
          if i == 0 {
            assert r[j] in Filter(xs[1..], p);
            assert xs[0] !in xs[1..] by {
              forall k | 0 <= k < |xs[1..]| ensures xs[1..][k] != xs[0] {
                assert xs[1..][k] == xs[k + 1];
              }
            }
          }
        }
      }
    }
  }

  /** `x` occurs in `xs` at some position before an occurrence of `y`. */
  predicate Before<T(==)>(xs: seq<T>, x: T, y: T) {
    exists a, b :: 0 <= a < b < |xs| && xs[a] == x && xs[b] == y
  }

  /** Any two elements of `r` occur in `xs` in the same relative order. */
  predicate InOrder<T(==)>(r: seq<T>, xs: seq<T>) {
    forall p, q :: 0 <= p < q < |r| ==> Before(xs, r[p], r[q])
  }

  /** Selection keeps the original order. */
  lemma {:induction false} FilterInOrder<T(!new)>(xs: seq<T>, p: T -> bool)
    ensures InOrder(Filter(xs, p), xs)
  {
    if |xs| > 0 {
      var t := Filter(xs[1..], p);
      FilterInOrder(xs[1..], p);
      assert xs == [xs[0]] + xs[1..];
      if p(xs[0]) {
        InOrderCons(xs[0], t, xs[1..]);
      } else {
        InOrderSkip(xs[0], t, xs[1..]);
      }
    }
  }

  /** Putting an element in front of both sequences keeps the order, when
      the rest is drawn from `ys`. */
  lemma InOrderCons<T>(x: T, t: seq<T>, ys: seq<T>)
    requires InOrder(t, ys)
    requires forall e :: e in t ==> e in ys
    ensures InOrder([x] + t, [x] + ys)
  {
    var r, zs := [x] + t, [x] + ys;
    forall u, v | 0 <= u < v < |r|
      ensures Before(zs, r[u], r[v])
    {
      assert r[v] == t[v - 1];
      if u == 0 {
        assert t[v - 1] in t;
        var k :| 0 <= k < |ys| && ys[k] == t[v - 1];
        assert zs[0] == r[u] && zs[k + 1] == r[v];
      } else {
        assert r[u] == t[u - 1];
        var a, b :| 0 <= a < b < |ys| && ys[a] == t[u - 1] && ys[b] == t[v - 1];
        assert zs[a + 1] == r[u] && zs[b + 1] == r[v];
      }
    }
  }

  /** An element placed in front of `ys` alone does not disturb the order. */
  lemma InOrderSkip<T>(x: T, t: seq<T>, ys: seq<T>)
    requires InOrder(t, ys)
    ensures InOrder(t, [x] + ys)
  {
    var zs := [x] + ys;
    forall u, v | 0 <= u < v < |t|
      ensures Before(zs, t[u], t[v])
    {
      var a, b :| 0 <= a < b < |ys| && ys[a] == t[u] && ys[b] == t[v];
      assert zs[a + 1] == t[u] && zs[b + 1] == t[v];
    }
  }

  /** The first `n` elements, or all of them when there are fewer
      (Python's `xs[:n]`). */
  function Take<T>(xs: seq<T>, n: nat): (r: seq<T>)
    ensures |r| == if |xs| < n then |xs| else n
    ensures forall i :: 0 <= i < |r| ==> r[i] == xs[i]
  {
    if |xs| <= n then xs else xs[..n]
  }

  /** A prefix keeps the order and the uniqueness of what it is cut from. */
  lemma TakeKeepsOrder<T>(r: seq<T>, xs: seq<T>, n: nat)
    requires InOrder(r, xs) && NoDuplicates(r)
    ensures InOrder(Take(r, n), xs) && NoDuplicates(Take(r, n))
  {
  }

  /** The sum of `f` over the labels `ks`, in order. */
  function Sum<K>(ks: seq<K>, f: map<K, real>): real
    requires forall k :: k in ks ==> k in f
  {
    if |ks| == 0 then 0.0 else f[ks[0]] + Sum(ks[1..], f)
  }

  lemma {:induction false} SumAppend<K>(a: seq<K>, b: seq<K>, f: map<K, real>)
    requires forall k :: k in a + b ==> k in f
    ensures Sum(a + b, f) == Sum(a, f) + Sum(b, f)
  {
    if |a| == 0 {
      assert a + b == b;
    } else {
      assert (a + b)[1..] == a[1..] + b;
      SumAppend(a[1..], b, f);
    }
  }

  /** Splitting the labels by a predicate and its negation loses nothing
      and counts nothing twice. */
  lemma {:induction false} SumPartition<K(!new)>(ks: seq<K>, f: map<K, real>, p: K -> bool, q: K -> bool)
    requires forall k :: k in ks ==> k in f
    requires forall k :: q(k) == !p(k)
    ensures Sum(Filter(ks, p), f) + Sum(Filter(ks, q), f) == Sum(ks, f)
  {
    if |ks| > 0 {
      SumPartition(ks[1..], f, p, q);
    }
  }

  /** When `j` occurs once among the labels selected by `p`, their sum is
      `f[j]` plus the sum over the selection that leaves `j` out. */
  lemma {:induction false} SumRemoveOne<K(!new)>(ks: seq<K>, f: map<K, real>, p: K -> bool, q: K -> bool, j: K)
    requires forall k :: k in ks ==> k in f
    requires NoDuplicates(ks)
    requires j in ks && p(j)
    requires forall k :: q(k) == (p(k) && k != j)
    ensures Sum(Filter(ks, p), f) == f[j] + Sum(Filter(ks, q), f)
  {
    assert NoDuplicates(ks[1..]) by {
      forall a, b | 0 <= a < b < |ks[1..]| ensures ks[1..][a] != ks[1..][b] {
        assert ks[1..][a] == ks[a + 1] && ks[1..][b] == ks[b + 1];
      }
    }
    if ks[0] == j {
      assert j !in ks[1..] by {
        forall k | 0 <= k < |ks[1..]| ensures ks[1..][k] != j {
          assert ks[1..][k] == ks[k + 1];
        }
      }
      assert Filter(ks[1..], p) == Filter(ks[1..], q) by {
        FilterAgree(ks[1..], p, q);
      }
    } else {
      SumRemoveOne(ks[1..], f, p, q, j);
    }
  }

  /** Two predicates that agree on every element select the same elements. */
  lemma {:induction false} FilterAgree<T(!new)>(xs: seq<T>, p: T -> bool, q: T -> bool)
    requires forall i :: 0 <= i < |xs| ==> p(xs[i]) == q(xs[i])
    ensures Filter(xs, p) == Filter(xs, q)
  {
    if |xs| > 0 {
      assert p(xs[0]) == q(xs[0]);
      FilterAgree(xs[1..], p, q);
    }
  }

  /** Reporting the first `n` selected elements reports the earliest ones:
      when a later element is reported, every selected element before it
      is reported too. */
  lemma TakeFilterIsEarliest<T(!new)>(xs: seq<T>, p: T -> bool, n: nat, a: int, b: int)
    requires NoDuplicates(xs)
    requires 0 <= a < b < |xs| && p(xs[a])
    requires xs[b] in Take(Filter(xs, p), n)
    ensures xs[a] in Take(Filter(xs, p), n)
  {
    var before, after := xs[..b], xs[b..];
    assert xs == before + after;
    FilterAppend(before, after, p);
    var m := Filter(xs, p);
    var shown := Take(m, n);
    var fb := Filter(before, p);
    assert xs[a] in fb by {
      assert before[a] == xs[a];
    }
    var ia :| 0 <= ia < |fb| && fb[ia] == xs[a];
    var t :| 0 <= t < |shown| && shown[t] == xs[b];
    assert xs[b] !in before by {
      forall k | 0 <= k < |before| ensures before[k] != xs[b] {
        assert before[k] == xs[k];
      }
    }
    assert forall u :: 0 <= u < |fb| ==> m[u] == fb[u] && fb[u] != xs[b];
    assert m[t] == xs[b];
    assert t >= |fb|;
    assert m[ia] == xs[a];
    assert shown[ia] == xs[a];
  }
}
