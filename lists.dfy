/** Sequence operations behind the Python list calls the solver makes
    (`list.remove`, membership tests, filtering while preserving order). */
module Lists {

  /** No element occurs twice. */
  predicate NoDup<T(==)>(s: seq<T>) {
    forall a, b :: 0 <= a < b < |s| ==> s[a] != s[b]
  }

  /** Strictly ascending, hence also duplicate-free. */
  predicate Ascending(s: seq<int>) {
    forall a, b :: 0 <= a < b < |s| ==> s[a] < s[b]
  }

  /** Python's `s.remove(v)`: the first occurrence of `v` is dropped, the
      other elements keep their order. Python raises ValueError when `v` is
      absent; every call in the solver is guarded by `v in s`. */
  function RemoveFirst<T(==)>(s: seq<T>, v: T): seq<T>
    requires v in s
  {
    if s[0] == v then s[1..] else [s[0]] + RemoveFirst(s[1..], v)
  }

  /** `remove` shortens the list by one and takes away one occurrence of `v`
      and nothing else. */
  lemma {:induction false} RemoveFirstCount<T>(s: seq<T>, v: T)
    requires v in s
    ensures |RemoveFirst(s, v)| == |s| - 1
    ensures multiset(RemoveFirst(s, v)) == multiset(s) - multiset{v}
  {
    assert s == [s[0]] + s[1..];
    if s[0] != v {
      RemoveFirstCount(s[1..], v);
    }
  }

  /** Putting at most one element `x`, smaller than all of `s`, in front of
      an ascending `s` keeps it ascending. */
  lemma ConsAscending(head: seq<int>, x: int, s: seq<int>)
    requires head == [] || head == [x]
    requires Ascending(s) && forall k :: 0 <= k < |s| ==> x < s[k]
    ensures Ascending(head + s)
  {
    if head == [] {
      assert head + s == s;
    } else {
      var r := [x] + s;
      forall a, b | 0 <= a < b < |r| ensures r[a] < r[b] {
        assert r[b] == s[b - 1];
        if a > 0 {
          assert r[a] == s[a - 1];
        }
      }
    }
  }


  /** The elements of `s` other than `v`, in their original order. */
  function Without<T(==,!new)>(s: seq<T>, v: T): (r: seq<T>)
    ensures forall x :: x in r <==> x in s && x != v
    ensures |r| <= |s|
  {
    if s == [] then []
    else
      assert s == [s[0]] + s[1..];
      (if s[0] == v then [] else [s[0]]) + Without(s[1..], v)
  }

  /** The elements of `s` that do not occur in `t`, in their original order. */
  function Except<T(==,!new)>(s: seq<T>, t: seq<T>): (r: seq<T>)
    ensures forall x :: x in r <==> x in s && x !in t
    ensures NoDup(s) ==> NoDup(r)
  {
    if s == [] then []
    else
      assert s == [s[0]] + s[1..];
      var rest := Except(s[1..], t);
      if s[0] in t then rest
      else
        assert NoDup(s) ==> s[0] !in s[1..];
        ConsNoDup(s[0], rest);
        [s[0]] + rest
  }

  lemma ConsNoDup<T>(x: T, s: seq<T>)
    ensures NoDup([x] + s) <==> x !in s && NoDup(s)
  {
    var xs := [x] + s;
    if x !in s && NoDup(s) {
      forall a, b | 0 <= a < b < |xs| ensures xs[a] != xs[b] {
        if a == 0 {
          assert xs[b] == s[b - 1];
        } else {
          assert xs[a] == s[a - 1] && xs[b] == s[b - 1];
        }
      }
    }
    if NoDup(xs) {
      forall a, b | 0 <= a < b < |s| ensures s[a] != s[b] {
        assert s[a] == xs[a + 1] && s[b] == xs[b + 1];
      }
      forall k | 0 <= k < |s| ensures s[k] != x {
        assert xs[0] == x && xs[k + 1] == s[k];
      }
    }
  }

  /** Concatenating duplicate-free sequences with no common element gives a
      duplicate-free sequence. */
  lemma AppendNoDup<T>(s: seq<T>, t: seq<T>)
    requires NoDup(s) && NoDup(t)
    requires forall x :: x in s ==> x !in t
    ensures NoDup(s + t)
  {
    var st := s + t;
    forall a, b | 0 <= a < b < |st| ensures st[a] != st[b] {
      if b < |s| {
        assert st[a] == s[a] && st[b] == s[b];
      } else if a >= |s| {
        assert st[a] == t[a - |s|] && st[b] == t[b - |s|];
      } else {
        assert st[a] == s[a] && st[a] in s;
        assert st[b] == t[b - |s|] && st[b] in t;
      }
    }
  }

  lemma {:induction false} WithoutAbsent<T(!new)>(s: seq<T>, v: T)
    requires v !in s
    ensures Without(s, v) == s
  {
    if s != [] {
      assert s[0] != v && v !in s[1..];
      WithoutAbsent(s[1..], v);
      assert s == [s[0]] + s[1..];
    }
  }

  /** On a duplicate-free list, `remove` takes away exactly the value, so it
      agrees with the order-preserving filter. */
  lemma {:induction false} RemoveFirstNoDup<T(!new)>(s: seq<T>, v: T)
    requires v in s && NoDup(s)
    ensures RemoveFirst(s, v) == Without(s, v)
  {
    ConsNoDup(s[0], s[1..]);
    assert s == [s[0]] + s[1..];
    if s[0] == v {
      WithoutAbsent(s[1..], v);
    } else {
      RemoveFirstNoDup(s[1..], v);
    }
  }

  lemma {:induction false} WithoutNoDup<T(!new)>(s: seq<T>, v: T)
    requires NoDup(s)
    ensures NoDup(Without(s, v))
  {
    if s != [] {
      ConsNoDup(s[0], s[1..]);
      assert s == [s[0]] + s[1..];
      WithoutNoDup(s[1..], v);
      ConsNoDup(s[0], Without(s[1..], v));
    }
  }

  /** Filtering keeps every element above a lower bound. */
  lemma {:induction false} WithoutAbove(s: seq<int>, v: int, x: int)
    requires forall k :: 0 <= k < |s| ==> x < s[k]
    ensures forall k :: 0 <= k < |Without(s, v)| ==> x < Without(s, v)[k]
  {
    if s != [] {
      assert forall k :: 0 <= k < |s[1..]| ==> s[1..][k] == s[k + 1];
      WithoutAbove(s[1..], v, x);
      assert Without(s, v) == (if s[0] == v then [] else [s[0]]) + Without(s[1..], v);
    }
  }

  lemma {:induction false} WithoutAscending(s: seq<int>, v: int)
    requires Ascending(s)
    ensures Ascending(Without(s, v))
  {
    if s != [] {
      assert forall k :: 0 <= k < |s[1..]| ==> s[1..][k] == s[k + 1];
      WithoutAscending(s[1..], v);
      WithoutAbove(s[1..], v, s[0]);
      ConsAscending(if s[0] == v then [] else [s[0]], s[0], Without(s[1..], v));
    }
  }


  /** Putting at most one element `x` between `lo` and `hi` in front of `s`
      keeps every element between the bounds. */
  lemma ConsBetween(head: seq<int>, x: int, s: seq<int>, lo: int, hi: int)
    requires head == [] || head == [x]
    requires lo <= x <= hi && forall k :: 0 <= k < |s| ==> lo <= s[k] <= hi
    ensures forall k :: 0 <= k < |head + s| ==> lo <= (head + s)[k] <= hi
  {
    if head == [] {
      assert head + s == s;
    } else {
      var r := [x] + s;
      forall k | 0 <= k < |r| ensures lo <= r[k] <= hi {
        if k > 0 {
          assert r[k] == s[k - 1];
        }
      }
    }
  }


  lemma AppendAssoc<T>(a: seq<T>, b: seq<T>, c: seq<T>)
    ensures a + (b + c) == (a + b) + c
  {
  }

  /** The head and the tail of `a + b` when `a` is not empty. */
  lemma AppendSplit<T>(a: seq<T>, b: seq<T>)
    requires a != []
    ensures (a + b)[0] == a[0] && (a + b)[1..] == a[1..] + b
  {
  }

  /** If `a + b` is `s`, then extending `b` and `s` by the same `t` keeps
      them in step. */
  lemma Extend<T>(a: seq<T>, b: seq<T>, t: seq<T>, s: seq<T>, b': seq<T>, s': seq<T>)
    requires a + b == s && b' == b + t && s' == s + t
    ensures a + b' == s'
  {
    AppendAssoc(a, b, t);
  }

  /** Taking one more element of `s`. */
  lemma TakeStep<T>(s: seq<T>, k: int)
    requires 0 <= k < |s|
    ensures s[..k + 1] == s[..k] + [s[k]]
  {
  }

  /** The first `n` elements of `s` with the one at position `p` left out. */
  function PrefixSkipping<T>(s: seq<T>, p: int, n: int): seq<T>
    requires 0 <= p < |s| && 0 <= n <= |s|
  {
    if n <= p then s[..n] else s[..p] + s[p + 1..n]
  }

  /** The whole of `s` with position `p` left out, element by element. */
  lemma SkipIndexing<T>(s: seq<T>, p: int)
    requires 0 <= p < |s|
    ensures |PrefixSkipping(s, p, |s|)| == |s| - 1
    ensures forall n :: 0 <= n < |s| - 1 ==> PrefixSkipping(s, p, |s|)[n] == s[if n < p then n else n + 1]
  {
  }

  lemma PrefixSkippingStep<T>(s: seq<T>, p: int, n: int)
    requires 0 <= p < |s| && 0 <= n < |s|
    ensures PrefixSkipping(s, p, n + 1) == PrefixSkipping(s, p, n) + (if n == p then [] else [s[n]])
  {
    if n < p {
      assert s[..n + 1] == s[..n] + [s[n]];
    } else if n > p {
      assert s[p + 1..n + 1] == s[p + 1..n] + [s[n]];
    }
  }

  /** The head of an ascending list is its least element and does not occur
      in its tail. */
  lemma AscendingHead(a: seq<int>)
    requires Ascending(a) && a != []
    ensures forall x :: x in a ==> a[0] <= x
    ensures forall x :: x in a[1..] <==> x in a && x != a[0]
  {
    assert a == [a[0]] + a[1..];
    forall x | x in a ensures a[0] <= x {
      var k :| 0 <= k < |a| && a[k] == x;
    }
    forall k | 0 <= k < |a[1..]| ensures a[1..][k] != a[0] {
      assert a[1..][k] == a[k + 1];
    }
  }

  /** A strictly ascending list is determined by its elements. */
  lemma {:induction false} AscendingUnique(a: seq<int>, b: seq<int>)
    requires Ascending(a) && Ascending(b)
    requires forall x :: x in a <==> x in b
    ensures a == b
  {
    assert a != [] ==> a[0] in a;
    assert b != [] ==> b[0] in b;
    if a != [] && b != [] {
      AscendingHead(a);
      AscendingHead(b);
      assert a[0] in b && b[0] in a;
      assert a[0] == b[0];
      AscendingUnique(a[1..], b[1..]);
      assert a == [a[0]] + a[1..] && b == [b[0]] + b[1..];
    }
  }
}
