/** Facts about sequences used by the row store (key order) and by the
    catalog (table-name order), and about maps that never share a value. */
module Seqs {

  /** No element occurs twice. */
  predicate NoDup<T(==)>(s: seq<T>) {
    forall i, j | 0 <= i < j < |s| :: s[i] != s[j]
  }

  /** The elements of `s`, in order, leaving out every one that occurs in `drop`. */
  function Without<T(==)>(s: seq<T>, drop: seq<T>): seq<T> {
    if s == [] then []
    else (if s[0] in drop then [] else [s[0]]) + Without(s[1..], drop)
  }

  /** `xs` can be obtained from `ys` by leaving elements out. */
  predicate IsSubsequence<T(==)>(xs: seq<T>, ys: seq<T>)
    decreases |ys|
  {
    if xs == [] then true
    else if ys == [] then false
    else (xs[0] == ys[0] && IsSubsequence(xs[1..], ys[1..])) || IsSubsequence(xs, ys[1..])
  }

  lemma {:induction false} WithoutMembers<T>(s: seq<T>, drop: seq<T>)
    ensures forall x :: x in Without(s, drop) <==> x in s && x !in drop
  {
    if s != [] {
      WithoutMembers(s[1..], drop);
      assert forall x :: x in s <==> x == s[0] || x in s[1..];
    }
  }

  lemma {:induction false} WithoutNoDup<T>(s: seq<T>, drop: seq<T>)
    requires NoDup(s)
    ensures NoDup(Without(s, drop))
  {
    if s != [] {
      WithoutNoDup(s[1..], drop);
      WithoutMembers(s[1..], drop);
      var rest := Without(s[1..], drop);
      if s[0] !in drop {
        assert s[0] !in s[1..];
        assert s[0] !in rest;
        assert Without(s, drop) == [s[0]] + rest;
        forall i, j | 0 <= i < j < |[s[0]] + rest|
          ensures ([s[0]] + rest)[i] != ([s[0]] + rest)[j]
        {
          if i == 0 {
            assert ([s[0]] + rest)[j] == rest[j - 1];
          }
        }
      }
    }
  }

  lemma {:induction false} WithoutNothing<T>(s: seq<T>)
    ensures Without(s, []) == s
  {
    if s != [] {
      WithoutNothing(s[1..]);
    }
  }

  /** Removing the elements of `drop` and then `x` is removing the elements of `drop + [x]`. */
  lemma {:induction false} WithoutStep<T>(s: seq<T>, drop: seq<T>, x: T)
    ensures Without(Without(s, drop), [x]) == Without(s, drop + [x])
  {
    if s != [] {
      WithoutStep(s[1..], drop, x);
      var head := if s[0] in drop then [] else [s[0]];
      assert Without(s, drop) == head + Without(s[1..], drop);
      WithoutAppend(head, Without(s[1..], drop), [x]);
    }
  }

  lemma {:induction false} WithoutAppend<T>(a: seq<T>, b: seq<T>, drop: seq<T>)
    ensures Without(a + b, drop) == Without(a, drop) + Without(b, drop)
  {
    if a != [] {
      assert (a + b)[0] == a[0];
      assert (a + b)[1..] == a[1..] + b;
      WithoutAppend(a[1..], b, drop);
    } else {
      assert a + b == b;
    }
  }

  /** A sequence without repetitions has as many elements as the set of its elements. */
  lemma {:induction false} DistinctCard<T>(s: seq<T>)
    requires NoDup(s)
    ensures |set x | x in s| == |s|
  {
    if s != [] {
      var tail := s[1..];
      assert NoDup(tail) by {
        forall i, j | 0 <= i < j < |tail| ensures tail[i] != tail[j] {
          assert tail[i] == s[i + 1] && tail[j] == s[j + 1];
        }
      }
      DistinctCard(tail);
      assert s[0] !in tail by {
        forall j | 0 <= j < |tail| ensures tail[j] != s[0] {
          assert tail[j] == s[j + 1];
        }
      }
      assert (set x | x in s) == {s[0]} + (set x | x in tail) by {
        assert forall x :: x in s <==> x == s[0] || x in tail;
      }
    }
  }

  /** A prefix of a subsequence of `ys` is again a subsequence of `ys`. */
  lemma {:induction false} PrefixSubsequence<T>(xs: seq<T>, ys: seq<T>, n: nat)
    requires IsSubsequence(xs, ys)
    requires n <= |xs|
    ensures IsSubsequence(xs[..n], ys)
    decreases |ys|
  {
    if n == 0 {
      assert xs[..n] == [];
    } else if xs[0] == ys[0] && IsSubsequence(xs[1..], ys[1..]) {
      PrefixSubsequence(xs[1..], ys[1..], n - 1);
      assert xs[..n][0] == ys[0];
      assert xs[..n][1..] == xs[1..][..n - 1];
    } else {
      PrefixSubsequence(xs, ys[1..], n);
    }
  }

  /** Distinct keys hold distinct values. */
  ghost predicate Injective<K, V>(m: map<K, V>) {
    forall a, b | a in m && b in m && a != b :: m[a] != m[b]
  }

  lemma InjectiveAdd<K, V>(m: map<K, V>, k: K, v: V)
    requires Injective(m) && k !in m
    requires forall a | a in m :: m[a] != v
    ensures Injective(m[k := v])
  {
  }

  lemma InjectiveRemove<K, V>(m: map<K, V>, k: K)
    requires Injective(m)
    ensures Injective(m - {k})
  {
  }

  /** A map that agrees with `before` except at `k`, where it holds `v`, is `before[k := v]`. */
  lemma MapReplaced<K, V>(now: map<K, V>, before: map<K, V>, k: K, v: V)
    requires now.Keys == before.Keys + {k} && now[k] == v
    requires forall n | n in now && n != k :: n in before && now[n] == before[n]
    ensures now == before[k := v]
  {
  }
}
