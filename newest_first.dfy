/** Sorting content newest first, as `lib/content.ts` does with
    `array.sort((a, b) => time(b) - time(a))`. The ECMAScript sort is stable,
    so entries with equal times keep the order in which they were read. The
    key function stands for `new Date(...).getTime()` on the entry's date. */
module NewestFirst {

  /** Keys never increase from one element to the next. */
  ghost predicate NonIncreasing<T>(s: seq<T>, key: T -> int)
  {
    forall i, j :: 0 <= i < j < |s| ==> key(s[i]) >= key(s[j])
  }

  /** The elements of `s` whose key is `k`, in the order of `s`. */
  function WithKey<T>(s: seq<T>, key: T -> int, k: int): seq<T>
  {
    if s == [] then [] else (if key(s[0]) == k then [s[0]] else []) + WithKey(s[1..], key, k)
  }

  /** `r` is `s` reordered newest first, with ties kept in the order of `s`. */
  ghost predicate IsStableNewestFirst<T>(r: seq<T>, s: seq<T>, key: T -> int)
  {
    NonIncreasing(r, key) && forall k :: WithKey(r, key, k) == WithKey(s, key, k)
  }

  /** Places `x`, which comes after every element of `t` in reading order,
      behind every element of `t` whose key is at least its own. */
  function InsertByKey<T>(t: seq<T>, x: T, key: T -> int): seq<T>
  {
    if t == [] || key(t[|t| - 1]) >= key(x) then t + [x]
    else InsertByKey(t[..|t| - 1], x, key) + [t[|t| - 1]]
  }

  /** Stable insertion sort, newest first, taking elements in reading order. */
  function SortNewestFirst<T>(s: seq<T>, key: T -> int): seq<T>
  {
    if s == [] then [] else InsertByKey(SortNewestFirst(s[..|s| - 1], key), s[|s| - 1], key)
  }

  lemma {:induction false} WithKeyAppend<T>(a: seq<T>, b: seq<T>, key: T -> int, k: int)
    ensures WithKey(a + b, key, k) == WithKey(a, key, k) + WithKey(b, key, k)
  {
    if a == [] {
      assert a + b == b;
    } else {
      WithKeyAppend(a[1..], b, key, k);
      var ab := a + b;
      assert ab[0] == a[0];
      assert ab[1..] == a[1..] + b;
      assert WithKey(ab, key, k) == (if key(a[0]) == k then [a[0]] else []) + WithKey(a[1..] + b, key, k);
    }
  }

  lemma {:induction false} WithKeyElements<T>(s: seq<T>, key: T -> int, k: int)
    ensures forall i :: 0 <= i < |WithKey(s, key, k)| ==> key(WithKey(s, key, k)[i]) == k
    ensures |WithKey(s, key, k)| > 0 <==> exists i :: 0 <= i < |s| && key(s[i]) == k
  {
    if s != [] {
      WithKeyElements(s[1..], key, k);
      if key(s[0]) != k {
        forall i | 0 <= i < |s| && key(s[i]) == k
          ensures exists j :: 0 <= j < |s[1..]| && key(s[1..][j]) == k
        {
          assert s[1..][i - 1] == s[i];
        }
      }
    }
  }

  /** Where `InsertByKey` places `x`: behind the last element of `t`, counted
      from the end, whose key is at least `key(x)`. */
  function InsertPos<T>(t: seq<T>, x: T, key: T -> int): (p: nat)
    ensures p <= |t|
  {
    if t == [] || key(t[|t| - 1]) >= key(x) then |t| else InsertPos(t[..|t| - 1], x, key)
  }

  /** `x` lands at `InsertPos`: every element behind it has a smaller key and
      the element just in front of it, if any, a key at least as large. */
  lemma {:induction false} InsertSplit<T>(t: seq<T>, x: T, key: T -> int)
    ensures var p := InsertPos(t, x, key);
      && InsertByKey(t, x, key) == t[..p] + [x] + t[p..]
      && (forall i :: p <= i < |t| ==> key(t[i]) < key(x))
      && (p > 0 ==> key(t[p - 1]) >= key(x))
  {
    if t == [] || key(t[|t| - 1]) >= key(x) {
      assert t[..|t|] == t;
    } else {
      var init, last := t[..|t| - 1], t[|t| - 1];
      InsertSplit(init, x, key);
      var p := InsertPos(init, x, key);
      assert init[..p] == t[..p];
      assert init[p..] + [last] == t[p..];
    }
  }

  /** Inserting `x` puts no element with a smaller key in front of it, and
      none with a larger or equal key behind it. */
  lemma {:induction false} InsertWithKey<T>(t: seq<T>, x: T, key: T -> int, k: int)
    ensures WithKey(InsertByKey(t, x, key), key, k) ==
            WithKey(t, key, k) + (if key(x) == k then [x] else [])
  {
    if t == [] || key(t[|t| - 1]) >= key(x) {
      WithKeyAppend(t, [x], key, k);
    } else {
      var init, last := t[..|t| - 1], t[|t| - 1];
      assert t == init + [last];
      InsertWithKey(init, x, key, k);
      WithKeyAppend(InsertByKey(init, x, key), [last], key, k);
      WithKeyAppend(init, [last], key, k);
    }
  }

  lemma {:induction false} InsertMultiset<T>(t: seq<T>, x: T, key: T -> int)
    ensures multiset(InsertByKey(t, x, key)) == multiset(t) + multiset{x}
    ensures |InsertByKey(t, x, key)| == |t| + 1
  {
    InsertSplit(t, x, key);
    var p := InsertPos(t, x, key);
    assert t == t[..p] + t[p..];
  }

  lemma {:induction false} InsertNonIncreasing<T>(t: seq<T>, x: T, key: T -> int)
    requires NonIncreasing(t, key)
    ensures NonIncreasing(InsertByKey(t, x, key), key)
  {
    InsertSplit(t, x, key);
    var p := InsertPos(t, x, key);
    var u := InsertByKey(t, x, key);
    assert |u| == |t| + 1;
    assert forall i :: 0 <= i < p ==> u[i] == t[i];
    assert u[p] == x;
    assert forall i :: p < i < |u| ==> u[i] == t[i - 1];
    assert forall i :: 0 <= i < p ==> key(u[i]) >= key(x) by {
      forall i | 0 <= i < p
        ensures key(u[i]) >= key(x)
      {
        assert key(t[i]) >= key(t[p - 1]);
      }
    }
    forall i, j | 0 <= i < j < |u|
      ensures key(u[i]) >= key(u[j])
    {
      if j < p {
        assert key(t[i]) >= key(t[j]);
      } else if i > p {
        assert key(t[i - 1]) >= key(t[j - 1]);
      }
    }
  }

  /** The functional sort orders newest first, keeps ties in reading order,
      and so is a permutation of its input. */
  lemma {:induction false} SortIsStableNewestFirst<T>(s: seq<T>, key: T -> int)
    ensures IsStableNewestFirst(SortNewestFirst(s, key), s, key)
    ensures multiset(SortNewestFirst(s, key)) == multiset(s)
    ensures |SortNewestFirst(s, key)| == |s|
  {
    if s != [] {
      var init, last := s[..|s| - 1], s[|s| - 1];
      assert s == init + [last];
      SortIsStableNewestFirst(init, key);
      InsertNonIncreasing(SortNewestFirst(init, key), last, key);
      InsertMultiset(SortNewestFirst(init, key), last, key);
      assert |SortNewestFirst(s, key)| == |SortNewestFirst(init, key)| + 1;
      forall k
        ensures WithKey(SortNewestFirst(s, key), key, k) == WithKey(s, key, k)
      {
        InsertWithKey(SortNewestFirst(init, key), last, key, k);
        WithKeyAppend(init, [last], key, k);
      }
    }
  }

  lemma {:induction false} WithKeyHead<T>(s: seq<T>, key: T -> int)
    ensures s != [] ==> WithKey(s, key, key(s[0])) != [] && WithKey(s, key, key(s[0]))[0] == s[0]
  {
  }

  /** A stable newest-first ordering is unique: any sequence ordered newest
      first that keeps ties in reading order is the one `SortNewestFirst`
      computes, whatever algorithm produced it. */
  lemma {:induction false} StableNewestFirstIsUnique<T>(r: seq<T>, s: seq<T>, key: T -> int)
    requires IsStableNewestFirst(r, s, key)
    ensures r == SortNewestFirst(s, key)
  {
    SortIsStableNewestFirst(s, key);
    SameKeyGroupsSame(r, SortNewestFirst(s, key), key);
  }

  lemma {:induction false} SameKeyGroupsSame<T>(r1: seq<T>, r2: seq<T>, key: T -> int)
    requires NonIncreasing(r1, key) && NonIncreasing(r2, key)
    requires forall k :: WithKey(r1, key, k) == WithKey(r2, key, k)
    ensures r1 == r2
    decreases |r1|
  {
    if r1 == [] || r2 == [] {
      EmptyGroups(r1, r2, key);
    } else {
      SameHead(r1, r2, key);
      SameTailGroups(r1, r2, key);
      SameKeyGroupsSame(r1[1..], r2[1..], key);
      assert r1 == [r1[0]] + r1[1..];
      assert r2 == [r2[0]] + r2[1..];
    }
  }

  lemma {:induction false} EmptyGroups<T>(r1: seq<T>, r2: seq<T>, key: T -> int)
    requires r1 == [] || r2 == []
    requires forall k :: WithKey(r1, key, k) == WithKey(r2, key, k)
    ensures r1 == r2
  {
    WithKeyHead(r1, key);
    WithKeyHead(r2, key);
  }

  /** Two newest-first orderings with the same tie groups start with the same
      element: the first element of the newest group. */
  lemma {:induction false} SameHead<T>(r1: seq<T>, r2: seq<T>, key: T -> int)
    requires r1 != [] && r2 != []
    requires NonIncreasing(r1, key) && NonIncreasing(r2, key)
    requires forall k :: WithKey(r1, key, k) == WithKey(r2, key, k)
    ensures r1[0] == r2[0]
  {
    var k1, k2 := key(r1[0]), key(r2[0]);
    WithKeyHead(r1, key);
    WithKeyHead(r2, key);
    WithKeyElements(r2, key, k1);
    WithKeyElements(r1, key, k2);
    assert k1 == k2;
    assert WithKey(r1, key, k1) == WithKey(r2, key, k1);
  }

  lemma {:induction false} SameTailGroups<T>(r1: seq<T>, r2: seq<T>, key: T -> int)
    requires r1 != [] && r2 != [] && r1[0] == r2[0]
    requires forall k :: WithKey(r1, key, k) == WithKey(r2, key, k)
    ensures forall k :: WithKey(r1[1..], key, k) == WithKey(r2[1..], key, k)
  {
    forall k
      ensures WithKey(r1[1..], key, k) == WithKey(r2[1..], key, k)
    {
      assert WithKey(r1, key, k) == WithKey(r2, key, k);
      if key(r1[0]) == k {
        assert WithKey(r1[1..], key, k) == WithKey(r1, key, k)[1..];
        assert WithKey(r2[1..], key, k) == WithKey(r2, key, k)[1..];
      } else {
        assert WithKey(r1[1..], key, k) == WithKey(r1, key, k);
        assert WithKey(r2[1..], key, k) == WithKey(r2, key, k);
      }
    }
  }

  /** `InsertPos` is the slot behind the last element with a key at least
      `key(x)` when every element after that slot has a smaller key. */
  lemma {:induction false} InsertPosAt<T>(t: seq<T>, x: T, key: T -> int, j: nat)
    requires j <= |t| && (j == 0 || key(t[j - 1]) >= key(x))
    requires forall k :: j <= k < |t| ==> key(t[k]) < key(x)
    ensures InsertPos(t, x, key) == j
    decreases |t|
  {
    if |t| > j {
      InsertPosAt(t[..|t| - 1], x, key, j);
    }
  }

  lemma SortStep<T>(s: seq<T>, i: nat, key: T -> int)
    requires i < |s|
    ensures SortNewestFirst(s[..i + 1], key) == InsertByKey(SortNewestFirst(s[..i], key), s[i], key)
  {
    assert s[..i + 1][..i] == s[..i];
  }

  /** The sort the content layer runs: insertion sort in place on the freshly
      built array. */
  method SortInPlace<T>(a: array<T>, key: T -> int)
    modifies a
    ensures a[..] == SortNewestFirst(old(a[..]), key)
  {
    ghost var s := a[..];
    var i := 0;
    while i < a.Length
      invariant 0 <= i <= a.Length
      invariant a[..i] == SortNewestFirst(s[..i], key)
      invariant a[i..] == s[i..]
    {
      ghost var before := a[..];
      assert before[i] == s[i] by {
        assert before[i..][0] == s[i..][0];
      }
      assert before[i + 1..] == s[i + 1..] by {
        assert before[i + 1..] == before[i..][1..];
      }
      InsertInPlace(a, i, key);
      SortStep(s, i, key);
      i := i + 1;
    }
    assert s[..a.Length] == s;
  }

  /** One insertion step: `a[i]` moves left past every element of `a[..i]`
      with a smaller key (an older date); those shift one slot to the right. */
  method InsertInPlace<T>(a: array<T>, i: nat, key: T -> int)
    requires i < a.Length
    modifies a
    ensures a[..i + 1] == InsertByKey(old(a[..i]), old(a[i]), key)
    ensures a[i + 1..] == old(a[i + 1..])
  {
    var x := a[i];
    ghost var t := a[..i];
    var j := i;
    while j > 0 && key(a[j - 1]) < key(x)
      invariant 0 <= j <= i
      invariant forall k :: 0 <= k < j ==> a[k] == t[k]
      invariant forall k :: j < k <= i ==> a[k] == t[k - 1]
      invariant forall k :: i < k < a.Length ==> a[k] == old(a[k])
      invariant forall k :: j <= k < i ==> key(t[k]) < key(x)
    {
      a[j] := a[j - 1];
      j := j - 1;
    }
    a[j] := x;
    InsertPosAt(t, x, key, j);
    InsertSplit(t, x, key);
    ghost var u := t[..j] + [x] + t[j..];
    forall k | 0 <= k <= i
      ensures a[k] == u[k]
    {
      if k < j {
        assert u[k] == t[k];
      } else if k > j {
        assert u[k] == t[k - 1];
      }
    }
    assert a[..i + 1] == u;
  }
}
