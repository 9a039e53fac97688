/** Facts about sequences used as Solidity arrays: duplicate-freedom, the
    elements as a set, and removal by swapping with the last element. */
module Sequences {

  ghost predicate NoDup<T>(s: seq<T>) {
    forall i, j :: 0 <= i < j < |s| ==> s[i] != s[j]
  }

  function Elems<T(==)>(s: seq<T>): set<T> {
    set x | x in s
  }

  function Map<T, U>(f: T -> U, s: seq<T>): (r: seq<U>)
    ensures |r| == |s| && forall i :: 0 <= i < |s| ==> r[i] == f(s[i])
  {
    seq(|s|, i requires 0 <= i < |s| => f(s[i]))
  }

  /** The position of the first occurrence of `x`. */
  function IndexOf<T(==)>(s: seq<T>, x: T): (i: nat)
    requires x in s
    ensures i < |s| && s[i] == x && x !in s[..i]
  {
    if s[0] == x then 0 else
      assert s == [s[0]] + s[1..];
      var i := IndexOf(s[1..], x);
      assert s[..i + 1] == [s[0]] + s[1..][..i];
      i + 1
  }

  /** Removes the first occurrence of `x`: the last element takes its place. */
  function SwapRemove<T(==)>(s: seq<T>, x: T): (r: seq<T>)
    ensures |r| == if x in s then |s| - 1 else |s|
  {
    if x in s then s[IndexOf(s, x) := s[|s| - 1]][..|s| - 1] else s
  }

  /** `r` is `s` without the first `x`, and with the last element where that was. */
  ghost predicate GapFilled<T>(s: seq<T>, x: T, r: seq<T>) {
    if x !in s then r == s
    else
      && |r| == |s| - 1
      && exists i :: 0 <= i < |s| && s[i] == x && x !in s[..i]
           && forall k :: 0 <= k < |r| ==> r[k] == if k == i then s[|s| - 1] else s[k]
  }

  lemma SwapRemoveFillsGap<T>(s: seq<T>, x: T)
    ensures GapFilled(s, x, SwapRemove(s, x))
  {
    if x in s {
      var i := IndexOf(s, x);
      assert forall k :: 0 <= k < |s| - 1 ==> SwapRemove(s, x)[k] == if k == i then s[|s| - 1] else s[k];
    }
  }

  lemma FirstIndex<T>(s: seq<T>, x: T, i: nat)
    requires i < |s| && s[i] == x && forall k :: 0 <= k < i ==> s[k] != x
    ensures IndexOf(s, x) == i
  {
    var j := IndexOf(s, x);
    assert forall k :: 0 <= k < j ==> s[..j][k] == s[k];
  }

  lemma CancelOne<T>(r: multiset<T>, s: multiset<T>, y: T)
    requires r + multiset{y} == s + multiset{y}
    ensures r == s
  {
    forall z ensures r[z] == s[z] {
      assert (r + multiset{y})[z] == (s + multiset{y})[z];
    }
  }

  lemma UpdateCounts<T>(s: seq<T>, i: nat, y: T)
    requires i < |s|
    ensures multiset(s[i := y]) == multiset(s) - multiset{s[i]} + multiset{y}
  {
  }

  lemma SnocCounts<T>(s: seq<T>, y: T)
    ensures multiset(s + [y]) == multiset(s) + multiset{y}
  {
  }

  lemma SwapRemoveCounts<T>(s: seq<T>, x: T)
    ensures multiset(SwapRemove(s, x)) == multiset(s) - multiset{x}
  {
    if x in s {
      var i, n := IndexOf(s, x), |s| - 1;
      var t, r, last := s[i := s[n]], SwapRemove(s, x), s[n];
      UpdateCounts(s, i, last);
      assert t == r + [last];
      SnocCounts(r, last);
      CancelOne(multiset(r), multiset(s) - multiset{x}, last);
    }
  }

  lemma ShortLists<T>(a: T, b: T, c: T, d: T)
    ensures [] + [a] == [a] && [a] + [b] == [a, b]
    ensures [a, b] + [c] == [a, b, c] && [a, b, c] + [d] == [a, b, c, d]
  {
  }

  lemma ConcatAssoc<T>(a: seq<T>, b: seq<T>, c: seq<T>)
    ensures a + b + c == a + (b + c)
  {
  }

  lemma TakeSnoc<T>(s: seq<T>, k: nat)
    requires 0 < k <= |s|
    ensures s[..k] == s[..k - 1] + [s[k - 1]] && s[k - 1] in s
  {
  }

  lemma SplitLast<T>(s: seq<T>)
    requires s != []
    ensures s == s[..|s| - 1] + [s[|s| - 1]]
    ensures multiset(s) == multiset(s[..|s| - 1]) + multiset{s[|s| - 1]}
  {
    var init, last := s[..|s| - 1], s[|s| - 1];
    assert s == init + [last];
    assert multiset(init + [last]) == multiset(init) + multiset([last]);
  }

  lemma SwapRemoveElems<T>(s: seq<T>, x: T)
    requires NoDup(s)
    ensures NoDup(SwapRemove(s, x))
    ensures Elems(SwapRemove(s, x)) == Elems(s) - {x}
  {
    var r := SwapRemove(s, x);
    if x in s {
      var i, n := IndexOf(s, x), |s| - 1;
      forall y ensures y in r <==> y in s && y != x {
        if y in s && y != x {
          var k :| 0 <= k < |s| && s[k] == y;
          assert k < n ==> r[k] == y;
          assert k == n ==> r[i] == y;
        }
      }
    }
  }

  lemma SwapRemoveIn<T>(s: seq<T>, x: T)
    requires NoDup(s)
    ensures forall y :: y in SwapRemove(s, x) <==> y in s && y != x
  {
    SwapRemoveElems(s, x);
    forall y ensures y in SwapRemove(s, x) <==> y in s && y != x {
      assert y in Elems(SwapRemove(s, x)) <==> y in Elems(s) - {x};
    }
  }

  lemma SwapRemoveLast<T>(s: seq<T>, x: T)
    requires x !in s
    ensures SwapRemove(s + [x], x) == s
  {
    assert (s + [x])[|s|] == x && (s + [x])[..|s|] == s;
    FirstIndex(s + [x], x, |s|);
  }

  lemma {:induction false} SizeOfElems<T>(s: seq<T>)
    requires NoDup(s)
    ensures |Elems(s)| == |s|
  {
    if s != [] {
      var n := |s| - 1;
      SizeOfElems(s[..n]);
      assert s[n] !in s[..n];
      assert Elems(s) == Elems(s[..n]) + {s[n]};
    }
  }

  lemma ElemsSnoc<T>(s: seq<T>, x: T)
    ensures Elems(s + [x]) == Elems(s) + {x}
    ensures NoDup(s) && x !in s ==> NoDup(s + [x])
  {
    forall y ensures y in s + [x] <==> y in s || y == x {}
  }

  lemma {:induction false} SubsetSize<T>(s: set<T>, t: set<T>)
    requires s <= t
    ensures |s| <= |t|
    ensures |s| == |t| ==> s == t
    ensures |t - s| == |t| - |s|
  {
    assert t == s + (t - s);
    assert |t| == |s| + |t - s|;
  }

  /** Pigeonhole: a duplicate-free sequence of naturals below `n` has at most
      `n` elements. */
  lemma {:induction false} BoundedSize(s: set<int>, n: nat)
    requires forall x :: x in s ==> 0 <= x < n
    ensures |s| <= n
  {
    if n == 0 {
      assert forall x :: x in s ==> x in {};
    } else {
      var t := s - {n - 1};
      BoundedSize(t, n - 1);
      assert s <= t + {n - 1};
      SubsetSize(s, t + {n - 1});
    }
  }

  /** A natural number below `n` that fewer than `n` numbers leave free. */
  lemma {:induction false} Unused(s: set<int>, n: nat) returns (x: nat)
    requires |s| < n
    ensures x < n && x !in s
  {
    if n - 1 in s {
      x := Unused(s - {n - 1}, n - 1);
    } else {
      x := n - 1;
    }
  }

  lemma {:induction false} InSomeOrder<T>(s: set<T>) returns (r: seq<T>)
    ensures NoDup(r) && Elems(r) == s
  {
    if s == {} {
      r := [];
    } else {
      var x :| x in s;
      var rest := InSomeOrder(s - {x});
      r := rest + [x];
      assert x !in Elems(rest);
      ElemsSnoc(rest, x);
    }
  }
}
