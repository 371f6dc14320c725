/**
 * The meaning of the safelist algorithms on plain sequences of values.
 *
 * Each function here follows the order in which the corresponding loop of
 * safelist.hpp visits the list, so that the imperative model can be proved
 * against it one iteration at a time; the lemmas state what the algorithms
 * promise (a sorted permutation, no collapsible neighbours, ...).
 */
module Seqs {

  // ---------------------------------------------------------------------------
  // reverse()

  /** s back to front: the i-th element is the i-th from the end. */
  function Reverse<T>(s: seq<T>): (r: seq<T>)
    ensures |r| == |s|
  {
    seq(|s|, i requires 0 <= i < |s| => s[|s| - 1 - i])
  }

  /** Reversing twice gives the original sequence back. */
  lemma ReverseInvolution<T>(s: seq<T>)
    ensures Reverse(Reverse(s)) == s
  {
    var r := Reverse(Reverse(s));
    assert |r| == |s|;
    forall i | 0 <= i < |s|
      ensures r[i] == s[i]
    {
      assert r[i] == Reverse(s)[|s| - 1 - i];
    }
  }

  /** Reversing a sequence one element longer puts that element in front. */
  lemma ReversePrepend<T>(xs: seq<T>, i: nat)
    requires i < |xs|
    ensures Reverse(xs[..i + 1]) == [xs[i]] + Reverse(xs[..i])
  {
    var r, q := Reverse(xs[..i + 1]), [xs[i]] + Reverse(xs[..i]);
    assert |r| == |q|;
    forall j | 0 <= j < |r|
      ensures r[j] == q[j]
    {
      if j > 0 {
        assert q[j] == Reverse(xs[..i])[j - 1];
      }
    }
  }

  /**
   * s after its first d elements have traded places with its last d, the
   * i-th from the front with the i-th from the back: reverse() after d of
   * its exchanges.
   */
  function SwapEnds<T>(s: seq<T>, d: nat): (r: seq<T>)
    requires 2 * d <= |s|
    ensures |r| == |s|
  {
    Reverse(s[|s| - d..]) + s[d..|s| - d] + Reverse(s[..d])
  }

  /** Within the first and the last d positions SwapEnds reads s back to front; in between it is s. */
  lemma SwapEndsAt<T>(s: seq<T>, d: nat)
    requires 2 * d <= |s|
    ensures forall t :: 0 <= t < |s| ==>
      SwapEnds(s, d)[t] == if t < d || |s| - d <= t then s[|s| - 1 - t] else s[t]
  {
    var w, a, b := SwapEnds(s, d), s[|s| - d..], s[..d];
    forall t | 0 <= t < |s|
      ensures w[t] == if t < d || |s| - d <= t then s[|s| - 1 - t] else s[t]
    {
      if t < d {
        assert w[t] == Reverse(a)[t] == a[d - 1 - t];
      } else if t < |s| - d {
        assert w[t] == s[d..|s| - d][t - d];
      } else {
        assert w[t] == Reverse(b)[t - (|s| - d)] == b[|s| - 1 - t];
      }
    }
  }

  /** One more exchange, of the two elements just inside the ones already exchanged. */
  lemma SwapEndsStep<T>(s: seq<T>, d: nat)
    requires 2 * d + 2 <= |s|
    ensures var w, j := SwapEnds(s, d), |s| - 1 - d;
      w[d := w[j]][j := w[d]] == SwapEnds(s, d + 1)
  {
    var w, j := SwapEnds(s, d), |s| - 1 - d;
    var u, v := w[d := w[j]][j := w[d]], SwapEnds(s, d + 1);
    SwapEndsAt(s, d);
    SwapEndsAt(s, d + 1);
    forall t | 0 <= t < |s|
      ensures u[t] == v[t]
    {
      assert v[t] == if t < d + 1 || |s| - (d + 1) <= t then s[|s| - 1 - t] else s[t];
      if t == d {
        assert u[t] == w[j];
      } else if t == j {
        assert u[t] == w[d];
      } else {
        assert u[t] == w[t];
      }
    }
  }

  /** After size() / 2 exchanges the whole sequence is reversed. */
  lemma SwapEndsAll<T>(s: seq<T>, h: nat)
    requires 2 * h <= |s| <= 2 * h + 1
    ensures SwapEnds(s, h) == Reverse(s)
  {
    var u, v := SwapEnds(s, h), Reverse(s);
    SwapEndsAt(s, h);
    forall t | 0 <= t < |s|
      ensures u[t] == v[t]
    {
      assert t < h || |s| - h <= t || |s| - 1 - t == t;
    }
  }

  /** The prefix one element longer. */
  lemma TakeOneMore<T>(xs: seq<T>, i: nat)
    requires i < |xs|
    ensures xs[..i + 1] == xs[..i] + [xs[i]]
  {
  }

  /** n copies of v. */
  function Copies<T>(n: nat, v: T): (r: seq<T>)
    ensures |r| == n && forall i :: 0 <= i < n ==> r[i] == v
  {
    seq(n, _ => v)
  }

  /** Inserting v at index k of c[..k] + s + c[k..] puts it in front of s. */
  lemma InsertInFront<T>(c: seq<T>, k: nat, s: seq<T>, v: T)
    requires k <= |c|
    ensures var d := c[..k] + s + c[k..];
      d[..k] + [v] + d[k..] == c[..k] + ([v] + s) + c[k..]
  {
    var d := c[..k] + s + c[k..];
    assert d[..k] == c[..k];
    assert d[k..] == s + c[k..];
  }

  /** Inserting v at index k + |s| of c[..k] + s + c[k..] puts it behind s. */
  lemma InsertBehind<T>(c: seq<T>, k: nat, s: seq<T>, v: T)
    requires k <= |c|
    ensures var d := c[..k] + s + c[k..];
      d[..k + |s|] + [v] + d[k + |s|..] == c[..k] + (s + [v]) + c[k..]
  {
    var d := c[..k] + s + c[k..];
    assert d[..k + |s|] == c[..k] + s;
    assert d[k + |s|..] == c[k..];
  }

  /** Inserting w[i + m] behind the run w[i..i + m] that sits at index k of c extends the run by one. */
  lemma MoveBehind<T>(c: seq<T>, k: nat, w: seq<T>, i: nat, m: nat, d: seq<T>, e: seq<T>)
    requires k <= |c| && i + m < |w|
    requires d == c[..k] + w[i..i + m] + c[k..] && e == w[..i] + w[i + m..]
    ensures i < |e| && k + m <= |d|
    ensures d[..k + m] + [e[i]] + d[k + m..] == c[..k] + w[i..i + m + 1] + c[k..]
  {
    assert e[i] == w[i + m];
    InsertBehind(c, k, w[i..i + m], w[i + m]);
    assert w[i..i + m] + [w[i + m]] == w[i..i + m + 1];
  }

  /** Dropping the element at index k of d == c[..k] + c[k + e..] drops one more element of c. */
  lemma DropOneMore<T>(c: seq<T>, k: nat, e: nat, d: seq<T>)
    requires k + e < |c| && d == c[..k] + c[k + e..]
    ensures d[..k] + d[k + 1..] == c[..k] + c[k + e + 1..]
  {
    assert d[..k] == c[..k];
    assert d[k + 1..] == c[k + e + 1..];
  }

  /** d == k + c[m..] read at index |k|: its head is c[m], and it splits there into k, c[m] and c[m + 1..]. */
  lemma SplitAfter<T>(k: seq<T>, c: seq<T>, m: nat, d: seq<T>)
    requires m < |c| && d == k + c[m..]
    ensures |k| < |d| && d[|k|] == c[m] && d[..|k|] == k
    ensures d[..|k|] + d[|k| + 1..] == k + c[m + 1..]
    ensures (k + [c[m]]) + c[m + 1..] == d
  {
    assert d[..|k|] == k;
    assert d[|k| + 1..] == c[m + 1..];
  }

  /** d split at the first element after k: dropping it leaves k + r[1..]. */
  lemma SplitFront<T>(k: seq<T>, r: seq<T>, d: seq<T>)
    requires r != [] && d == k + r
    ensures |k| < |d| && d[|k|] == r[0] && d[..|k|] == k
    ensures d[..|k|] + d[|k| + 1..] == k + r[1..]
    ensures (k + [r[0]]) + r[1..] == d
  {
    assert d[|k| + 1..] == r[1..];
  }

  /** Where the element at index m of xs sits once the element at index k + 1 is dropped. */
  lemma DropShift<T>(xs: seq<T>, k: nat, m: nat)
    requires k + 1 < |xs| && m < |xs| && m != k + 1
    ensures var ys := xs[..k + 1] + xs[k + 2..];
      ys[if m <= k then m else m - 1] == xs[m]
  {
  }

  // ---------------------------------------------------------------------------
  // splice(pos, *this, it)

  /**
   * s with the element at index j taken out and put back immediately before
   * the element that was at index k (k == |s| for the end): what moving one
   * entry of a list in front of another position of the same list does.
   */
  function MoveBefore<T>(s: seq<T>, j: nat, k: nat): seq<T>
    requires j < |s| && k <= |s|
  {
    var r := s[..j] + s[j + 1..];
    var k' := if j < k then k - 1 else k;
    r[..k'] + [s[j]] + r[k'..]
  }

  /** MoveBefore spelled out: the element goes back in at its new index. */
  lemma MoveBeforeSplit<T>(s: seq<T>, j: nat, k: nat)
    requires j < |s| && k <= |s|
    ensures var k' := if j < k then k - 1 else k;
      MoveBefore(s, j, k) == (s[..j] + s[j + 1..])[..k'] + [s[j]] + (s[..j] + s[j + 1..])[k'..]
  {
  }

  /** Moving an element in front of itself or of its successor leaves s as it is. */
  lemma MoveBeforeInPlace<T>(s: seq<T>, j: nat, k: nat)
    requires j < |s| && k <= |s| && (k == j || k == j + 1)
    ensures MoveBefore(s, j, k) == s
  {
    var r := s[..j] + s[j + 1..];
    assert r[..j] == s[..j] && r[j..] == s[j + 1..];
    assert s == s[..j] + [s[j]] + s[j + 1..];
  }

  /** Moving an element keeps every value: the result is a permutation of s. */
  lemma MoveBeforePermutation<T>(s: seq<T>, j: nat, k: nat)
    requires j < |s| && k <= |s|
    ensures multiset(MoveBefore(s, j, k)) == multiset(s)
  {
    var r := s[..j] + s[j + 1..];
    var k' := if j < k then k - 1 else k;
    assert r == r[..k'] + r[k'..];
    assert s == s[..j] + [s[j]] + s[j + 1..];
    calc {
      multiset(MoveBefore(s, j, k));
      multiset(r[..k']) + multiset([s[j]]) + multiset(r[k'..]);
      multiset(r) + multiset([s[j]]);
      multiset(s[..j]) + multiset(s[j + 1..]) + multiset([s[j]]);
      multiset(s);
    }
  }

  // ---------------------------------------------------------------------------
  // remove_if(pred) and remove(value)

  /**
   * What remove_if(pred) keeps of s: the elements pred rejects, in order.
   * Nothing is added, nothing pred accepts is left, and every element pred
   * rejects keeps all of its copies.
   */
  function RemoveIf<T>(s: seq<T>, pred: T -> bool): seq<T>
  {
    if s == [] then []
    else
      var kept := RemoveIf(s[..|s| - 1], pred);
      if pred(s[|s| - 1]) then kept else kept + [s[|s| - 1]]
  }

  /** remove_if adds nothing and leaves nothing that pred accepts. */
  lemma {:induction false} RemoveIfSpec<T>(s: seq<T>, pred: T -> bool)
    ensures multiset(RemoveIf(s, pred)) <= multiset(s)
    ensures forall i :: 0 <= i < |RemoveIf(s, pred)| ==> !pred(RemoveIf(s, pred)[i])
  {
    if s != [] {
      RemoveIfSpec(s[..|s| - 1], pred);
      assert s == s[..|s| - 1] + [s[|s| - 1]];
    }
  }

  /** One more element of s, taken into account by remove_if. */
  lemma RemoveIfStep<T>(s: seq<T>, m: nat, pred: T -> bool)
    requires m < |s|
    ensures RemoveIf(s[..m + 1], pred) ==
      if pred(s[m]) then RemoveIf(s[..m], pred) else RemoveIf(s[..m], pred) + [s[m]]
  {
    assert s[..m + 1][..m] == s[..m];
  }

  /** Every element that pred rejects keeps all of its copies. */
  lemma {:induction false} RemoveIfKeepsRejected<T>(s: seq<T>, pred: T -> bool, x: T)
    requires !pred(x)
    ensures multiset(RemoveIf(s, pred))[x] == multiset(s)[x]
  {
    if s != [] {
      var s' := s[..|s| - 1];
      RemoveIfKeepsRejected(s', pred, x);
      assert s == s' + [s[|s| - 1]];
    }
  }

  /** remove_if works element by element: it distributes over concatenation. */
  lemma {:induction false} RemoveIfAppend<T>(a: seq<T>, b: seq<T>, pred: T -> bool)
    ensures RemoveIf(a + b, pred) == RemoveIf(a, pred) + RemoveIf(b, pred)
    decreases |b|
  {
    if b != [] {
      var b' := b[..|b| - 1];
      assert (a + b)[..|a + b| - 1] == a + b';
      RemoveIfAppend(a, b', pred);
    } else {
      assert a + b == a;
    }
  }

  /** A sequence with nothing to remove is left as it is. */
  lemma {:induction false} RemoveIfNothing<T>(s: seq<T>, pred: T -> bool)
    requires forall i :: 0 <= i < |s| ==> !pred(s[i])
    ensures RemoveIf(s, pred) == s
  {
    if s != [] {
      RemoveIfNothing(s[..|s| - 1], pred);
    }
  }

  /** Removing twice removes nothing more. */
  lemma RemoveIfIdempotent<T>(s: seq<T>, pred: T -> bool)
    ensures RemoveIf(RemoveIf(s, pred), pred) == RemoveIf(s, pred)
  {
    RemoveIfSpec(s, pred);
    RemoveIfNothing(RemoveIf(s, pred), pred);
  }

  // ---------------------------------------------------------------------------
  // unique(pred)

  /**
   * What unique(pred) keeps of s when last is the element kept most
   * recently: scanning left to right, an element is dropped exactly when
   * pred(last element kept so far, element) holds.
   */
  function UniqueFrom<T>(last: T, s: seq<T>, pred: (T, T) -> bool): (r: seq<T>)
    ensures |r| <= |s|
  {
    if s == [] then []
    else if pred(last, s[0]) then UniqueFrom(last, s[1..], pred)
    else [s[0]] + UniqueFrom(s[0], s[1..], pred)
  }

  /** What unique(pred) keeps of s: the first element always, then what UniqueFrom keeps. */
  function Unique<T>(s: seq<T>, pred: (T, T) -> bool): (r: seq<T>)
    ensures |r| <= |s|
  {
    if s == [] then [] else [s[0]] + UniqueFrom(s[0], s[1..], pred)
  }

  /** One more element of s, taken into account by unique after last. */
  lemma UniqueFromStep<T>(last: T, s: seq<T>, m: nat, pred: (T, T) -> bool)
    requires m < |s|
    ensures UniqueFrom(last, s[m..], pred) ==
      if pred(last, s[m]) then UniqueFrom(last, s[m + 1..], pred)
      else [s[m]] + UniqueFrom(s[m], s[m + 1..], pred)
  {
    assert s[m..][1..] == s[m + 1..];
  }

  /** What UniqueFrom keeps comes from s, and no two neighbours it keeps, last included, are collapsible. */
  lemma {:induction false} UniqueFromSpec<T>(last: T, s: seq<T>, pred: (T, T) -> bool)
    ensures var r := UniqueFrom(last, s, pred);
      (forall x :: x in r ==> x in s) &&
      (r != [] ==> !pred(last, r[0])) &&
      (forall i :: 0 <= i < |r| - 1 ==> !pred(r[i], r[i + 1]))
  {
    if s != [] {
      if pred(last, s[0]) {
        UniqueFromSpec(last, s[1..], pred);
      } else {
        UniqueFromSpec(s[0], s[1..], pred);
        var r := UniqueFrom(s[0], s[1..], pred);
        assert forall i :: 1 <= i < |r| + 1 ==> ([s[0]] + r)[i] == r[i - 1];
      }
    }
  }

  /** unique keeps only elements of s, and no two neighbours it keeps are collapsible. */
  lemma UniqueSpec<T>(s: seq<T>, pred: (T, T) -> bool)
    ensures forall x :: x in Unique(s, pred) ==> x in s
    ensures forall i :: 0 <= i < |Unique(s, pred)| - 1 ==> !pred(Unique(s, pred)[i], Unique(s, pred)[i + 1])
  {
    if s != [] {
      UniqueFromSpec(s[0], s[1..], pred);
      var r := UniqueFrom(s[0], s[1..], pred);
      assert forall i :: 1 <= i < |r| + 1 ==> ([s[0]] + r)[i] == r[i - 1];
    }
  }

  /** A sequence without collapsible neighbours, none collapsible into last, is kept whole. */
  lemma {:induction false} UniqueFromNothing<T>(last: T, s: seq<T>, pred: (T, T) -> bool)
    requires s != [] ==> !pred(last, s[0])
    requires forall i :: 0 <= i < |s| - 1 ==> !pred(s[i], s[i + 1])
    ensures UniqueFrom(last, s, pred) == s
  {
    if s != [] {
      UniqueFromNothing(s[0], s[1..], pred);
    }
  }

  /** A sequence without collapsible neighbours is its own unique(). */
  lemma UniqueNothing<T>(s: seq<T>, pred: (T, T) -> bool)
    requires forall i :: 0 <= i < |s| - 1 ==> !pred(s[i], s[i + 1])
    ensures Unique(s, pred) == s
  {
    if s != [] {
      UniqueFromNothing(s[0], s[1..], pred);
    }
  }

  /** unique() is idempotent. */
  lemma UniqueIdempotent<T>(s: seq<T>, pred: (T, T) -> bool)
    ensures Unique(Unique(s, pred), pred) == Unique(s, pred)
  {
    UniqueSpec(s, pred);
    UniqueNothing(Unique(s, pred), pred);
  }

  /** unique() with == collapses consecutive runs only: {8,1,5,5,2,2,3,1,7} gives {8,1,5,2,3,1,7}. */
  lemma UniqueCollapsesRunsOnly()
    ensures Unique([8, 1, 5, 5, 2, 2, 3, 1, 7], (x: int, y: int) => x == y) == [8, 1, 5, 2, 3, 1, 7]
  {
    var eq := (x: int, y: int) => x == y;
    var s := [8, 1, 5, 5, 2, 2, 3, 1, 7];
    assert UniqueFrom(1, s[8..], eq) == [7];
    assert UniqueFrom(3, s[7..], eq) == [1, 7];
    assert UniqueFrom(2, s[6..], eq) == [3, 1, 7];
    assert UniqueFrom(2, s[5..], eq) == [3, 1, 7];
    assert UniqueFrom(5, s[4..], eq) == [2, 3, 1, 7];
    assert UniqueFrom(5, s[3..], eq) == [2, 3, 1, 7];
    assert UniqueFrom(1, s[2..], eq) == [5, 2, 3, 1, 7];
    assert UniqueFrom(8, s[1..], eq) == [1, 5, 2, 3, 1, 7];
  }

  // ---------------------------------------------------------------------------
  // Orderings: the requirements safelist's sort and merge place on Compare.

  /** comp is a strict weak ordering (irreflexive, transitive, and incomparability is transitive). */
  ghost predicate StrictWeakOrder<T(!new)>(comp: (T, T) -> bool)
  {
    (forall x :: !comp(x, x)) &&
    (forall x, y, z :: comp(x, y) && comp(y, z) ==> comp(x, z)) &&
    (forall x, y, z :: !comp(x, y) && !comp(y, z) ==> !comp(x, z))
  }

  /** No element is comp-smaller than one before it (the order sort() establishes). */
  ghost predicate Sorted<T>(s: seq<T>, comp: (T, T) -> bool)
  {
    forall i, j :: 0 <= i < j < |s| ==> !comp(s[j], s[i])
  }

  /** std::less<int> and std::greater<int> are strict weak orderings. */
  lemma IntOrders()
    ensures StrictWeakOrder((x: int, y: int) => x < y)
    ensures StrictWeakOrder((x: int, y: int) => x > y)
  {
  }

  // ---------------------------------------------------------------------------
  // merge(other, comp)

  /**
   * The contents merge(other, comp) leaves, for this list's contents a and
   * other's contents b, in the order of the source's loop: the next element
   * of b is linked in before the current element of a unless comp(current of
   * a, next of b) holds, and once linked in it becomes the current element.
   * On ties the element of b therefore goes first.
   */
  function Merge<T>(a: seq<T>, b: seq<T>, comp: (T, T) -> bool): (r: seq<T>)
    ensures |r| == |a| + |b|
    decreases |b|, |a|
  {
    if b == [] then a
    else if a == [] || !comp(a[0], b[0]) then Merge([b[0]] + a, b[1..], comp)
    else [a[0]] + Merge(a[1..], b, comp)
  }

  /** merge loses and invents nothing: the result is a permutation of a and b together. */
  lemma {:induction false} MergePermutation<T>(a: seq<T>, b: seq<T>, comp: (T, T) -> bool)
    ensures multiset(Merge(a, b, comp)) == multiset(a) + multiset(b)
    decreases |b|, |a|
  {
    if b == [] {
    } else if a == [] || !comp(a[0], b[0]) {
      MergePermutation([b[0]] + a, b[1..], comp);
      assert b == [b[0]] + b[1..];
    } else {
      MergePermutation(a[1..], b, comp);
      assert a == [a[0]] + a[1..];
    }
  }

  /** An element that nothing in s is below can go in front of sorted s. */
  lemma SortedCons<T>(h: T, s: seq<T>, comp: (T, T) -> bool)
    requires Sorted(s, comp)
    requires forall x :: x in s ==> !comp(x, h)
    ensures Sorted([h] + s, comp)
  {
    var t := [h] + s;
    forall i, j | 0 <= i < j < |t|
      ensures !comp(t[j], t[i])
    {
      assert t[j] == s[j - 1];
      if i > 0 {
        assert t[i] == s[i - 1];
      }
    }
  }

  /** Merging two sorted sequences gives a sorted sequence. */
  lemma {:induction false} MergeSorted<T(!new)>(a: seq<T>, b: seq<T>, comp: (T, T) -> bool)
    requires StrictWeakOrder(comp)
    requires Sorted(a, comp) && Sorted(b, comp)
    ensures Sorted(Merge(a, b, comp), comp)
    decreases |b|, |a|
  {
    if b == [] {
    } else if a == [] || !comp(a[0], b[0]) {
      var a' := [b[0]] + a;
      forall x | x in a
        ensures !comp(x, b[0])
      {
        var j :| 0 <= j < |a| && a[j] == x;
        if j > 0 {
          assert !comp(a[j], a[0]);
        }
      }
      SortedCons(b[0], a, comp);
      assert Sorted(b[1..], comp);
      MergeSorted(a', b[1..], comp);
    } else {
      var m := Merge(a[1..], b, comp);
      MergeSorted(a[1..], b, comp);
      MergePermutation(a[1..], b, comp);
      forall x | x in m
        ensures !comp(x, a[0])
      {
        assert x in multiset(m);
        if x in a[1..] {
          var j :| 1 <= j < |a| && a[j] == x;
        } else {
          assert x in multiset(b);
          var j :| 0 <= j < |b| && b[j] == x;
          if j > 0 {
            assert !comp(b[j], b[0]);
          }
        }
      }
      SortedCons(a[0], m, comp);
    }
  }

  /**
   * One pass of merge's loop that links rest[0] in at index q of c, in
   * front of c[q..] (which is empty or does not come before rest[0]): the
   * merge still ahead is unchanged.
   */
  lemma MergeTakeOther<T>(c: seq<T>, q: nat, rest: seq<T>, comp: (T, T) -> bool)
    requires q <= |c| && rest != [] && (q == |c| || !comp(c[q], rest[0]))
    ensures var d := c[..q] + [rest[0]] + c[q..];
      c[..q] + Merge(c[q..], rest, comp) == d[..q] + Merge(d[q..], rest[1..], comp)
  {
    var d := c[..q] + [rest[0]] + c[q..];
    assert d[..q] == c[..q];
    assert d[q..] == [rest[0]] + c[q..];
  }

  /** One pass of merge's loop that steps over c[q], which comes before rest[0]. */
  lemma MergeKeepSelf<T>(c: seq<T>, q: nat, rest: seq<T>, comp: (T, T) -> bool)
    requires q < |c| && rest != [] && comp(c[q], rest[0])
    ensures c[..q] + Merge(c[q..], rest, comp) == c[..q + 1] + Merge(c[q + 1..], rest, comp)
  {
    var a := c[q..];
    assert a[0] == c[q] && a[1..] == c[q + 1..];
    assert Merge(a, rest, comp) == [c[q]] + Merge(c[q + 1..], rest, comp);
    assert c[..q + 1] == c[..q] + [c[q]];
  }

  /**
   * On ties merge takes other's element first, and the elements of other
   * that tie with each other come out in reverse order.
   */
  lemma MergeTieOrder<T>(x: T, y: T, z: T, comp: (T, T) -> bool)
    requires !comp(x, y) && !comp(y, z)
    ensures Merge([x], [y, z], comp) == [z, y, x]
  {
    calc {
      Merge([x], [y, z], comp);
      { assert [y, z][1..] == [z] && [y] + [x] == [y, x]; }
      Merge([y, x], [z], comp);
      { assert [z][1..] == [] && [z] + [y, x] == [z, y, x]; }
      Merge([z, y, x], [], comp);
    }
  }

  // ---------------------------------------------------------------------------
  // sort(comp)

  /**
   * The contents sort(comp) leaves: the front half [..|s|/2] is spliced into
   * a scratch list, both halves are sorted recursively, and the sorted front
   * half is merged into the sorted back half.
   */
  function Sort<T>(s: seq<T>, comp: (T, T) -> bool): seq<T>
    decreases |s|
  {
    if |s| < 2 then s
    else Merge(Sort(s[|s| / 2..], comp), Sort(s[..|s| / 2], comp), comp)
  }

  /** sort() rearranges: the result is a permutation of s. */
  lemma {:induction false} SortPermutation<T>(s: seq<T>, comp: (T, T) -> bool)
    ensures multiset(Sort(s, comp)) == multiset(s)
    decreases |s|
  {
    if |s| >= 2 {
      SortPermutation(s[|s| / 2..], comp);
      SortPermutation(s[..|s| / 2], comp);
      MergePermutation(Sort(s[|s| / 2..], comp), Sort(s[..|s| / 2], comp), comp);
      assert s == s[..|s| / 2] + s[|s| / 2..];
    }
  }

  /** sort() with a strict weak ordering yields a sorted sequence. */
  lemma {:induction false} SortSorted<T(!new)>(s: seq<T>, comp: (T, T) -> bool)
    requires StrictWeakOrder(comp)
    ensures Sorted(Sort(s, comp), comp)
    decreases |s|
  {
    if |s| >= 2 {
      SortSorted(s[|s| / 2..], comp);
      SortSorted(s[..|s| / 2], comp);
      MergeSorted(Sort(s[|s| / 2..], comp), Sort(s[..|s| / 2], comp), comp);
    }
  }

  // ---------------------------------------------------------------------------
  // Comparison operators

  /**
   * std::lexicographical_compare(a, b, comp) as the GNU C++ library writes
   * it: at each position comp(a[i], b[i]) answers true, then comp(b[i], a[i])
   * answers false; once either range runs out, a is less exactly when it ran
   * out first.
   */
  function LexicographicalCompare<T>(a: seq<T>, b: seq<T>, comp: (T, T) -> bool): bool
  {
    if a == [] || b == [] then a == [] && b != []
    else if comp(a[0], b[0]) then true
    else if comp(b[0], a[0]) then false
    else LexicographicalCompare(a[1..], b[1..], comp)
  }

  /** Under a strict weak order no sequence is less than itself. */
  lemma {:induction false} LexIrreflexive<T(!new)>(a: seq<T>, comp: (T, T) -> bool)
    requires StrictWeakOrder(comp)
    ensures !LexicographicalCompare(a, a, comp)
  {
    if a != [] {
      LexIrreflexive(a[1..], comp);
    }
  }

  /** Under a strict weak order at most one of a < b and b < a holds. */
  lemma {:induction false} LexAsymmetric<T(!new)>(a: seq<T>, b: seq<T>, comp: (T, T) -> bool)
    requires StrictWeakOrder(comp)
    ensures !(LexicographicalCompare(a, b, comp) && LexicographicalCompare(b, a, comp))
  {
    if a != [] && b != [] && !comp(a[0], b[0]) && !comp(b[0], a[0]) {
      LexAsymmetric(a[1..], b[1..], comp);
    }
  }

  /**
   * The lexicographic order on integer sequences, defined directly: at the
   * first position where they differ a has the smaller element, or a is a
   * proper prefix of b.
   */
  ghost predicate LexLess(a: seq<int>, b: seq<int>)
  {
    exists k :: 0 <= k <= |a| && k <= |b| && a[..k] == b[..k] &&
      ((k == |a| && k < |b|) || (k < |a| && k < |b| && a[k] < b[k]))
  }

  /** lexicographical_compare with std::less<int> is exactly the lexicographic order. */
  lemma {:induction false} LexicographicalCompareIsLexLess(a: seq<int>, b: seq<int>)
    ensures LexicographicalCompare(a, b, (x: int, y: int) => x < y) <==> LexLess(a, b)
  {
    var lt := (x: int, y: int) => x < y;
    if a == [] {
      if b != [] {
        assert a[..0] == b[..0];
      }
    } else if b == [] {
    } else if a[0] < b[0] {
      assert a[..0] == b[..0];
    } else if b[0] < a[0] {
      forall k | 0 < k <= |a| && k <= |b|
        ensures a[..k] != b[..k]
      {
        assert a[..k][0] != b[..k][0];
      }
    } else {
      LexicographicalCompareIsLexLess(a[1..], b[1..]);
      if LexLess(a[1..], b[1..]) {
        var k :| 0 <= k <= |a[1..]| && k <= |b[1..]| && a[1..][..k] == b[1..][..k] &&
          ((k == |a[1..]| && k < |b[1..]|) || (k < |a[1..]| && k < |b[1..]| && a[1..][k] < b[1..][k]));
        assert a[..k + 1] == [a[0]] + a[1..][..k];
        assert b[..k + 1] == [b[0]] + b[1..][..k];
      }
      if LexLess(a, b) {
        var k :| 0 <= k <= |a| && k <= |b| && a[..k] == b[..k] &&
          ((k == |a| && k < |b|) || (k < |a| && k < |b| && a[k] < b[k]));
        assert k > 0;
        assert a[1..][..k - 1] == a[..k][1..];
        assert b[1..][..k - 1] == b[..k][1..];
      }
    }
  }

  /** For integers, "not b < a" is "a < b or a == b": the lexicographic order is total. */
  lemma {:induction false} LexTrichotomy(a: seq<int>, b: seq<int>)
    ensures var lt := (x: int, y: int) => x < y;
      !LexicographicalCompare(b, a, lt) <==> LexicographicalCompare(a, b, lt) || a == b
  {
    if a != [] && b != [] && a[0] == b[0] {
      LexTrichotomy(a[1..], b[1..]);
      if a[1..] == b[1..] {
        assert a == [a[0]] + a[1..] && b == [b[0]] + b[1..];
      }
    }
  }

  /**
   * operator<= as written passes std::less_equal to lexicographical_compare,
   * which then decides on the first elements alone: [1, 2] <= [1, 1] comes
   * out true although [1, 1] is the smaller, and [] <= [] comes out false.
   */
  lemma LessEqualAsWrittenFirstOnly(a: seq<int>, b: seq<int>)
    ensures LexicographicalCompare(a, b, (x: int, y: int) => x <= y) <==>
      (a == [] && b != []) || (a != [] && b != [] && a[0] <= b[0])
    ensures LexicographicalCompare([1, 2], [1, 1], (x: int, y: int) => x <= y) && LexLess([1, 1], [1, 2])
    ensures !LexicographicalCompare([], [], (x: int, y: int) => x <= y)
  {
    assert [1, 1][..1] == [1, 2][..1];
  }

  /** operator>= as written, with std::greater_equal, likewise decides on the first elements alone. */
  lemma GreaterEqualAsWrittenFirstOnly(a: seq<int>, b: seq<int>)
    ensures LexicographicalCompare(a, b, (x: int, y: int) => x >= y) <==>
      (a == [] && b != []) || (a != [] && b != [] && a[0] >= b[0])
    ensures LexicographicalCompare([1, 1], [1, 2], (x: int, y: int) => x >= y) && LexLess([1, 1], [1, 2])
  {
    assert [1, 1][..1] == [1, 2][..1];
  }

  /**
   * operator> as written, with std::greater, still counts a proper prefix as
   * the lesser side's win: [1] > [1, 2] comes out true.
   */
  lemma GreaterAsWrittenPrefix()
    ensures LexicographicalCompare([1], [1, 2], (x: int, y: int) => x > y) && LexLess([1], [1, 2])
  {
    assert [1][..1] == [1, 2][..1];
  }

  /**
   * The order operator> as written computes on integer sequences: at the
   * first position where they differ a has the larger element, or a is a
   * proper prefix of b.
   */
  ghost predicate PrefixOrFirstGreater(a: seq<int>, b: seq<int>)
  {
    exists k :: 0 <= k <= |a| && k <= |b| && a[..k] == b[..k] &&
      ((k == |a| && k < |b|) || (k < |a| && k < |b| && a[k] > b[k]))
  }

  /** lexicographical_compare with std::greater<int> is PrefixOrFirstGreater. */
  lemma {:induction false} GreaterAsWrittenIsPrefixOrFirstGreater(a: seq<int>, b: seq<int>)
    ensures LexicographicalCompare(a, b, (x: int, y: int) => x > y) <==> PrefixOrFirstGreater(a, b)
  {
    if a == [] {
      if b != [] {
        assert a[..0] == b[..0];
      }
    } else if b == [] {
    } else if a[0] > b[0] {
      assert a[..0] == b[..0];
    } else if b[0] > a[0] {
      forall k | 0 < k <= |a| && k <= |b|
        ensures a[..k] != b[..k]
      {
        assert a[..k][0] != b[..k][0];
      }
    } else {
      GreaterAsWrittenIsPrefixOrFirstGreater(a[1..], b[1..]);
      if PrefixOrFirstGreater(a[1..], b[1..]) {
        var k :| 0 <= k <= |a[1..]| && k <= |b[1..]| && a[1..][..k] == b[1..][..k] &&
          ((k == |a[1..]| && k < |b[1..]|) || (k < |a[1..]| && k < |b[1..]| && a[1..][k] > b[1..][k]));
        assert a[..k + 1] == [a[0]] + a[1..][..k];
        assert b[..k + 1] == [b[0]] + b[1..][..k];
      }
      if PrefixOrFirstGreater(a, b) {
        var k :| 0 <= k <= |a| && k <= |b| && a[..k] == b[..k] &&
          ((k == |a| && k < |b|) || (k < |a| && k < |b| && a[k] > b[k]));
        assert k > 0;
        assert a[1..][..k - 1] == a[..k][1..];
        assert b[1..][..k - 1] == b[..k][1..];
      }
    }
  }

  /** a <= b read as !(b < a) is the lexicographic order or equality. */
  lemma LessEqualIsLexLessOrEqual(a: seq<int>, b: seq<int>)
    ensures !LexicographicalCompare(b, a, (x: int, y: int) => x < y) <==> LexLess(a, b) || a == b
  {
    LexTrichotomy(a, b);
    LexicographicalCompareIsLexLess(a, b);
  }

  /** a >= b read as !(a < b) is the reversed lexicographic order or equality. */
  lemma GreaterEqualIsLexGreaterOrEqual(a: seq<int>, b: seq<int>)
    ensures !LexicographicalCompare(a, b, (x: int, y: int) => x < y) <==> LexLess(b, a) || a == b
  {
    LexTrichotomy(b, a);
    LexicographicalCompareIsLexLess(b, a);
  }
}
