/**
 * The entries of a safelist and the shape their links must have.
 *
 * An Entry's forward link is the source's owning shared_ptr, its backward
 * link the non-owning weak_ptr; both are plain references here. A ring is
 * described by the sequence ns of its entries in forward order, starting
 * with the sentinel, and by the sequence vs of the values the other entries
 * hold. The lemmas below say how the ring description changes when the
 * links around one entry are rewritten.
 */
module Links {
  datatype Option<T> = None | Some(value: T)

  /** safelist<T>::entry: a value slot, empty only in the sentinel, a forward and a backward link. */
  class Entry<T> {
    var value: Option<T>
    var next: Entry?<T>
    var prev: Entry?<T>

    constructor (value: Option<T>, next: Entry?<T>, prev: Entry?<T>)
      ensures this.value == value && this.next == next && this.prev == prev
    {
      this.value := value;
      this.next := next;
      this.prev := prev;
    }
  }

  /** No entry occurs twice in ns: the first is not among the rest, and neither does any later one recur. */
  ghost predicate Distinct<T>(ns: seq<Entry<T>>)
  {
    ns == [] || (ns[0] !in ns[1..] && Distinct(ns[1..]))
  }

  /** Distinct says exactly that any two positions of ns hold different entries. */
  lemma {:induction false} DistinctPairs<T>(ns: seq<Entry<T>>)
    ensures Distinct(ns) <==> forall i, j :: 0 <= i < j < |ns| ==> ns[i] != ns[j]
  {
    if ns != [] {
      var rest := ns[1..];
      DistinctPairs(rest);
      if Distinct(ns) {
        forall i, j | 0 <= i < j < |ns|
          ensures ns[i] != ns[j]
        {
          assert ns[j] == rest[j - 1];
          if i > 0 {
            assert ns[i] == rest[i - 1];
          }
        }
      }
      if forall i, j :: 0 <= i < j < |ns| ==> ns[i] != ns[j] {
        forall i, j | 0 <= i < j < |rest|
          ensures rest[i] != rest[j]
        {
          assert rest[i] == ns[i + 1] && rest[j] == ns[j + 1];
        }
        forall k | 0 <= k < |rest|
          ensures rest[k] != ns[0]
        {
          assert rest[k] == ns[k + 1];
        }
      }
    }
  }

  /** The forward links run along ns, and the last entry's leads to last. */
  ghost predicate ForwardChain<T>(ns: seq<Entry<T>>, last: Entry<T>)
    reads ns
  {
    (forall i {:trigger ns[i].next} :: 0 <= i < |ns| - 1 ==> ns[i].next == ns[i + 1]) &&
    (|ns| > 0 ==> ns[|ns| - 1].next == last)
  }

  /** Every backward link in ns, except the first entry's, leads to the entry before. */
  ghost predicate BackwardChain<T>(ns: seq<Entry<T>>)
    reads ns
  {
    forall i {:trigger ns[i].prev} :: 0 < i < |ns| ==> ns[i].prev == ns[i - 1]
  }

  /** The entries ns after the first hold the values vs, in order. */
  ghost predicate Holds<T>(ns: seq<Entry<T>>, vs: seq<T>)
    reads ns
  {
    |ns| == |vs| + 1 && forall i {:trigger ns[i].value} :: 0 < i < |ns| ==> ns[i].value == Some(vs[i - 1])
  }

  /**
   * The ring without the sentinel's backward link: the forward links from
   * the sentinel s run through the distinct entries ns and back to s, every
   * other backward link undoes a forward link, and only s holds no value.
   */
  ghost predicate Chain<T>(ns: seq<Entry<T>>, vs: seq<T>, s: Entry<T>)
    reads ns
  {
    ns != [] && ns[0] == s && Distinct(ns) && s.value == None && Holds(ns, vs) &&
    ForwardChain(ns, s) && BackwardChain(ns)
  }

  /** The whole ring: a chain whose sentinel's backward link leads to the last entry. */
  ghost predicate Ring<T>(ns: seq<Entry<T>>, vs: seq<T>, s: Entry<T>)
    reads ns
  {
    Chain(ns, vs, s) && s.prev == ns[|ns| - 1]
  }

  // ---------------------------------------------------------------------------
  // Inserting one entry

  /** ns with e inserted after index k: the entry sequence after emplace. */
  lemma InsertedEntries<T>(ns: seq<Entry<T>>, k: nat, e: Entry<T>)
    requires k < |ns| && Distinct(ns) && e !in ns
    ensures var ms := ns[..k + 1] + [e] + ns[k + 1..];
      |ms| == |ns| + 1 && Distinct(ms) &&
      (forall i :: 0 <= i <= k ==> ms[i] == ns[i]) && ms[k + 1] == e &&
      (forall i :: k + 1 < i < |ms| ==> ms[i] == ns[i - 1])
  {
    var ms := ns[..k + 1] + [e] + ns[k + 1..];
    DistinctPairs(ns);
    DistinctPairs(ms);
    assert ns == ns[..k + 1] + ns[k + 1..];
  }

  /** Once e is linked in after ns[k], the forward links run along ns with e inserted after index k. */
  lemma ForwardAfterInsert<T>(ns: seq<Entry<T>>, k: nat, e: Entry<T>, last: Entry<T>)
    requires k < |ns|
    requires forall i :: 0 <= i < |ns| - 1 && i != k ==> ns[i].next == ns[i + 1]
    requires k < |ns| - 1 ==> ns[|ns| - 1].next == last
    requires ns[k].next == e && e.next == if k == |ns| - 1 then last else ns[k + 1]
    ensures ForwardChain(ns[..k + 1] + [e] + ns[k + 1..], last)
  {
    var ms := ns[..k + 1] + [e] + ns[k + 1..];
    forall i | 0 <= i < |ms| - 1
      ensures ms[i].next == ms[i + 1]
    {
      if i < k {
        assert ms[i] == ns[i] && ms[i + 1] == ns[i + 1];
      } else if i > k + 1 {
        assert ms[i] == ns[i - 1] && ms[i + 1] == ns[i];
      }
    }
  }

  /** Once e is linked in after ns[k], the backward links run along ns with e inserted after index k. */
  lemma BackwardAfterInsert<T>(ns: seq<Entry<T>>, k: nat, e: Entry<T>)
    requires k < |ns|
    requires forall i :: 0 < i < |ns| && i != k + 1 ==> ns[i].prev == ns[i - 1]
    requires e.prev == ns[k] && (k < |ns| - 1 ==> ns[k + 1].prev == e)
    ensures BackwardChain(ns[..k + 1] + [e] + ns[k + 1..])
  {
    var ms := ns[..k + 1] + [e] + ns[k + 1..];
    forall i | 0 < i < |ms|
      ensures ms[i].prev == ms[i - 1]
    {
      if i <= k {
        assert ms[i] == ns[i] && ms[i - 1] == ns[i - 1];
      } else if i > k + 2 {
        assert ms[i] == ns[i - 1] && ms[i - 1] == ns[i - 2];
      }
    }
  }

  /** Inserting e, holding v, after ns[k] inserts v at index k of the values. */
  lemma HoldsAfterInsert<T>(ns: seq<Entry<T>>, vs: seq<T>, k: nat, e: Entry<T>, v: T)
    requires k < |ns| && Holds(ns, vs) && e.value == Some(v)
    ensures Holds(ns[..k + 1] + [e] + ns[k + 1..], vs[..k] + [v] + vs[k..])
  {
    var ms, ws := ns[..k + 1] + [e] + ns[k + 1..], vs[..k] + [v] + vs[k..];
    forall i | 0 < i < |ms|
      ensures ms[i].value == Some(ws[i - 1])
    {
      if i <= k {
        assert ms[i] == ns[i] && ws[i - 1] == vs[i - 1];
      } else if i > k + 1 {
        assert ms[i] == ns[i - 1] && ws[i - 1] == vs[i - 2];
      }
    }
  }

  /**
   * Links e, whose own links already lead to ns[k] and its successor, in
   * between the two: the two writes of emplace, push_front and push_back.
   * The chain then runs through e, and its value sits at index k.
   */
  method LinkAfter<T>(ghost ns: seq<Entry<T>>, ghost vs: seq<T>, ghost k: nat, p: Entry<T>, e: Entry<T>, ghost v: T)
    requires k < |ns| && p == ns[k] && Chain(ns, vs, ns[0])
    requires e !in ns && e.value == Some(v) && e.prev == p && e.next == p.next
    modifies p, if k == |ns| - 1 then ns[0] else ns[k + 1]
    ensures Chain(ns[..k + 1] + [e] + ns[k + 1..], vs[..k] + [v] + vs[k..], ns[0])
    ensures ns[0].prev == if k == |ns| - 1 then e else old(ns[0].prev)
  {
    ghost var succ := if k == |ns| - 1 then ns[0] else ns[k + 1];
    DistinctPairs(ns);
    p.next := e;
    e.next.prev := e;
    forall i | 0 <= i < |ns|
      ensures ns[i].value == old(ns[i].value)
      ensures i != k ==> ns[i].next == old(ns[i].next)
      ensures ns[i] != succ ==> ns[i].prev == old(ns[i].prev)
    {
    }
    InsertedEntries(ns, k, e);
    ForwardAfterInsert(ns, k, e, ns[0]);
    BackwardAfterInsert(ns, k, e);
    HoldsAfterInsert(ns, vs, k, e, v);
  }

  // ---------------------------------------------------------------------------
  // Removing one entry

  /** ns without the entry at index k + 1: the entry sequence after erase. */
  lemma RemovedEntries<T>(ns: seq<Entry<T>>, k: nat)
    requires k + 1 < |ns| && Distinct(ns)
    ensures var ms := ns[..k + 1] + ns[k + 2..];
      |ms| == |ns| - 1 && Distinct(ms) &&
      (forall i :: 0 <= i <= k ==> ms[i] == ns[i]) &&
      (forall i :: k < i < |ms| ==> ms[i] == ns[i + 1])
  {
    DistinctPairs(ns);
    DistinctPairs(ns[..k + 1] + ns[k + 2..]);
  }

  /** Once ns[k] is linked to the entry after ns[k + 1], the forward links run along ns without ns[k + 1]. */
  lemma ForwardAfterRemove<T>(ns: seq<Entry<T>>, k: nat, last: Entry<T>)
    requires k + 1 < |ns|
    requires forall i :: 0 <= i < |ns| - 1 && i != k ==> ns[i].next == ns[i + 1]
    requires k + 1 < |ns| - 1 ==> ns[|ns| - 1].next == last
    requires ns[k].next == if k + 1 == |ns| - 1 then last else ns[k + 2]
    ensures ForwardChain(ns[..k + 1] + ns[k + 2..], last)
  {
    var ms := ns[..k + 1] + ns[k + 2..];
    forall i | 0 <= i < |ms| - 1
      ensures ms[i].next == ms[i + 1]
    {
      if i < k {
        assert ms[i] == ns[i] && ms[i + 1] == ns[i + 1];
      } else if i > k {
        assert ms[i] == ns[i + 1] && ms[i + 1] == ns[i + 2];
      }
    }
  }

  /** Once the entry after ns[k + 1] is linked back to ns[k], the backward links run along ns without ns[k + 1]. */
  lemma BackwardAfterRemove<T>(ns: seq<Entry<T>>, k: nat)
    requires k + 1 < |ns|
    requires forall i :: 0 < i < |ns| && i != k + 2 ==> ns[i].prev == ns[i - 1]
    requires k + 2 < |ns| ==> ns[k + 2].prev == ns[k]
    ensures BackwardChain(ns[..k + 1] + ns[k + 2..])
  {
    var ms := ns[..k + 1] + ns[k + 2..];
    forall i | 0 < i < |ms|
      ensures ms[i].prev == ms[i - 1]
    {
      if i <= k {
        assert ms[i] == ns[i] && ms[i - 1] == ns[i - 1];
      } else if i > k + 1 {
        assert ms[i] == ns[i + 1] && ms[i - 1] == ns[i];
      }
    }
  }

  /** Dropping ns[k + 1] drops the value at index k. */
  lemma HoldsAfterRemove<T>(ns: seq<Entry<T>>, vs: seq<T>, k: nat)
    requires k + 1 < |ns| && Holds(ns, vs)
    ensures Holds(ns[..k + 1] + ns[k + 2..], vs[..k] + vs[k + 1..])
  {
    var ms, ws := ns[..k + 1] + ns[k + 2..], vs[..k] + vs[k + 1..];
    forall i | 0 < i < |ms|
      ensures ms[i].value == Some(ws[i - 1])
    {
      if i <= k {
        assert ms[i] == ns[i] && ws[i - 1] == vs[i - 1];
      } else {
        assert ms[i] == ns[i + 1] && ws[i - 1] == vs[i];
      }
    }
  }

  /**
   * Links the neighbours of x == ns[k + 1] to each other, the two writes
   * of erase; x keeps its own links. The chain then skips x, and the value
   * at index k is gone.
   */
  method Unlink<T>(ghost ns: seq<Entry<T>>, ghost vs: seq<T>, ghost k: nat, x: Entry<T>)
    requires k + 1 < |ns| && x == ns[k + 1] && Chain(ns, vs, ns[0])
    modifies ns[k], if k + 2 == |ns| then ns[0] else ns[k + 2]
    ensures Chain(ns[..k + 1] + ns[k + 2..], vs[..k] + vs[k + 1..], ns[0])
    ensures ns[0].prev == if k + 2 == |ns| then ns[k] else old(ns[0].prev)
    ensures x !in ns[..k + 1] + ns[k + 2..] && x.next == old(x.next) && x.prev == old(x.prev)
  {
    ghost var q := if k + 2 == |ns| then ns[0] else ns[k + 2];
    DistinctPairs(ns);
    x.prev.next := x.next;
    x.next.prev := x.prev;
    forall i | 0 <= i < |ns|
      ensures ns[i].value == old(ns[i].value)
      ensures i != k ==> ns[i].next == old(ns[i].next)
      ensures ns[i] != q ==> ns[i].prev == old(ns[i].prev)
    {
    }
    RemovedEntries(ns, k);
    ForwardAfterRemove(ns, k, ns[0]);
    BackwardAfterRemove(ns, k);
    HoldsAfterRemove(ns, vs, k);
  }

  // ---------------------------------------------------------------------------
  // Moving a whole chain in

  /** ns with the entries ms[1..] of another chain put in after index k: the entry sequence after splice. */
  lemma SplicedEntries<T>(ns: seq<Entry<T>>, k: nat, ms: seq<Entry<T>>)
    requires k < |ns| && 2 <= |ms| && Distinct(ns) && Distinct(ms)
    requires forall t :: 0 <= t < |ms| ==> ms[t] !in ns
    ensures var zs := ns[..k + 1] + ms[1..] + ns[k + 1..];
      |zs| == |ns| + |ms| - 1 && Distinct(zs) &&
      (forall i :: 0 <= i <= k ==> zs[i] == ns[i]) &&
      (forall t :: 1 <= t < |ms| ==> zs[k + t] == ms[t]) &&
      (forall i :: k + |ms| <= i < |zs| ==> zs[i] == ns[i - |ms| + 1])
  {
    var zs := ns[..k + 1] + ms[1..] + ns[k + 1..];
    DistinctPairs(ns);
    DistinctPairs(ms);
    DistinctPairs(zs);
    forall i, j | 0 <= i < j < |zs|
      ensures zs[i] != zs[j]
    {
      if j <= k {
      } else if i <= k && j < k + |ms| {
        assert zs[j] == ms[j - k];
      } else if i <= k {
        assert zs[i] == ns[i] && zs[j] == ns[j - |ms| + 1];
      } else if j < k + |ms| {
        assert zs[i] == ms[i - k] && zs[j] == ms[j - k];
      } else if i < k + |ms| {
        assert zs[i] == ms[i - k];
      } else {
        assert zs[i] == ns[i - |ms| + 1] && zs[j] == ns[j - |ms| + 1];
      }
    }
  }

  /** The footprint of the spliced entry sequence: ns's entries lie in r, ms's after the first in q. */
  lemma SplicedWithin<T>(ns: seq<Entry<T>>, k: nat, ms: seq<Entry<T>>, r: set<object>, q: set<object>)
    requires k < |ns| && ms != [] && (forall n :: n in ns ==> n in r)
    requires forall t :: 1 <= t < |ms| ==> ms[t] in q
    ensures forall n :: n in ns[..k + 1] + ms[1..] + ns[k + 1..] ==> n in r + q
  {
    forall n | n in ns[..k + 1] + ms[1..] + ns[k + 1..]
      ensures n in r + q
    {
      if n in ms[1..] {
        var t :| 0 <= t < |ms[1..]| && ms[1..][t] == n;
        assert ms[t + 1] == n;
      }
    }
  }

  /** Once ms[1..] is linked in after ns[k], the forward links run along the spliced sequence. */
  lemma ForwardAfterSplice<T>(ns: seq<Entry<T>>, k: nat, ms: seq<Entry<T>>, last: Entry<T>)
    requires k < |ns| && 2 <= |ms|
    requires forall i :: 0 <= i < |ns| - 1 && i != k ==> ns[i].next == ns[i + 1]
    requires k < |ns| - 1 ==> ns[|ns| - 1].next == last
    requires forall t :: 1 <= t < |ms| - 1 ==> ms[t].next == ms[t + 1]
    requires ns[k].next == ms[1] && ms[|ms| - 1].next == if k == |ns| - 1 then last else ns[k + 1]
    ensures ForwardChain(ns[..k + 1] + ms[1..] + ns[k + 1..], last)
  {
    var zs := ns[..k + 1] + ms[1..] + ns[k + 1..];
    forall i | 0 <= i < |zs| - 1
      ensures zs[i].next == zs[i + 1]
    {
      if i < k {
        assert zs[i] == ns[i] && zs[i + 1] == ns[i + 1];
      } else if i == k {
        assert zs[i] == ns[k] && zs[i + 1] == ms[1];
      } else if i < k + |ms| - 1 {
        assert zs[i] == ms[i - k] && zs[i + 1] == ms[i - k + 1];
      } else if i == k + |ms| - 1 {
        assert zs[i] == ms[|ms| - 1] && zs[i + 1] == ns[k + 1];
      } else {
        assert zs[i] == ns[i - |ms| + 1] && zs[i + 1] == ns[i - |ms| + 2];
      }
    }
    if k < |ns| - 1 {
      assert zs[|zs| - 1] == ns[|ns| - 1];
    }
  }

  /** Once ms[1..] is linked in after ns[k], the backward links run along the spliced sequence. */
  lemma BackwardAfterSplice<T>(ns: seq<Entry<T>>, k: nat, ms: seq<Entry<T>>)
    requires k < |ns| && 2 <= |ms|
    requires forall i :: 0 < i < |ns| && i != k + 1 ==> ns[i].prev == ns[i - 1]
    requires forall t :: 1 < t < |ms| ==> ms[t].prev == ms[t - 1]
    requires ms[1].prev == ns[k] && (k < |ns| - 1 ==> ns[k + 1].prev == ms[|ms| - 1])
    ensures BackwardChain(ns[..k + 1] + ms[1..] + ns[k + 1..])
  {
    var zs := ns[..k + 1] + ms[1..] + ns[k + 1..];
    forall i | 0 < i < |zs|
      ensures zs[i].prev == zs[i - 1]
    {
      if i <= k {
        assert zs[i] == ns[i] && zs[i - 1] == ns[i - 1];
      } else if i == k + 1 {
        assert zs[i] == ms[1] && zs[i - 1] == ns[k];
      } else if i < k + |ms| {
        assert zs[i] == ms[i - k] && zs[i - 1] == ms[i - k - 1];
      } else if i == k + |ms| {
        assert zs[i] == ns[k + 1] && zs[i - 1] == ms[|ms| - 1];
      } else {
        assert zs[i] == ns[i - |ms| + 1] && zs[i - 1] == ns[i - |ms|];
      }
    }
  }

  /** Splicing ms[1..] in after ns[k] puts the values ws at index k. */
  lemma HoldsAfterSplice<T>(ns: seq<Entry<T>>, vs: seq<T>, k: nat, ms: seq<Entry<T>>, ws: seq<T>)
    requires k < |ns| && 2 <= |ms| && Holds(ns, vs) && Holds(ms, ws)
    ensures Holds(ns[..k + 1] + ms[1..] + ns[k + 1..], vs[..k] + ws + vs[k..])
  {
    var zs, us := ns[..k + 1] + ms[1..] + ns[k + 1..], vs[..k] + ws + vs[k..];
    forall i | 0 < i < |zs|
      ensures zs[i].value == Some(us[i - 1])
    {
      if i <= k {
        assert zs[i] == ns[i] && us[i - 1] == vs[i - 1];
      } else if i < k + |ms| {
        assert zs[i] == ms[i - k] && us[i - 1] == ws[i - k - 1];
      } else {
        assert zs[i] == ns[i - |ms| + 1] && us[i - 1] == vs[i - |ms|];
      }
    }
  }

  /**
   * The four writes of splice(pos, other): the entries ms[1..] of another
   * chain, from first to last, go in between p == ns[k] and pos, the entry
   * after it. The other chain's sentinel ms[0] keeps its links.
   */
  method LinkSegment<T>(ghost ns: seq<Entry<T>>, ghost vs: seq<T>, ghost k: nat, p: Entry<T>, pos: Entry<T>,
                        ghost ms: seq<Entry<T>>, ghost ws: seq<T>, first: Entry<T>, last: Entry<T>)
    requires k < |ns| && p == ns[k] && pos == (if k == |ns| - 1 then ns[0] else ns[k + 1]) && Chain(ns, vs, ns[0])
    requires 2 <= |ms| && first == ms[1] && last == ms[|ms| - 1] && Chain(ms, ws, ms[0])
    requires forall t :: 0 <= t < |ms| ==> ms[t] !in ns
    modifies p, pos, first, last
    ensures Chain(ns[..k + 1] + ms[1..] + ns[k + 1..], vs[..k] + ws + vs[k..], ns[0])
    ensures ns[0].prev == if k == |ns| - 1 then last else old(ns[0].prev)
  {
    DistinctPairs(ns);
    DistinctPairs(ms);
    p.next := first;
    first.prev := p;
    pos.prev := last;
    last.next := pos;
    forall i | 0 <= i < |ns|
      ensures ns[i].value == old(ns[i].value)
      ensures i != k ==> ns[i].next == old(ns[i].next)
      ensures ns[i] != pos ==> ns[i].prev == old(ns[i].prev)
    {
    }
    forall t | 0 <= t < |ms|
      ensures ms[t].value == old(ms[t].value)
      ensures t != |ms| - 1 ==> ms[t].next == old(ms[t].next)
      ensures t != 1 ==> ms[t].prev == old(ms[t].prev)
    {
    }
    SplicedEntries(ns, k, ms);
    ForwardAfterSplice(ns, k, ms, ns[0]);
    BackwardAfterSplice(ns, k, ms);
    HoldsAfterSplice(ns, vs, k, ms, ws);
  }

  // ---------------------------------------------------------------------------
  // Exchanging two values

  /**
   * std::swap of the values held by ns[i + 1] and ns[j + 1], as reverse
   * does it: no link changes, and the two values trade places.
   */
  method SwapValues<T>(ghost ns: seq<Entry<T>>, ghost vs: seq<T>, ghost i: nat, ghost j: nat, a: Entry<T>, b: Entry<T>)
    requires i < |vs| && j < |vs| && i != j && |ns| == |vs| + 1 && Ring(ns, vs, ns[0])
    requires a == ns[i + 1] && b == ns[j + 1]
    modifies a, b
    ensures Ring(ns, vs[i := vs[j]][j := vs[i]], ns[0])
  {
    DistinctPairs(ns);
    a.value, b.value := b.value, a.value;
    ghost var ws := vs[i := vs[j]][j := vs[i]];
    forall t | 0 <= t < |ns|
      ensures ns[t].next == old(ns[t].next) && ns[t].prev == old(ns[t].prev)
      ensures t > 0 ==> ns[t].value == Some(ws[t - 1])
    {
    }
  }

  // ---------------------------------------------------------------------------
  // Entries on their way from one ring to another

  /** Entries ps, cut off from their ring's sentinel, still chained forward to last and holding vs. */
  ghost predicate Pending<T>(ps: seq<Entry<T>>, vs: seq<T>, last: Entry<T>)
    reads ps
  {
    |ps| == |vs| && ForwardChain(ps, last) &&
    forall i {:trigger ps[i].value} :: 0 <= i < |ps| ==> ps[i].value == Some(vs[i])
  }

  /** The entries of a chain after its sentinel are pending towards it, and distinct from it. */
  lemma ChainPending<T>(ns: seq<Entry<T>>, vs: seq<T>, s: Entry<T>)
    requires Chain(ns, vs, s)
    ensures Pending(ns[1..], vs, s) && Distinct(ns[1..]) && s !in ns[1..]
  {
    var ps := ns[1..];
    forall i | 0 <= i < |ps|
      ensures ps[i].value == Some(vs[i]) && ps[i].next == if i == |ps| - 1 then s else ps[i + 1]
    {
      assert ps[i] == ns[i + 1];
    }
  }

  /** Once the first pending entry has been taken, the others are still pending. */
  lemma PendingTail<T>(ps: seq<Entry<T>>, vs: seq<T>, last: Entry<T>)
    requires Pending(ps, vs, last) && ps != []
    ensures Pending(ps[1..], vs[1..], last)
    ensures ps[0].value == Some(vs[0]) && ps[0].next == if |ps| == 1 then last else ps[1]
  {
    var qs := ps[1..];
    forall i | 0 <= i < |qs|
      ensures qs[i].value == Some(vs[1..][i]) && qs[i].next == if i == |qs| - 1 then last else qs[i + 1]
    {
      assert qs[i] == ps[i + 1];
    }
  }

  /**
   * Links the first pending entry e == ps[0] in after p == ns[k], as one
   * pass of merge does, and returns the entry e was chained to. With setBack
   * the backward link of the sentinel s is pointed at e as well (line 739 of
   * merge).
   */
  method LinkPending<T>(ghost ns: seq<Entry<T>>, ghost vs: seq<T>, ghost k: nat, p: Entry<T>, e: Entry<T>, s: Entry<T>,
                        ghost ps: seq<Entry<T>>, ghost rest: seq<T>, ghost last: Entry<T>, setBack: bool)
    returns (next: Entry<T>)
    requires k < |ns| && p == ns[k] && s == ns[0] && Chain(ns, vs, ns[0])
    requires ps != [] && e == ps[0] && Pending(ps, rest, last) && Distinct(ps) && last !in ps
    requires forall x :: x in ps ==> x !in ns
    modifies p, e, s, if k == |ns| - 1 then s else ns[k + 1]
    ensures Chain(ns[..k + 1] + [e] + ns[k + 1..], vs[..k] + [rest[0]] + vs[k..], s)
    ensures setBack ==> s.prev == e
    ensures !setBack && old(s.prev) == ns[|ns| - 1] ==> Ring(ns[..k + 1] + [e] + ns[k + 1..], vs[..k] + [rest[0]] + vs[k..], s)
    ensures Pending(ps[1..], rest[1..], last) && next == (if |ps| == 1 then last else ps[1]) && e.value == Some(rest[0])
  {
    PendingTail(ps, rest, last);
    assert e in ps && e !in ps[1..] && e !in ns;
    var succ := p.next;
    assert succ == if k == |ns| - 1 then ns[0] else ns[k + 1];
    assert p !in ps && s !in ps && succ !in ps;
    next := e.next;
    e.prev, e.next := p, succ;
    LinkAfter(ns, vs, k, p, e, rest[0]);
    if setBack {
      SetBack(ns[..k + 1] + [e] + ns[k + 1..], vs[..k] + [rest[0]] + vs[k..], s, e);
    }
  }

  // ---------------------------------------------------------------------------
  // The sentinel's backward link

  /** Points the sentinel's backward link at e; the chain does not depend on that link. */
  method SetBack<T>(ghost ns: seq<Entry<T>>, ghost vs: seq<T>, s: Entry<T>, e: Entry<T>)
    requires Chain(ns, vs, s)
    modifies s
    ensures Chain(ns, vs, s) && s.prev == e
  {
    s.prev := e;
    forall t | 0 <= t < |ns|
      ensures ns[t].next == old(ns[t].next) && ns[t].value == old(ns[t].value)
      ensures 0 < t ==> ns[t].prev == old(ns[t].prev)
    {
    }
  }

  /**
   * If the sentinel's backward link reaches an entry holding v, the ring
   * can only be whole when the chain's last value is v.
   */
  lemma BackLinkHolds<T>(ns: seq<Entry<T>>, vs: seq<T>, s: Entry<T>, v: T)
    requires Chain(ns, vs, s) && vs != [] && s.prev != null && s.prev.value == Some(v)
    ensures Ring(ns, vs, s) ==> vs[|vs| - 1] == v
  {
    if Ring(ns, vs, s) {
      assert s.prev == ns[|vs|];
    }
  }
}
