/**
 * safelist<T>: a circular doubly linked list headed by a sentinel entry, with
 * the interface of std::list.
 *
 * The ring is modelled with plain references: an Entry's forward link is the
 * source's owning shared_ptr, its backward link the non-owning weak_ptr. A
 * cursor (iterator or const_iterator) is the Entry it refers to. Each List
 * carries, as ghost state, the sequence of its entries in forward order
 * starting with the sentinel, the sequence of values they hold, and its
 * footprint Repr.
 */
module SafeList {
  import opened Seqs
  import opened Links

  /** std::range_error, the one error safelist raises (erase(end())). */
  datatype Error = RangeError

  datatype Result<T> = Ok(value: T) | Err(error: Error)

  class List<T(==)> {
    /** entryPoint: the sentinel, both the before-first and the past-the-end entry. */
    var sentinel: Entry<T>
    /** m_size */
    var size: nat

    /** The entries of the ring in forward order, the sentinel first. */
    ghost var nodes: seq<Entry<T>>
    /** The values held by nodes[1..]: what the list contains. */
    ghost var contents: seq<T>
    ghost var Repr: set<object>

    /** The ring invariants, with size kept equal to the number of values. */
    ghost predicate Valid()
      reads this, Repr
      ensures Valid() ==> this in Repr && sentinel in Repr
    {
      this in Repr && (forall n :: n in nodes ==> n in Repr) &&
      size == |contents| && Ring(nodes, contents, sentinel)
    }

    /** The entry a cursor at position k refers to: the entry of contents[k], or the sentinel for k == |contents|. */
    ghost function At(k: nat): Entry<T>
      reads this, Repr
      requires Valid() && k <= |contents|
    {
      if k == |contents| then sentinel else nodes[k + 1]
    }

    /** The position of the cursor at entry c: the index of its value in contents, |contents| for end(). */
    ghost function Index(c: Entry<T>): (k: nat)
      reads this, Repr
      requires Valid() && c in nodes
      ensures k <= |contents| && At(k) == c
    {
      var i :| 0 <= i < |nodes| && nodes[i] == c;
      if i == 0 then |contents| else i - 1
    }

    /** A position and the entry at it determine each other. */
    lemma IndexAt(k: nat)
      requires Valid() && k <= |contents|
      ensures At(k) in nodes && Index(At(k)) == k
    {
      var c := At(k);
      DistinctPairs(nodes);
      assert c == nodes[if k == |contents| then 0 else k + 1];
    }

    // -------------------------------------------------------------------------
    // Construction, clear, swap

    /** clear(): the sentinel is linked to itself and the size is 0. */
    method Clear()
      requires sentinel.value == None
      modifies this, sentinel
      ensures Valid() && sentinel == old(sentinel)
      ensures contents == [] && nodes == [sentinel] && Repr == {this, sentinel}
    {
      size := 0;
      sentinel.next := sentinel;
      sentinel.prev := sentinel;
      nodes, contents, Repr := [sentinel], [], {this, sentinel};
      DistinctPairs(nodes);
    }

    /** safelist(): a fresh sentinel, then clear(). */
    constructor ()
      ensures Valid() && fresh(Repr) && contents == [] && Repr == {this, sentinel}
    {
      sentinel := new Entry(None, null, null);
      size := 0;
      nodes, contents, Repr := [], [], {};
      new;
      Clear();
    }

    /** safelist(count, value): safelist(), then count calls of push_back(value). */
    constructor Fill(count: nat, v: T)
      ensures Valid() && fresh(Repr) && contents == Copies(count, v)
    {
      sentinel := new Entry(None, null, null);
      size := 0;
      nodes, contents, Repr := [], [], {};
      new;
      Clear();
      var n: nat := count;
      while n > 0
        invariant n <= count
        invariant Valid() && fresh(Repr) && contents == Copies(count - n, v)
      {
        PushBack(v);
        assert Copies(count - n, v) + [v] == Copies(count - n + 1, v);
        n := n - 1;
      }
    }

    /** safelist(first, last) and safelist(ilist): safelist(), then push_back of every element in order. */
    constructor FromSeq(xs: seq<T>)
      ensures Valid() && fresh(Repr) && contents == xs
    {
      sentinel := new Entry(None, null, null);
      size := 0;
      nodes, contents, Repr := [], [], {};
      new;
      Clear();
      var i := 0;
      while i < |xs|
        invariant i <= |xs|
        invariant Valid() && fresh(Repr) && contents == xs[..i]
      {
        PushBack(xs[i]);
        TakeOneMore(xs, i);
        i := i + 1;
      }
      assert xs[..|xs|] == xs;
    }

    /** safelist(other): safelist(other.begin(), other.end()), a deep copy. */
    constructor Copy(other: List<T>)
      requires other.Valid()
      ensures Valid() && fresh(Repr) && contents == other.contents
    {
      sentinel := new Entry(None, null, null);
      size := 0;
      nodes, contents, Repr := [], [], {};
      new;
      Clear();
      var b, e := other.Begin(), other.End();
      ghost var R0, W := Repr, other.contents;
      assert fresh(R0) && W[0..|W|] == W;
      ghost var added := PushBackRange(other, b, e);
      assert fresh(R0 + added) && contents == W;
    }

    /**
     * The loop of safelist(first, last) over the cursors of another list:
     * push_back of the value at every cursor from first up to last.
     */
    method PushBackRange(other: List<T>, first: Entry<T>, last: Entry<T>) returns (ghost added: set<object>)
      requires Valid() && other.Valid() && Repr !! other.Repr
      requires first in other.nodes && last in other.nodes && other.Index(first) <= other.Index(last)
      modifies Repr
      ensures Valid() && sentinel == old(sentinel) && Repr == old(Repr) + added && fresh(added) && Repr !! other.Repr
      ensures contents == old(contents + other.contents[other.Index(first)..other.Index(last)])
      ensures unchanged(other)
    {
      ghost var C, i0, n := contents, other.Index(first), other.Index(last);
      var c := first;
      added := {};
      ghost var i := i0;
      while c != last
        invariant Valid() && sentinel == old(sentinel) && Repr == old(Repr) + added && fresh(added) && Repr !! other.Repr
        invariant unchanged(other) && unchanged(other.Repr)
        invariant c in other.nodes && i == other.Index(c) && i0 <= i <= n
        invariant contents == C + other.contents[i0..i]
        decreases n - i
      {
        var v, d := other.Deref(c), other.Increment(c);
        assert other.contents[i0..i + 1] == other.contents[i0..i] + [v];
        PushBack(v);
        added := added + {nodes[|nodes| - 1]};
        c, i := d, i + 1;
      }
    }

    /** swap(other): the two lists exchange their sentinels and sizes; no entry changes. */
    method Swap(other: List<T>)
      requires Valid() && other.Valid() && (other == this || Repr !! other.Repr)
      modifies this, other
      ensures Valid() && other.Valid()
      ensures contents == old(other.contents) && other.contents == old(contents)
      ensures sentinel == old(other.sentinel) && other.sentinel == old(sentinel)
    {
      if other != this {
        sentinel, other.sentinel := other.sentinel, sentinel;
        size, other.size := other.size, size;
        nodes, other.nodes := other.nodes, nodes;
        contents, other.contents := other.contents, contents;
        Repr, other.Repr := other.Repr - {other} + {this}, Repr - {this} + {other};
      }
    }

    /**
     * operator=(other) as written: clear(), then push_back of every value
     * of other. When other is this list, clear() has already emptied it,
     * so self-assignment leaves the list empty.
     */
    method AssignAsWritten(other: List<T>)
      requires Valid() && other.Valid() && (other == this || Repr !! other.Repr)
      modifies Repr
      ensures Valid() && sentinel == old(sentinel) && fresh(Repr - old(Repr))
      ensures other == this ==> contents == []
      ensures other != this ==> other.Valid() && contents == old(other.contents) && other.contents == old(other.contents)
    {
      Clear();
      if other != this {
        var b, e := other.Begin(), other.End();
        ghost var W := other.contents;
        assert W[0..|W|] == W;
        ghost var added := PushBackRange(other, b, e);
      }
    }

    /** operator=(other) as std::list defines it: self-assignment changes nothing. */
    method Assign(other: List<T>)
      requires Valid() && other.Valid() && (other == this || Repr !! other.Repr)
      modifies Repr
      ensures Valid() && sentinel == old(sentinel) && fresh(Repr - old(Repr))
      ensures contents == old(other.contents)
      ensures other != this ==> other.Valid() && other.contents == old(other.contents)
    {
      if other == this {
        return;
      }
      AssignAsWritten(other);
    }

    // -------------------------------------------------------------------------
    // Size and element access

    /** size(): kept in m_size, never counted by traversal. */
    function Size(): (n: nat)
      reads this, Repr
      requires Valid()
      ensures n == |contents|
    {
      size
    }

    /** empty() */
    function Empty(): (b: bool)
      reads this, Repr
      requires Valid()
      ensures b <==> contents == []
    {
      size == 0
    }

    /** front(): the first element; calling it on an empty list is undefined. */
    method Front() returns (v: T)
      requires Valid() && contents != []
      ensures v == contents[0]
    {
      v := sentinel.next.value.value;
    }

    /** back(): the last element, reached through the sentinel's backward link. */
    method Back() returns (v: T)
      requires Valid() && contents != []
      ensures v == contents[|contents| - 1]
    {
      v := sentinel.prev.value.value;
    }

    // -------------------------------------------------------------------------
    // Cursors

    /** begin() */
    function Begin(): (c: Entry<T>)
      reads this, Repr
      requires Valid()
      ensures c in nodes && Index(c) == 0
    {
      IndexAt(0);
      sentinel.next
    }

    /** end() */
    function End(): (c: Entry<T>)
      reads this, Repr
      requires Valid()
      ensures c in nodes && Index(c) == |contents|
    {
      sentinel
    }

    /** operator++ on a cursor: follows the forward link; from end() it wraps round to begin(). */
    function Increment(c: Entry<T>): (d: Entry<T>)
      reads this, Repr
      requires Valid() && c in nodes
      ensures d in nodes
      ensures Index(d) == if Index(c) == |contents| then 0 else Index(c) + 1
    {
      IndexAt(if Index(c) == |contents| then 0 else Index(c) + 1);
      c.next
    }

    /** std::advance(c, n): n steps of operator++, not passing end(). */
    method Advance(c: Entry<T>, n: nat) returns (d: Entry<T>)
      requires Valid() && c in nodes && Index(c) + n <= |contents|
      ensures d in nodes && Index(d) == Index(c) + n
    {
      d := c;
      var i := 0;
      while i < n
        invariant i <= n && d in nodes && Index(d) == Index(c) + i
      {
        d := Increment(d);
        i := i + 1;
      }
    }

    /** operator-- on a cursor: follows the backward link; from begin() it reaches end(). */
    function Decrement(c: Entry<T>): (d: Entry<T>)
      reads this, Repr
      requires Valid() && c in nodes
      ensures d in nodes
      ensures Index(d) == if Index(c) == 0 then |contents| else Index(c) - 1
    {
      IndexAt(if Index(c) == 0 then |contents| else Index(c) - 1);
      c.prev
    }

    /** operator* on a cursor; dereferencing end() is undefined. */
    function Deref(c: Entry<T>): (v: T)
      reads this, Repr
      requires Valid() && c in nodes && c != sentinel
      ensures Index(c) < |contents| && v == contents[Index(c)]
    {
      c.value.value
    }

    /** operator== on cursors compares the entries; in one list that is the same as comparing positions. */
    function CursorEqual(a: Entry<T>, b: Entry<T>): (r: bool)
      reads this, Repr
      requires Valid() && a in nodes && b in nodes
      ensures r <==> Index(a) == Index(b)
    {
      a == b
    }

    // -------------------------------------------------------------------------
    // Insertion and removal at the ends

    /** push_front(value) */
    method PushFront(v: T)
      requires Valid()
      modifies Repr
      ensures Valid() && sentinel == old(sentinel)
      ensures contents == [v] + old(contents)
      ensures |nodes| == |old(nodes)| + 1 && fresh(nodes[1])
      ensures nodes == [sentinel, nodes[1]] + old(nodes[1..])
      ensures Repr == old(Repr) + {nodes[1]}
    {
      ghost var N, C := nodes, contents;
      var e := new Entry(Some(v), sentinel.next, sentinel);
      LinkAfter(N, C, 0, sentinel, e, v);
      size := size + 1;
      nodes, contents, Repr := N[..1] + [e] + N[1..], C[..0] + [v] + C[0..], Repr + {e};
    }

    /** push_back(value) */
    method PushBack(v: T)
      requires Valid()
      modifies Repr
      ensures Valid() && sentinel == old(sentinel)
      ensures contents == old(contents) + [v]
      ensures |nodes| == |old(nodes)| + 1 && fresh(nodes[|nodes| - 1])
      ensures nodes == old(nodes) + [nodes[|nodes| - 1]]
      ensures Repr == old(Repr) + {nodes[|nodes| - 1]}
    {
      ghost var N, C, k := nodes, contents, |contents|;
      var last := sentinel.prev;
      var e := new Entry(Some(v), sentinel, last);
      LinkAfter(N, C, k, last, e, v);
      size := size + 1;
      nodes, contents, Repr := N[..k + 1] + [e] + N[k + 1..], C[..k] + [v] + C[k..], Repr + {e};
    }

    /** pop_front(): nothing happens on an empty list. */
    method PopFront()
      requires Valid()
      modifies Repr
      ensures Valid() && sentinel == old(sentinel) && Repr <= old(Repr)
      ensures old(contents) == [] ==> contents == [] && nodes == old(nodes)
      ensures old(contents) != [] ==> contents == old(contents[1..]) && nodes == [sentinel] + old(nodes[2..])
    {
      if size != 0 {
        ghost var N, C := nodes, contents;
        assert sentinel.next == N[1];
        Unlink(N, C, 0, sentinel.next);
        size := size - 1;
        nodes, contents, Repr := N[..1] + N[2..], C[..0] + C[1..], Repr - {N[1]};
        assert nodes == [sentinel] + N[2..] && contents == C[1..];
      }
    }

    /** pop_back(): nothing happens on an empty list. */
    method PopBack()
      requires Valid()
      modifies Repr
      ensures Valid() && sentinel == old(sentinel) && Repr <= old(Repr)
      ensures old(contents) == [] ==> contents == [] && nodes == old(nodes)
      ensures old(contents) != [] ==>
        contents == old(contents[..|contents| - 1]) && nodes == old(nodes[..|nodes| - 1])
    {
      if size != 0 {
        ghost var N, C, k := nodes, contents, |contents| - 1;
        Unlink(N, C, k, sentinel.prev);
        size := size - 1;
        nodes, contents, Repr := N[..k + 1] + N[k + 2..], C[..k] + C[k + 1..], Repr - {N[k + 1]};
      }
    }

    // -------------------------------------------------------------------------
    // Insertion and removal at a cursor

    /**
     * emplace(pos, value) and insert(pos, value): a new entry holding value
     * goes immediately before pos (pos == end() appends); the returned
     * cursor refers to it, and every other entry keeps its place in order.
     */
    method Emplace(pos: Entry<T>, v: T) returns (it: Entry<T>)
      requires Valid() && pos in nodes
      modifies Repr
      ensures Valid() && sentinel == old(sentinel)
      ensures fresh(it) && Repr == old(Repr) + {it}
      ensures var k := old(Index(pos));
        contents == old(contents[..k]) + [v] + old(contents[k..]) &&
        nodes == old(nodes[..k + 1]) + [it] + old(nodes[k + 1..]) &&
        it in nodes && Index(it) == k
    {
      var realPos := pos.prev;
      var e := new Entry(Some(v), realPos.next, realPos);
      LinkBefore(pos, e, v);
      it := e;
    }

    /**
     * Links a detached entry e, already pointing at pos and at the entry
     * before pos, into the ring immediately before pos, and counts it: the
     * step emplace and splice(pos, other, it) share.
     */
    method LinkBefore(pos: Entry<T>, e: Entry<T>, ghost v: T)
      requires Valid() && pos in nodes && e !in Repr
      requires e.value == Some(v) && e.next == pos && e.prev == pos.prev
      modifies Repr
      ensures Valid() && sentinel == old(sentinel) && Repr == old(Repr) + {e}
      ensures var k := old(Index(pos));
        contents == old(contents[..k]) + [v] + old(contents[k..]) &&
        nodes == old(nodes[..k + 1]) + [e] + old(nodes[k + 1..]) &&
        e in nodes && Index(e) == k
    {
      ghost var N, C, k := nodes, contents, Index(pos);
      var realPos := pos.prev;
      assert realPos == N[k];
      LinkAfter(N, C, k, realPos, e, v);
      size := size + 1;
      nodes, contents, Repr := N[..k + 1] + [e] + N[k + 1..], C[..k] + [v] + C[k..], Repr + {e};
      IndexAt(k);
    }

    /**
     * erase(pos): erasing end() raises range_error before any link is
     * touched; otherwise exactly the element at pos goes, and the returned
     * cursor refers to the entry that followed it. The erased entry keeps
     * its own links.
     */
    method Erase(pos: Entry<T>) returns (r: Result<Entry<T>>)
      requires Valid() && pos in nodes
      modifies Repr
      ensures Valid() && sentinel == old(sentinel) && Repr <= old(Repr) && unchanged(pos)
      ensures pos == sentinel ==> r == Err(RangeError) && unchanged(Repr) && nodes == old(nodes)
      ensures pos != sentinel ==>
        var k := old(Index(pos));
        contents == old(contents[..k]) + old(contents[k + 1..]) &&
        nodes == old(nodes[..k + 1]) + old(nodes[k + 2..]) &&
        r.Ok? && r.value == old(pos.next) && r.value == At(k)
    {
      if pos.value.None? {
        return Err(RangeError);
      }
      Detach(pos);
      r := Ok(pos.next);
    }

    /**
     * Cuts the entry e out of the ring: its neighbours are linked to each
     * other and the size drops by one, while e keeps its own links; the
     * step erase and splice(pos, other, it) share.
     */
    method Detach(e: Entry<T>)
      requires Valid() && e in nodes && e != sentinel
      modifies Repr
      ensures Valid() && sentinel == old(sentinel) && Repr == old(Repr) - {e} && unchanged(e)
      ensures var k := old(Index(e));
        k < old(|contents|) &&
        contents == old(contents[..k]) + old(contents[k + 1..]) &&
        nodes == old(nodes[..k + 1]) + old(nodes[k + 2..]) &&
        e.next == At(k)
    {
      ghost var N, C, k := nodes, contents, Index(e);
      Unlink(N, C, k, e);
      size := size - 1;
      nodes, contents, Repr := N[..k + 1] + N[k + 2..], C[..k] + C[k + 1..], Repr - {e};
    }

    /**
     * resize(count, value): pop_back() while the list is longer than count,
     * then push_back(value) while it is shorter.
     */
    method Resize(count: nat, v: T)
      requires Valid()
      modifies Repr
      ensures Valid() && sentinel == old(sentinel) && fresh(Repr - old(Repr))
      ensures count <= |old(contents)| ==> contents == old(contents[..count])
      ensures count > |old(contents)| ==> contents == old(contents) + Copies(count - |old(contents)|, v)
    {
      ghost var C := contents;
      while size > count
        invariant Valid() && sentinel == old(sentinel) && fresh(Repr - old(Repr))
        invariant |contents| <= |C| && contents == C[..|contents|]
        invariant |contents| < |C| ==> count <= |contents|
        decreases size
      {
        PopBack();
      }
      while size < count
        invariant Valid() && sentinel == old(sentinel) && fresh(Repr - old(Repr))
        invariant count <= |C| ==> contents == C[..count]
        invariant count > |C| ==> |C| <= |contents| <= count && contents == C + Copies(|contents| - |C|, v)
        decreases count - size
      {
        ghost var m := |contents| - |C|;
        PushBack(v);
        assert Copies(m, v) + [v] == Copies(m + 1, v);
      }
    }

    /** emplace_back(value): emplace before end(). */
    method EmplaceBack(v: T)
      requires Valid()
      modifies Repr
      ensures Valid() && sentinel == old(sentinel) && fresh(Repr - old(Repr)) && old(Repr) <= Repr
      ensures contents == old(contents) + [v]
    {
      var it := Emplace(End(), v);
    }

    /**
     * emplace_front(value) as written: emplace before ++begin(). On a
     * non-empty list that is the second position; on an empty one ++begin()
     * wraps round to end() and the value becomes the only element.
     */
    method EmplaceFrontAsWritten(v: T)
      requires Valid()
      modifies Repr
      ensures Valid() && sentinel == old(sentinel) && fresh(Repr - old(Repr)) && old(Repr) <= Repr
      ensures old(contents) == [] ==> contents == [v]
      ensures old(contents) != [] ==> contents == [old(contents[0]), v] + old(contents[1..])
    {
      var it := Emplace(Increment(Begin()), v);
    }

    /** emplace_front(value) as std::list defines it: emplace before begin(). */
    method EmplaceFront(v: T)
      requires Valid()
      modifies Repr
      ensures Valid() && sentinel == old(sentinel) && fresh(Repr - old(Repr)) && old(Repr) <= Repr
      ensures contents == [v] + old(contents)
    {
      var it := Emplace(Begin(), v);
    }

    /** insert(pos, value): the same as emplace(pos, value). */
    method Insert(pos: Entry<T>, v: T) returns (it: Entry<T>)
      requires Valid() && pos in nodes
      modifies Repr
      ensures Valid() && sentinel == old(sentinel) && fresh(Repr - old(Repr)) && old(Repr) <= Repr
      ensures var k := old(Index(pos));
        contents == old(contents[..k]) + [v] + old(contents[k..]) && it in nodes && Index(it) == k
    {
      it := Emplace(pos, v);
    }

    /**
     * insert(pos, count, value): count copies of value go before pos, each
     * emplaced before the one inserted just before it; the returned cursor
     * refers to the first of them, or is pos when count is 0.
     */
    method InsertCount(pos: Entry<T>, count: nat, v: T) returns (it: Entry<T>)
      requires Valid() && pos in nodes
      modifies Repr
      ensures Valid() && sentinel == old(sentinel) && fresh(Repr - old(Repr)) && old(Repr) <= Repr
      ensures var k := old(Index(pos));
        contents == old(contents[..k]) + Copies(count, v) + old(contents[k..]) &&
        it in nodes && Index(it) == k
    {
      ghost var C, k := contents, Index(pos);
      it := pos;
      var n: nat := count;
      while n > 0
        invariant n <= count
        invariant Valid() && sentinel == old(sentinel) && fresh(Repr - old(Repr)) && old(Repr) <= Repr
        invariant contents == C[..k] + Copies(count - n, v) + C[k..]
        invariant it in nodes && Index(it) == k
      {
        InsertInFront(C, k, Copies(count - n, v), v);
        it := Emplace(it, v);
        assert [v] + Copies(count - n, v) == Copies(count - n + 1, v);
        n := n - 1;
      }
    }

    /**
     * insert(pos, first, last) as written, and insert(pos, ilist): every
     * element is emplaced before the one inserted just before it, so the
     * range arrives reversed in front of pos. The returned cursor refers to
     * the last element of the range, now first of the inserted ones.
     */
    method InsertRangeAsWritten(pos: Entry<T>, xs: seq<T>) returns (it: Entry<T>)
      requires Valid() && pos in nodes
      modifies Repr
      ensures Valid() && sentinel == old(sentinel) && fresh(Repr - old(Repr)) && old(Repr) <= Repr
      ensures var k := old(Index(pos));
        contents == old(contents[..k]) + Seqs.Reverse(xs) + old(contents[k..]) &&
        it in nodes && Index(it) == k
    {
      ghost var C, k := contents, Index(pos);
      it := pos;
      var i := 0;
      while i < |xs|
        invariant i <= |xs|
        invariant Valid() && sentinel == old(sentinel) && fresh(Repr - old(Repr)) && old(Repr) <= Repr
        invariant contents == C[..k] + Seqs.Reverse(xs[..i]) + C[k..]
        invariant it in nodes && Index(it) == k
      {
        InsertInFront(C, k, Seqs.Reverse(xs[..i]), xs[i]);
        it := Emplace(it, xs[i]);
        ReversePrepend(xs, i);
        i := i + 1;
      }
      assert xs[..|xs|] == xs;
    }

    /**
     * insert(pos, first, last) as std::list defines it: the range goes, in
     * order, in front of pos; the returned cursor refers to its first
     * element, or is pos when the range is empty.
     */
    method InsertRange(pos: Entry<T>, xs: seq<T>) returns (it: Entry<T>)
      requires Valid() && pos in nodes
      modifies Repr
      ensures Valid() && sentinel == old(sentinel) && fresh(Repr - old(Repr)) && old(Repr) <= Repr
      ensures var k := old(Index(pos));
        contents == old(contents[..k]) + xs + old(contents[k..]) &&
        it in nodes && Index(it) == k
    {
      ghost var C, k := contents, Index(pos);
      it := pos;
      var i := 0;
      while i < |xs|
        invariant i <= |xs|
        invariant Valid() && sentinel == old(sentinel) && fresh(Repr - old(Repr)) && old(Repr) <= Repr
        invariant contents == C[..k] + xs[..i] + C[k..]
        invariant pos == At(k + i) && it == At(k)
      {
        it := InsertRangeStep(C, k, xs, i, pos, it);
        i := i + 1;
      }
      IndexAt(k);
      assert xs[..|xs|] == xs;
    }

    /**
     * One pass of the loop of insert(pos, first, last) as std::list defines
     * it: xs[i] goes before pos, behind the i values already inserted at k;
     * the result cursor becomes the first inserted value.
     */
    method InsertRangeStep(ghost c: seq<T>, ghost k: nat, xs: seq<T>, i: nat, pos: Entry<T>, it: Entry<T>)
      returns (it': Entry<T>)
      requires Valid() && i < |xs| && k <= |c| && contents == c[..k] + xs[..i] + c[k..]
      requires pos == At(k + i) && it == At(k)
      modifies Repr
      ensures Valid() && sentinel == old(sentinel) && fresh(Repr - old(Repr)) && old(Repr) <= Repr
      ensures contents == c[..k] + xs[..i + 1] + c[k..]
      ensures pos == At(k + i + 1) && it' == At(k)
    {
      InsertBehind(c, k, xs[..i], xs[i]);
      IndexAt(k + i);
      var e := Emplace(pos, xs[i]);
      TakeOneMore(xs, i);
      it' := if i == 0 then e else it;
    }

    // -------------------------------------------------------------------------
    // Erasing ranges, remove, unique, reverse

    /**
     * erase(first, last): erase(first++) until first reaches last, then
     * return last. When last comes before first, first runs through end()
     * and erasing end() raises range_error; everything from first on has
     * been erased by then.
     */
    method EraseRange(first: Entry<T>, last: Entry<T>) returns (r: Result<Entry<T>>)
      requires Valid() && first in nodes && last in nodes
      modifies Repr
      ensures Valid() && sentinel == old(sentinel) && Repr <= old(Repr)
      ensures var i, j := old(Index(first)), old(Index(last));
        if i <= j then r == Ok(last) && contents == old(contents[..i]) + old(contents[j..])
        else r == Err(RangeError) && contents == old(contents[..i])
    {
      ghost var C, i, j := contents, Index(first), Index(last);
      ghost var e: nat, l: nat := 0, j;
      var cur := first;
      while cur != last
        invariant Valid() && sentinel == old(sentinel) && Repr <= old(Repr)
        invariant i + e <= |C| && contents == C[..i] + C[i + e..]
        invariant i <= |contents| && cur == At(i)
        invariant l <= |contents| && last == At(l)
        invariant if i <= j then e <= j - i && l == j - e else l == j
        decreases |C| - i - e
      {
        ghost var D := contents;
        var erased;
        cur, erased := EraseVisit(cur, i, last, l);
        if !erased {
          return Err(RangeError);
        }
        DropOneMore(C, i, e, D);
        e := e + 1;
        if i <= j {
          l := l - 1;
        }
      }
      IndexAt(i);
      IndexAt(l);
      r := Ok(last);
    }

    /** One step of erase(first, last): erase(first++), with last still in the list. */
    method EraseVisit(cur: Entry<T>, ghost i: nat, last: Entry<T>, ghost l: nat) returns (next: Entry<T>, erased: bool)
      requires Valid() && i <= |contents| && l <= |contents| && cur == At(i) && last == At(l) && i != l
      modifies Repr
      ensures Valid() && sentinel == old(sentinel) && Repr <= old(Repr)
      ensures erased <==> i < old(|contents|)
      ensures !erased ==> contents == old(contents)
      ensures erased ==>
        contents == old(contents[..i]) + old(contents[i + 1..]) &&
        next == At(i) && last == At(if l < i then l else l - 1)
    {
      ghost var N := nodes;
      IndexAt(i);
      IndexAt(l);
      var pos := cur;
      next := Increment(cur);
      var q := Erase(pos);
      erased := q.Ok?;
      if erased && l < |N| - 1 {
        DropShift(N, i, l + 1);
      }
    }

    /**
     * remove_if(pred): walks the list once; an element pred accepts is
     * erased (erase(it++)), any other is stepped over.
     */
    method RemoveIf(pred: T -> bool)
      requires Valid()
      modifies Repr
      ensures Valid() && sentinel == old(sentinel) && Repr <= old(Repr)
      ensures contents == Seqs.RemoveIf(old(contents), pred)
    {
      ghost var C, K := contents, [];
      ghost var m: nat := 0;
      var it := Begin();
      while it != End()
        invariant Valid() && sentinel == old(sentinel) && Repr <= old(Repr)
        invariant m <= |C| && K == Seqs.RemoveIf(C[..m], pred) && contents == K + C[m..]
        invariant it == At(|K|)
        decreases |C| - m
      {
        ghost var D := contents;
        RemoveIfStep(C, m, pred);
        SplitAfter(K, C, m, D);
        it := RemoveIfVisit(it, pred, |K|);
        if !pred(C[m]) {
          K := K + [C[m]];
        }
        m := m + 1;
      }
      IndexAt(|K|);
      assert C[..m] == C;
    }

    /**
     * One pass of remove_if's loop body at the cursor it, at position k:
     * the element there is erased when pred accepts it and stepped over
     * otherwise; the result is the cursor the loop goes on with.
     */
    method RemoveIfVisit(it: Entry<T>, pred: T -> bool, ghost k: nat) returns (next: Entry<T>)
      requires Valid() && k < |contents| && it == At(k)
      modifies Repr
      ensures Valid() && sentinel == old(sentinel) && Repr <= old(Repr)
      ensures pred(old(contents[k])) ==> contents == old(contents[..k]) + old(contents[k + 1..]) && next == At(k)
      ensures !pred(old(contents[k])) ==> contents == old(contents) && next == At(k + 1)
    {
      IndexAt(k);
      if pred(Deref(it)) {
        var pos := it;
        next := Increment(it);
        var q := Erase(pos);
      } else {
        next := Increment(it);
        IndexAt(k + 1);
      }
    }

    /** remove(value): remove_if with equality to value. */
    method Remove(v: T)
      requires Valid()
      modifies Repr
      ensures Valid() && sentinel == old(sentinel) && Repr <= old(Repr)
      ensures contents == Seqs.RemoveIf(old(contents), x => x == v)
    {
      RemoveIf(x => x == v);
    }

    /**
     * unique(pred): prev is the last element kept so far and it the one
     * after it; the element at it is erased when pred(*prev, *it) holds,
     * and otherwise becomes prev.
     */
    method Unique(pred: (T, T) -> bool)
      requires Valid()
      modifies Repr
      ensures Valid() && sentinel == old(sentinel) && Repr <= old(Repr)
      ensures contents == Seqs.Unique(old(contents), pred)
    {
      if Empty() {
        return;
      }
      ghost var C := contents;
      ghost var K, R := [C[0]], C[1..];
      var it := Increment(Begin());
      var eIt := End();
      var prev := Begin();
      assert C == K + R;
      IndexAt(0);
      IndexAt(1);
      while it != eIt
        invariant Valid() && sentinel == old(sentinel) && Repr <= old(Repr) && eIt == sentinel
        invariant UniqueProgress(pred, C, K, R, prev, it)
        decreases |R|
      {
        prev, it, K, R := UniqueStep(pred, C, K, R, prev, it);
      }
    }

    /**
     * Where unique(pred) stands: K has been kept and R is still to be
     * scanned; prev is at the last value kept and it at the first of R.
     */
    ghost predicate UniqueProgress(pred: (T, T) -> bool, c: seq<T>, k: seq<T>, r: seq<T>, prev: Entry<T>, it: Entry<T>)
      reads this, Repr
      requires Valid()
    {
      1 <= |k| && contents == k + r &&
      Seqs.Unique(c, pred) == k + UniqueFrom(k[|k| - 1], r, pred) &&
      prev == At(|k| - 1) && it == At(|k|)
    }

    /** One pass of unique's loop, stated on UniqueProgress: one more value of R is scanned. */
    method UniqueStep(pred: (T, T) -> bool, ghost c: seq<T>, ghost k: seq<T>, ghost r: seq<T>, prev: Entry<T>, it: Entry<T>)
      returns (prev': Entry<T>, it': Entry<T>, ghost k': seq<T>, ghost r': seq<T>)
      requires Valid() && UniqueProgress(pred, c, k, r, prev, it) && it != sentinel
      modifies Repr
      ensures Valid() && sentinel == old(sentinel) && Repr <= old(Repr)
      ensures UniqueProgress(pred, c, k', r', prev', it') && |r'| < |r|
    {
      ghost var D := contents;
      IndexAt(|k|);
      SplitFront(k, r, D);
      assert D[|k| - 1] == k[|k| - 1];
      prev', it' := UniqueVisit(prev, it, pred, |k|);
      k' := if pred(k[|k| - 1], r[0]) then k else k + [r[0]];
      r' := r[1..];
    }

    /**
     * One pass of unique's loop body: prev at position k - 1 and it at k.
     * The element at it is erased when pred(*prev, *it) holds, and
     * otherwise becomes prev; the results are the new prev and it.
     */
    method UniqueVisit(prev: Entry<T>, it: Entry<T>, pred: (T, T) -> bool, ghost k: nat) returns (prev': Entry<T>, it': Entry<T>)
      requires Valid() && 0 < k < |contents| && prev == At(k - 1) && it == At(k)
      modifies Repr
      ensures Valid() && sentinel == old(sentinel) && Repr <= old(Repr)
      ensures pred(old(contents[k - 1]), old(contents[k])) ==>
        contents == old(contents[..k]) + old(contents[k + 1..]) && prev' == At(k - 1) && it' == At(k)
      ensures !pred(old(contents[k - 1]), old(contents[k])) ==>
        contents == old(contents) && prev' == At(k) && it' == At(k + 1)
    {
      IndexAt(k - 1);
      IndexAt(k);
      if pred(Deref(prev), Deref(it)) {
        var pos := it;
        it' := Increment(it);
        var q := Erase(pos);
        prev' := prev;
      } else {
        prev' := it;
        it' := Increment(it);
        IndexAt(k + 1);
      }
    }

    /** std::swap of the values held at positions i and j: no link changes, and the two values trade places. */
    method Exchange(a: Entry<T>, b: Entry<T>, ghost i: nat, ghost j: nat)
      requires Valid() && i < |contents| && j < |contents| && i != j && a == At(i) && b == At(j)
      modifies this, a, b
      ensures Valid() && sentinel == old(sentinel) && Repr == old(Repr) && nodes == old(nodes)
      ensures contents == old(contents)[i := old(contents[j])][j := old(contents[i])]
    {
      ghost var D := contents;
      SwapValues(nodes, D, i, j, a, b);
      contents := D[i := D[j]][j := D[i]];
    }

    /**
     * reverse(): size() / 2 exchanges of values, the first with the last,
     * the second with the one before the last, and so on; no entry moves.
     */
    method Reverse()
      requires Valid()
      modifies Repr
      ensures Valid() && sentinel == old(sentinel) && Repr == old(Repr) && nodes == old(nodes)
      ensures contents == Seqs.Reverse(old(contents))
    {
      ghost var C := contents;
      var it := Begin();
      var rIt := End();
      var iters := size / 2;
      ghost var d: nat := 0;
      while iters > 0
        invariant Valid() && sentinel == old(sentinel) && Repr == old(Repr) && nodes == old(nodes)
        invariant 0 <= iters && 2 * (d + iters) <= |C| <= 2 * (d + iters) + 1 && |C| == |contents|
        invariant contents == SwapEnds(C, d)
        invariant it == At(d) && rIt == At(|C| - d)
      {
        it, rIt := ReverseStep(C, d, it, rIt);
        iters, d := iters - 1, d + 1;
      }
      SwapEndsAll(C, d);
    }

    /**
     * One pass of reverse()'s loop after d exchanges: the values at it++ and
     * --rIt, the (d + 1)-th from the front and from the back, trade places.
     */
    method ReverseStep(ghost c: seq<T>, ghost d: nat, it: Entry<T>, rIt: Entry<T>) returns (it': Entry<T>, rIt': Entry<T>)
      requires Valid() && 2 * d + 2 <= |c| && contents == SwapEnds(c, d)
      requires it == At(d) && rIt == At(|c| - d)
      modifies Repr
      ensures Valid() && sentinel == old(sentinel) && Repr == old(Repr) && nodes == old(nodes)
      ensures contents == SwapEnds(c, d + 1) && it' == At(d + 1) && rIt' == At(|c| - d - 1)
    {
      IndexAt(d);
      IndexAt(|c| - d);
      var a := it;
      it' := Increment(it);
      rIt' := Decrement(rIt);
      assert it' == At(d + 1) && rIt' == At(|c| - 1 - d);
      Exchange(a, rIt', d, |c| - 1 - d);
      SwapEndsStep(c, d);
    }

    // -------------------------------------------------------------------------
    // Splicing from another list

    /**
     * splice(pos, other): other's entries, as one segment in their order,
     * are linked in immediately before pos, the sizes are added, and other
     * is cleared. other must be another list.
     */
    method SpliceAll(pos: Entry<T>, other: List<T>)
      requires Valid() && other.Valid() && Repr !! other.Repr && pos in nodes
      modifies Repr, other.Repr
      ensures Valid() && other.Valid() && Repr !! other.Repr
      ensures sentinel == old(sentinel) && other.sentinel == old(other.sentinel)
      ensures Repr + other.Repr <= old(Repr + other.Repr)
      ensures var k := old(Index(pos));
        contents == old(contents[..k]) + old(other.contents) + old(contents[k..]) && other.contents == []
    {
      if other.Empty() {
        return;
      }
      AttachSegment(pos, other);
      other.Clear();
    }

    /**
     * The linking half of splice(pos, other): other's entries become this
     * list's, immediately before pos, while other itself is left untouched,
     * its sentinel still pointing at them.
     */
    method AttachSegment(pos: Entry<T>, other: List<T>)
      requires Valid() && other.Valid() && Repr !! other.Repr && pos in nodes && other.contents != []
      modifies Repr, other.Repr - {other, other.sentinel}
      ensures Valid() && sentinel == old(sentinel) && Repr == old(Repr) + (other.Repr - {other, other.sentinel})
      ensures unchanged(other, other.sentinel) && other.sentinel.value == None
      ensures var k := old(Index(pos));
        contents == old(contents[..k]) + old(other.contents) + old(contents[k..])
    {
      ghost var N, C, k := nodes, contents, Index(pos);
      ghost var M, W := other.nodes, other.contents;
      var ownPrev := pos.prev;
      assert ownPrev == N[k];
      var first, last := other.sentinel.next, other.sentinel.prev;
      DistinctPairs(M);
      ghost var Q := other.Repr - {other, other.sentinel};
      assert forall t :: 1 <= t < |M| ==> M[t] in Q;
      SplicedWithin(N, k, M, Repr, Q);
      LinkSegment(N, C, k, ownPrev, pos, M, W, first, last);
      size := size + other.size;
      nodes, contents, Repr := N[..k + 1] + M[1..] + N[k + 1..], C[..k] + W + C[k..], Repr + Q;
    }

    /**
     * splice(pos, other, it): the entry at it is cut out of other and linked
     * in immediately before pos; no value is copied, this list grows by one
     * and other shrinks by one. it must not be other.end().
     */
    method SpliceOne(pos: Entry<T>, other: List<T>, it: Entry<T>)
      requires Valid() && other.Valid() && Repr !! other.Repr
      requires pos in nodes && it in other.nodes && it != other.sentinel
      modifies Repr, other.Repr
      ensures Valid() && other.Valid() && Repr !! other.Repr
      ensures sentinel == old(sentinel) && other.sentinel == old(other.sentinel)
      ensures Repr == old(Repr) + {it} && other.Repr == old(other.Repr) - {it}
      ensures var k, j := old(Index(pos)), old(other.Index(it));
        j < old(|other.contents|) &&
        contents == old(contents[..k]) + [old(other.contents[j])] + old(contents[k..]) &&
        other.contents == old(other.contents[..j]) + old(other.contents[j + 1..]) &&
        other.nodes == old(other.nodes[..j + 1]) + old(other.nodes[j + 2..]) &&
        nodes == old(nodes[..k + 1]) + [it] + old(nodes[k + 1..]) && Index(it) == k
    {
      ghost var v := other.contents[other.Index(it)];
      var prevPtr := pos.prev;
      other.Detach(it);
      it.next, it.prev := pos, prevPtr;
      LinkBefore(pos, it, v);
    }

    /**
     * splice(pos, *this, it) as std::list defines it: the entry at it moves
     * to immediately before pos within this list, and nothing happens when
     * it is pos or the entry just before pos. No value is copied and the
     * size stays the same.
     */
    method SpliceWithin(pos: Entry<T>, it: Entry<T>)
      requires Valid() && pos in nodes && it in nodes && it != sentinel
      modifies Repr
      ensures Valid() && sentinel == old(sentinel) && Repr == old(Repr)
      ensures var j, k := old(Index(it)), old(Index(pos));
        j < old(|contents|) && contents == MoveBefore(old(contents), j, k)
    {
      if it == pos || it.next == pos {
        SuccessorIndex(it);
        MoveBeforeInPlace(contents, Index(it), Index(pos));
        return;
      }
      SuccessorIndex(it);
      MoveEntry(pos, it, Index(it), Index(pos));
    }

    /** The entry after a value's entry sits at the next position. */
    lemma SuccessorIndex(e: Entry<T>)
      requires Valid() && e in nodes && e != sentinel
      ensures Index(e) < |contents| && e.next in nodes && Index(e.next) == Index(e) + 1
    {
      var j := Index(e);
      assert e == nodes[j + 1] && e.next == At(j + 1);
      IndexAt(j + 1);
    }

    /** The moving half of SpliceWithin: the entry at j is cut out, then linked in again before position k. */
    method MoveEntry(pos: Entry<T>, it: Entry<T>, ghost j: nat, ghost k: nat)
      requires Valid() && j < |contents| && k <= |contents| && k != j && k != j + 1
      requires it == At(j) && pos == At(k)
      modifies Repr
      ensures Valid() && sentinel == old(sentinel) && Repr == old(Repr)
      ensures contents == MoveBefore(old(contents), j, k)
    {
      ghost var N, C := nodes, contents;
      ghost var v := C[j];
      ghost var k' := if j < k then k - 1 else k;
      assert it == N[j + 1] && it in nodes && it.value == Some(v);
      IndexAt(j);
      Detach(it);
      DroppedIndex(N, j, k, pos);
      ghost var D := contents;
      assert D == C[..j] + C[j + 1..];
      Reinsert(pos, it, v, k');
      MoveBeforeSplit(C, j, k);
    }

    /** Links the detached entry e, holding v, back in before position k. */
    method Reinsert(pos: Entry<T>, e: Entry<T>, ghost v: T, ghost k: nat)
      requires Valid() && k <= |contents| && pos == At(k) && e !in Repr && e.value == Some(v)
      modifies Repr, e
      ensures Valid() && sentinel == old(sentinel) && Repr == old(Repr) + {e}
      ensures contents == old(contents[..k]) + [v] + old(contents[k..])
    {
      IndexAt(k);
      e.next, e.prev := pos, pos.prev;
      LinkBefore(pos, e, v);
    }

    /**
     * Once the entry N[j + 1] is dropped from the entries N, the entry that
     * was at position k moves down one place if it came after the dropped one.
     */
    lemma DroppedIndex(N: seq<Entry<T>>, j: nat, k: nat, pos: Entry<T>)
      requires Valid() && j + 1 < |N| && nodes == N[..j + 1] + N[j + 2..] && k < |N| && k != j
      requires pos == (if k == |N| - 1 then N[0] else N[k + 1])
      ensures var k' := if j < k then k - 1 else k;
        k' <= |contents| && pos == At(k')
    {
      var k' := if j < k then k - 1 else k;
      assert pos == At(k') by {
        if k < |N| - 1 {
          DropShift(N, j, k + 1);
        }
      }
    }

    /**
     * splice(pos, other, first, last): splice(pos, other, first++) until
     * first reaches last, so other's [first, last) arrives in order before
     * pos. last must not come before first in other, or first would reach
     * other.end().
     */
    method SpliceRange(pos: Entry<T>, other: List<T>, first: Entry<T>, last: Entry<T>)
      requires Valid() && other.Valid() && Repr !! other.Repr && pos in nodes
      requires first in other.nodes && last in other.nodes && other.Index(first) <= other.Index(last)
      modifies Repr, other.Repr
      ensures Valid() && other.Valid() && Repr !! other.Repr
      ensures sentinel == old(sentinel) && other.sentinel == old(other.sentinel)
      ensures Repr + other.Repr == old(Repr + other.Repr) && old(Repr) <= Repr
      ensures var k, i, j := old(Index(pos)), old(other.Index(first)), old(other.Index(last));
        contents == old(contents[..k]) + old(other.contents[i..j]) + old(contents[k..]) &&
        other.contents == old(other.contents[..i]) + old(other.contents[j..])
    {
      ghost var C, W, k, i, j := contents, other.contents, Index(pos), other.Index(first), other.Index(last);
      ghost var m: nat := 0;
      var cur := first;
      while cur != last
        invariant Valid() && other.Valid() && Repr !! other.Repr
        invariant sentinel == old(sentinel) && other.sentinel == old(other.sentinel)
        invariant Repr + other.Repr == old(Repr + other.Repr) && old(Repr) <= Repr
        invariant SpliceProgress(other, pos, cur, last, C, W, k, i, j, m)
        decreases j - i - m
      {
        cur := SpliceStep(pos, other, cur, last, C, W, k, i, j, m);
        m := m + 1;
      }
      SpliceDone(other, pos, cur, last, C, W, k, i, j, m);
    }

    /** When cur has reached last, all of w[i..j] has been moved. */
    lemma SpliceDone(other: List<T>, pos: Entry<T>, cur: Entry<T>, last: Entry<T>,
                     c: seq<T>, w: seq<T>, k: nat, i: nat, j: nat, m: nat)
      requires Valid() && other.Valid() && SpliceProgress(other, pos, cur, last, c, w, k, i, j, m) && cur == last
      ensures contents == c[..k] + w[i..j] + c[k..] && other.contents == w[..i] + w[j..]
    {
      other.IndexAt(i);
      other.IndexAt(j - m);
      assert i + m == j;
    }

    /**
     * Where splice(pos, other, first, last) stands after moving m entries:
     * w[i..i + m] has left other and sits before pos, whose index in this
     * list's c was k; cur and last refer to their entries in other.
     */
    ghost predicate SpliceProgress(other: List<T>, pos: Entry<T>, cur: Entry<T>, last: Entry<T>,
                                   c: seq<T>, w: seq<T>, k: nat, i: nat, j: nat, m: nat)
      reads this, Repr, other, other.Repr
      requires Valid() && other.Valid()
    {
      i + m <= j <= |w| && k <= |c| &&
      contents == c[..k] + w[i..i + m] + c[k..] && other.contents == w[..i] + w[i + m..] &&
      pos == At(k + m) && cur == other.At(i) && last == other.At(j - m)
    }

    /** One pass of the loop of splice(pos, other, first, last), stated on SpliceProgress. */
    method SpliceStep(pos: Entry<T>, other: List<T>, cur: Entry<T>, last: Entry<T>,
                      ghost c: seq<T>, ghost w: seq<T>, ghost k: nat, ghost i: nat, ghost j: nat, ghost m: nat)
      returns (next: Entry<T>)
      requires Valid() && other.Valid() && Repr !! other.Repr && cur != last
      requires SpliceProgress(other, pos, cur, last, c, w, k, i, j, m)
      modifies Repr, other.Repr
      ensures Valid() && other.Valid() && Repr !! other.Repr
      ensures sentinel == old(sentinel) && other.sentinel == old(other.sentinel)
      ensures Repr + other.Repr == old(Repr + other.Repr) && old(Repr) <= Repr
      ensures SpliceProgress(other, pos, next, last, c, w, k, i, j, m + 1)
    {
      ghost var D, E := contents, other.contents;
      other.IndexAt(i);
      other.IndexAt(j - m);
      next := SpliceVisit(pos, other, cur, k + m, i, last, j - m);
      MoveBehind(c, k, w, i, m, D, E);
      DropOneMore(w, i, m, E);
    }

    /**
     * One step of splice(pos, other, first, last): splice(pos, other,
     * first++), with last still in other behind first.
     */
    method SpliceVisit(pos: Entry<T>, other: List<T>, cur: Entry<T>, ghost p: nat, ghost i: nat,
                       last: Entry<T>, ghost l: nat) returns (next: Entry<T>)
      requires Valid() && other.Valid() && Repr !! other.Repr
      requires p <= |contents| && pos == At(p)
      requires i < l <= |other.contents| && cur == other.At(i) && last == other.At(l)
      modifies Repr, other.Repr
      ensures Valid() && other.Valid() && Repr !! other.Repr
      ensures sentinel == old(sentinel) && other.sentinel == old(other.sentinel)
      ensures Repr + other.Repr == old(Repr + other.Repr) && old(Repr) <= Repr
      ensures contents == old(contents[..p]) + [old(other.contents[i])] + old(contents[p..])
      ensures other.contents == old(other.contents[..i]) + old(other.contents[i + 1..])
      ensures pos == At(p + 1) && next == other.At(i) && last == other.At(l - 1)
    {
      ghost var N, M := nodes, other.nodes;
      IndexAt(p);
      other.IndexAt(i);
      other.IndexAt(l);
      next := other.Increment(cur);
      SpliceOne(pos, other, cur);
      if l < |M| - 1 {
        DropShift(M, i, l + 1);
      }
      if i + 2 < |M| {
        DropShift(M, i, i + 2);
      }
      if p < |N| - 1 {
        assert pos == nodes[p + 2];
      }
    }

    // -------------------------------------------------------------------------
    // Merging

    /**
     * merge(other, comp) with the stray sentinel write of line 739 left out:
     * other's entries are linked in one by one, each in front of the first
     * remaining entry of this list that comp does not place before it;
     * merging a list into itself does nothing.
     */
    method Merge(other: List<T>, comp: (T, T) -> bool)
      requires Valid() && other.Valid() && (other == this || Repr !! other.Repr)
      modifies Repr, other.Repr
      ensures Valid() && other.Valid() && sentinel == old(sentinel) && other.sentinel == old(other.sentinel)
      ensures other == this ==> contents == old(contents)
      ensures other != this ==>
        Repr !! other.Repr && Repr <= old(Repr + other.Repr) - {other, other.sentinel} &&
        other.Repr == {other, other.sentinel} &&
        contents == Seqs.Merge(old(contents), old(other.contents), comp) && other.contents == []
    {
      if other == this {
        return;
      }
      var selfIt, q, back := MergeLoop(other, comp, false);
      assert contents[..q] + contents[q..] == contents;
      MergeFinish(other);
    }

    /**
     * merge(other, comp) as written: line 739 also points the sentinel's
     * backward link at every entry it links in, wherever that lands. The
     * forward ring and the contents come out as in Merge, but the backward
     * link of the sentinel ends at the last entry taken from other.
     */
    method MergeAsWritten(other: List<T>, comp: (T, T) -> bool)
      requires Valid() && other.Valid() && (other == this || Repr !! other.Repr)
      modifies Repr, other.Repr
      ensures Chain(nodes, contents, sentinel) && size == |contents| && other.Valid()
      ensures other == this ==> contents == old(contents) && Valid()
      ensures other != this ==>
        contents == Seqs.Merge(old(contents), old(other.contents), comp) && other.contents == [] &&
        (old(other.contents) != [] ==> sentinel.prev == old(other.nodes[|other.nodes| - 1]))
      ensures other != this && old(other.contents) != [] ==>
        (Ring(nodes, contents, sentinel) ==> contents[|contents| - 1] == old(other.contents[|other.contents| - 1]))
    {
      if other == this {
        return;
      }
      ghost var W := other.contents;
      var selfIt, q, back := MergeLoop(other, comp, true);
      assert contents[..q] + contents[q..] == contents;
      MergeFinish(other);
      if W != [] {
        BackLinkHolds(nodes, contents, sentinel, W[|W| - 1]);
      }
    }

    // -------------------------------------------------------------------------
    // Sorting

    /**
     * sort(compare): the first size / 2 values are spliced off into a new
     * list, both lists are sorted, and the new list is merged back into this
     * one. No entry is created or lost.
     */
    method Sort(comp: (T, T) -> bool)
      requires Valid()
      modifies Repr
      ensures Valid() && sentinel == old(sentinel) && Repr <= old(Repr)
      ensures contents == Seqs.Sort(old(contents), comp)
      decreases |contents|
    {
      if size < 2 {
        return;
      }
      ghost var C := contents;
      var other := TakeFront(size / 2);
      Sort(comp);
      other.Sort(comp);
      Merge(other, comp);
    }

    /**
     * The first half of sort(): a new list takes over the first n values, by
     * other.splice(other.end(), *this, begin(), it) with it n steps on.
     */
    method TakeFront(n: nat) returns (other: List<T>)
      requires Valid() && n <= |contents|
      modifies Repr
      ensures Valid() && other.Valid() && Repr !! other.Repr && fresh(other) && fresh(other.sentinel)
      ensures sentinel == old(sentinel) && Repr + other.Repr == old(Repr) + {other, other.sentinel}
      ensures contents == old(contents[n..]) && other.contents == old(contents[..n])
    {
      other := new List<T>();
      var it := Advance(Begin(), n);
      other.SpliceRange(other.End(), this, Begin(), it);
    }

    // -------------------------------------------------------------------------
    // Comparison operators

    /**
     * std::lexicographical_compare(begin(), end(), other.begin(), other.end(),
     * comp): both ranges are walked together until one runs out or comp
     * tells the current values apart.
     */
    method LexCompare(other: List<T>, comp: (T, T) -> bool) returns (r: bool)
      requires Valid() && other.Valid()
      ensures r == Seqs.LexicographicalCompare(contents, other.contents, comp)
    {
      var it1, it2 := Begin(), other.Begin();
      ghost var i := 0;
      while it1 != sentinel && it2 != other.sentinel
        invariant it1 in nodes && it2 in other.nodes && Index(it1) == i && other.Index(it2) == i
        invariant Seqs.LexicographicalCompare(contents, other.contents, comp) ==
                  Seqs.LexicographicalCompare(contents[i..], other.contents[i..], comp)
        decreases |contents| - i
      {
        var x, y := Deref(it1), other.Deref(it2);
        if comp(x, y) {
          return true;
        }
        if comp(y, x) {
          return false;
        }
        assert contents[i..][1..] == contents[i + 1..] && other.contents[i..][1..] == other.contents[i + 1..];
        it1, it2 := Increment(it1), other.Increment(it2);
        i := i + 1;
      }
      r := it1 == sentinel && it2 != other.sentinel;
    }

    /** operator<(other): lexicographical_compare with std::less, here lt. */
    method Less(other: List<T>, lt: (T, T) -> bool) returns (r: bool)
      requires Valid() && other.Valid()
      ensures r == Seqs.LexicographicalCompare(contents, other.contents, lt)
    {
      r := LexCompare(other, lt);
    }

    /** operator<=(other) as the standard containers define it: !(other < *this). */
    method LessEqual(other: List<T>, lt: (T, T) -> bool) returns (r: bool)
      requires Valid() && other.Valid()
      ensures r == !Seqs.LexicographicalCompare(other.contents, contents, lt)
    {
      var greater := other.LexCompare(this, lt);
      r := !greater;
    }

    /** operator>=(other) as the standard containers define it: !(*this < other). */
    method GreaterEqual(other: List<T>, lt: (T, T) -> bool) returns (r: bool)
      requires Valid() && other.Valid()
      ensures r == !Seqs.LexicographicalCompare(contents, other.contents, lt)
    {
      var less := LexCompare(other, lt);
      r := !less;
    }

    /** operator>(other) as the standard containers define it: other < *this. */
    method Greater(other: List<T>, lt: (T, T) -> bool) returns (r: bool)
      requires Valid() && other.Valid()
      ensures r == Seqs.LexicographicalCompare(other.contents, contents, lt)
    {
      r := other.LexCompare(this, lt);
    }

    /**
     * operator==(other) as written: after the size check both cursors start
     * at this list's begin(), so every value is compared with itself and
     * any two lists of one size come out equal.
     */
    method EqualAsWritten(other: List<T>) returns (r: bool)
      requires Valid() && other.Valid()
      ensures r <==> |contents| == |other.contents|
    {
      if size != other.size {
        return false;
      }
      var it1, it2 := Begin(), Begin();
      while it1 != sentinel
        invariant it1 in nodes && it2 == it1
        decreases |contents| - Index(it1)
      {
        if Deref(it1) != Deref(it2) {
          return false;
        }
        it1, it2 := Increment(it1), Increment(it2);
      }
      r := true;
    }

    /** operator==(other) with the second cursor on other: equal sizes and equal values in order. */
    method Equal(other: List<T>) returns (r: bool)
      requires Valid() && other.Valid()
      ensures r <==> contents == other.contents
    {
      if size != other.size {
        return false;
      }
      var it1, it2 := Begin(), other.Begin();
      ghost var i := 0;
      while it1 != sentinel
        invariant it1 in nodes && it2 in other.nodes && Index(it1) == i && other.Index(it2) == i
        invariant contents[..i] == other.contents[..i]
        decreases |contents| - i
      {
        if Deref(it1) != other.Deref(it2) {
          return false;
        }
        assert contents[..i + 1] == contents[..i] + [contents[i]];
        assert other.contents[..i + 1] == other.contents[..i] + [other.contents[i]];
        it1, it2 := Increment(it1), other.Increment(it2);
        i := i + 1;
      }
      assert contents == contents[..i] && other.contents == other.contents[..i];
      r := true;
    }

    /**
     * operator!=(other) as written: the negation of the as-written
     * operator==, so it holds exactly when the sizes differ.
     */
    method NotEqualAsWritten(other: List<T>) returns (r: bool)
      requires Valid() && other.Valid()
      ensures r <==> |contents| != |other.contents|
    {
      var equal := EqualAsWritten(other);
      r := !equal;
    }

    /** operator!=(other) as intended: the negation of the corrected operator==. */
    method NotEqual(other: List<T>) returns (r: bool)
      requires Valid() && other.Valid()
      ensures r <==> contents != other.contents
    {
      var equal := Equal(other);
      r := !equal;
    }

    /**
     * The loop of merge(other, comp), up to where other is emptied: every
     * entry of other has been linked into this list, and the entries of
     * this list from nodes[q] on still have to be merged with nothing.
     * When not asWritten the ring is whole; when asWritten the sentinel's
     * backward link is back, which is other's last entry if there was one.
     */
    method MergeLoop(other: List<T>, comp: (T, T) -> bool, asWritten: bool)
      returns (selfIt: Entry<T>, ghost q: nat, ghost back: Entry<T>)
      requires Valid() && other.Valid() && other != this && Repr !! other.Repr
      modifies Repr, other.Repr - {other, other.sentinel}
      ensures MergeProgress(other, comp, selfIt, other.sentinel, !asWritten, back,
                            old(contents), old(other.contents), old(Repr), q, [], [])
      ensures sentinel == old(sentinel) && size == old(size) && unchanged(other, other.sentinel)
      ensures asWritten && old(other.contents) != [] ==>
        back == old(other.nodes[|other.nodes| - 1]) && back.value == Some(old(other.contents[|other.contents| - 1]))
    {
      ghost var A, W, M := contents, other.contents, other.nodes;
      ChainPending(M, W, other.sentinel);
      selfIt := sentinel;
      var otherIt: Entry<T> := other.sentinel.next;
      ghost var ps, rest := M[1..], W;
      q, back := 0, nodes[|nodes| - 1];
      while otherIt != other.sentinel
        invariant MergeProgress(other, comp, selfIt, otherIt, !asWritten, back, A, W, old(Repr), q, ps, rest)
        invariant sentinel == old(sentinel) && size == |A| && unchanged(other, other.sentinel)
        invariant W != [] ==> (if ps == [] then back else ps[|ps| - 1]) == M[|M| - 1]
        invariant W != [] ==> if rest == [] then back.value == Some(W[|W| - 1]) else rest[|rest| - 1] == W[|W| - 1]
        decreases |ps|, |nodes| - q
      {
        selfIt, otherIt, back, q, ps, rest := MergeVisit(other, comp, selfIt, otherIt, asWritten, back, A, W, old(Repr), q, ps, rest);
      }
    }

    /**
     * The end of merge(other, comp), once every entry of other is linked into
     * this list: the sizes are moved over and other's sentinel is linked to
     * itself again. The entries of this list are left as they are.
     */
    method MergeFinish(other: List<T>)
      requires this in Repr && (forall n :: n in nodes ==> n in Repr)
      requires other !in Repr && other.sentinel !in Repr && other.sentinel.value == None
      requires Chain(nodes, contents, sentinel) && size + other.size == |contents|
      modifies this, other, other.sentinel
      ensures Chain(nodes, contents, sentinel) && size == |contents| && sentinel.prev == old(sentinel.prev)
      ensures nodes == old(nodes) && contents == old(contents) && Repr == old(Repr) && sentinel == old(sentinel)
      ensures other.Valid() && other.contents == [] && other.Repr == {other, other.sentinel}
      ensures other.sentinel == old(other.sentinel)
    {
      size := size + other.size;
      other.Clear();
    }

    /**
     * Where merge(other, comp) stands: ps are other's entries not yet taken,
     * holding rest and still chained forward to other's sentinel, otherIt
     * is the first of them (the sentinel once all are taken), and selfIt is
     * nodes[q]. Merging what follows selfIt with rest completes the merge of
     * a and w. With ring the ring is whole; without it (as written) only the
     * forward chain is, and the sentinel's backward link is back.
     */
    ghost predicate MergeProgress(other: List<T>, comp: (T, T) -> bool, selfIt: Entry<T>, otherIt: Entry<T>,
                                  ring: bool, back: Entry<T>, a: seq<T>, w: seq<T>, r0: set<object>,
                                  q: nat, ps: seq<Entry<T>>, rest: seq<T>)
      reads this, Repr, other, other.sentinel, ps
    {
      this in Repr && (forall n :: n in nodes ==> n in Repr) && Repr <= r0 + other.Repr &&
      other !in Repr && other.sentinel !in Repr && other.sentinel.value == None && other.sentinel !in ps &&
      Distinct(ps) && (forall x :: x in ps ==> x in other.Repr && x !in Repr) &&
      Pending(ps, rest, other.sentinel) && otherIt == (if ps == [] then other.sentinel else ps[0]) &&
      |nodes| == |contents| + 1 && q < |nodes| && selfIt == nodes[q] &&
      (if ring then Ring(nodes, contents, sentinel) else Chain(nodes, contents, sentinel) && sentinel.prev == back) &&
      Seqs.Merge(a, w, comp) == contents[..q] + Seqs.Merge(contents[q..], rest, comp)
    }

    /**
     * One pass of merge's loop: otherIt is linked in after selfIt when
     * selfIt is the last entry or comp does not place the entry after
     * selfIt before otherIt, and selfIt moves on otherwise.
     */
    method MergeVisit(other: List<T>, comp: (T, T) -> bool, selfIt: Entry<T>, otherIt: Entry<T>, asWritten: bool,
                      ghost back: Entry<T>, ghost a: seq<T>, ghost w: seq<T>, ghost r0: set<object>,
                      ghost q: nat, ghost ps: seq<Entry<T>>, ghost rest: seq<T>)
      returns (selfIt': Entry<T>, otherIt': Entry<T>, ghost back': Entry<T>, ghost q': nat,
               ghost ps': seq<Entry<T>>, ghost rest': seq<T>)
      requires MergeProgress(other, comp, selfIt, otherIt, !asWritten, back, a, w, r0, q, ps, rest)
      requires otherIt != other.sentinel
      modifies Repr, otherIt
      ensures MergeProgress(other, comp, selfIt', otherIt', !asWritten, back', a, w, r0, q', ps', rest')
      ensures size == old(size) && sentinel == old(sentinel) && ps != []
      ensures (ps' == ps[1..] && rest' == rest[1..] && back' == ps[0] && back'.value == Some(rest[0])) ||
              (ps' == ps && rest' == rest && back' == back && |nodes| - q' < old(|nodes|) - q)
    {
      DistinctPairs(nodes);
      var selfNext := selfIt.next;
      assert selfNext == if q == |nodes| - 1 then sentinel else nodes[q + 1];
      if selfNext == sentinel || !comp(selfNext.value.value, otherIt.value.value) {
        MergeTakeOther(contents, q, rest, comp);
        otherIt' := MergeLink(other, comp, selfIt, otherIt, asWritten, back, a, w, r0, q, ps, rest);
        selfIt', back', q', ps', rest' := selfIt, otherIt, q, ps[1..], rest[1..];
      } else {
        MergeKeepSelf(contents, q, rest, comp);
        selfIt', otherIt', back', q', ps', rest' := selfNext, otherIt, back, q + 1, ps, rest;
      }
    }

    /**
     * The linking branch of MergeVisit: otherIt goes in after selfIt, at
     * index q of the contents, and the next entry of other is returned.
     */
    method MergeLink(other: List<T>, comp: (T, T) -> bool, selfIt: Entry<T>, otherIt: Entry<T>, asWritten: bool,
                     ghost back: Entry<T>, ghost a: seq<T>, ghost w: seq<T>, ghost r0: set<object>,
                     ghost q: nat, ghost ps: seq<Entry<T>>, ghost rest: seq<T>)
      returns (otherNext: Entry<T>)
      requires MergeProgress(other, comp, selfIt, otherIt, !asWritten, back, a, w, r0, q, ps, rest)
      requires otherIt != other.sentinel && (q == |contents| || !comp(contents[q], rest[0]))
      modifies Repr, otherIt
      ensures nodes == old(nodes[..q + 1]) + [otherIt] + old(nodes[q + 1..])
      ensures contents == old(contents[..q]) + [rest[0]] + old(contents[q..])
      ensures Repr == old(Repr) + {otherIt} && unchanged(other, other.sentinel)
      ensures if !asWritten then Ring(nodes, contents, sentinel) else Chain(nodes, contents, sentinel) && sentinel.prev == otherIt
      ensures Pending(ps[1..], rest[1..], other.sentinel) && otherNext == (if |ps| == 1 then other.sentinel else ps[1])
      ensures size == old(size) && sentinel == old(sentinel) && otherIt.value == Some(rest[0])
    {
      ghost var N, C := nodes, contents;
      nodes, contents, Repr := N[..q + 1] + [otherIt] + N[q + 1..], C[..q] + [rest[0]] + C[q..], Repr + {otherIt};
      otherNext := LinkPending(N, C, q, selfIt, otherIt, sentinel, ps, rest, other.sentinel, asWritten);
    }
  }

  /**
   * Merging {1} into {2} with std::less as written: the list now holds
   * 1, 2, but the sentinel's backward link was left at the entry of 1, so
   * the ring invariant, and with it back(), is broken.
   */
  method MergeAsWrittenCounterexample() returns (a: List<int>)
    ensures a.contents == [1, 2] && !a.Valid()
  {
    a := new List<int>.FromSeq([2]);
    var b := new List<int>.FromSeq([1]);
    a.MergeAsWritten(b, (x: int, y: int) => x < y);
  }

  /**
   * splice(pos, *this, it) as written, with it the entry just before pos in
   * {1, 2, 3}: prevPtr is read before it is cut out, so prevPtr is it and the
   * last two writes link it to itself. Walking forward from the sentinel
   * now meets 2 first, the entry holding 1 is out of the forward ring
   * although the size still counts it, and the ring invariant is gone.
   */
  method SpliceWithinAsWrittenCounterexample() returns (a: List<int>, it: Entry<int>)
    ensures it.value == Some(1) && it.next == it && a.sentinel.next != null && a.sentinel.next.value == Some(2) && a.size == 3
    ensures !a.Valid()
  {
    a := new List<int>.FromSeq([1, 2, 3]);
    ghost var N := a.nodes;
    assert N[0] == a.sentinel && N[0].next == N[1] && N[1].next == N[2];
    assert N[1].prev == N[0] && N[2].prev == N[1];
    assert N[1].value == Some(1) && N[2].value == Some(2);
    DistinctPairs(N);
    it := a.sentinel.next;
    var pos := it.next;
    var otherPtr, selfPtr := it, pos;
    var prevPtr := selfPtr.prev;
    otherPtr.next.prev := otherPtr.prev;
    otherPtr.prev.next := otherPtr.next;
    otherPtr.next := selfPtr;
    otherPtr.prev := prevPtr;
    prevPtr.next := otherPtr;
    selfPtr.prev := otherPtr;
    assert a.nodes == N && N[1].next != N[2];
  }

  /**
   * operator<=(other) as written, for integers: lexicographical_compare with
   * std::less_equal decides on the first values alone, so {1, 2} <= {1, 1}
   * holds and {} <= {} does not.
   */
  method LessEqualAsWritten(a: List<int>, b: List<int>) returns (r: bool)
    requires a.Valid() && b.Valid()
    ensures r <==> (a.contents == [] && b.contents != []) ||
                   (a.contents != [] && b.contents != [] && a.contents[0] <= b.contents[0])
  {
    r := a.LexCompare(b, (x: int, y: int) => x <= y);
    LessEqualAsWrittenFirstOnly(a.contents, b.contents);
  }

  /**
   * operator>=(other) as written, for integers: lexicographical_compare with
   * std::greater_equal decides on the first values alone.
   */
  method GreaterEqualAsWritten(a: List<int>, b: List<int>) returns (r: bool)
    requires a.Valid() && b.Valid()
    ensures r <==> (a.contents == [] && b.contents != []) ||
                   (a.contents != [] && b.contents != [] && a.contents[0] >= b.contents[0])
  {
    r := a.LexCompare(b, (x: int, y: int) => x >= y);
    GreaterEqualAsWrittenFirstOnly(a.contents, b.contents);
  }

  /**
   * operator>(other) as written, for integers: lexicographical_compare with
   * std::greater orders by the first differing value reversed, but a proper
   * prefix still comes out the greater one.
   */
  method GreaterAsWritten(a: List<int>, b: List<int>) returns (r: bool)
    requires a.Valid() && b.Valid()
    ensures r <==> PrefixOrFirstGreater(a.contents, b.contents)
  {
    r := a.LexCompare(b, (x: int, y: int) => x > y);
    GreaterAsWrittenIsPrefixOrFirstGreater(a.contents, b.contents);
  }

  /**
   * The two lists of the comparison test, {1, 2, 3, 4} and {1, 2, 4, 3}:
   * operator!= as written calls them not different, the corrected one does.
   */
  method NotEqualAsWrittenCounterexample() returns (asWritten: bool, corrected: bool)
    ensures !asWritten && corrected
  {
    var a := new List<int>.FromSeq([1, 2, 3, 4]);
    var b := new List<int>.FromSeq([1, 2, 4, 3]);
    asWritten := a.NotEqualAsWritten(b);
    corrected := a.NotEqual(b);
    assert a.contents[2] != b.contents[2];
  }

  /**
   * sort() as written on the already sorted {1, 2}: the front half {1} is
   * spliced off, both one-value halves are left as they are, and merging {1}
   * back in links its entry before 2 while still making it the sentinel's
   * back link. The forward contents are sorted, but back() misses the last
   * entry and the ring invariant is gone.
   */
  method SortAsWrittenCounterexample() returns (a: List<int>)
    ensures a.contents == [1, 2] && |a.nodes| == 3 && a.sentinel.prev != a.nodes[2] && !a.Valid()
  {
    a := new List<int>.FromSeq([1, 2]);
    var other := a.TakeFront(1);
    a.MergeAsWritten(other, (x: int, y: int) => x < y);
  }

  /**
   * Two one-element lists holding different values: operator== as written
   * calls them equal, the corrected comparison does not.
   */
  method EqualAsWrittenCounterexample() returns (asWritten: bool, corrected: bool)
    ensures asWritten && !corrected
  {
    var a := new List<int>.FromSeq([1]);
    var b := new List<int>.FromSeq([2]);
    asWritten := a.EqualAsWritten(b);
    corrected := a.Equal(b);
  }
}
