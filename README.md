# safelist in Dafny

A model of `safelist<T>`, a header-only C++ container with the interface of
`std::list`. It is a circular doubly linked list headed by a sentinel entry.
Each entry owns its successor through a `shared_ptr` and sees its
predecessor through a `weak_ptr`. Cursors hold `weak_ptr`s, so a cursor can
never keep an entry alive.

The model keeps the source's shape:

- `Links.Entry` is the `entry` struct: an optional value, a forward link and
  a backward link.
- `SafeList.List` is the container: the sentinel (`entryPoint`) and the size
  (`m_size`) are real fields that the methods update in place.
- Every list also carries three ghost fields: its entries in forward order
  (the sentinel first), the values they hold (`contents`), and its footprint
  `Repr`.
- `List.Valid` is the ring invariant:
  - the forward links run from the sentinel through every entry and back to
    the sentinel;
  - the backward links are the inverse of the forward links;
  - only the sentinel holds no value;
  - the entries are distinct;
  - the size equals the number of values.
- A cursor is the entry it refers to. Its position is `List.Index`.
- Every mutating operation is a method that relinks entries in place. Its
  postcondition states the new `contents` (and, where they matter, the new
  entries and the returned cursor) as a function of the old ones.
- The loop-based operations (`unique`, `remove_if`, `reverse`, `merge`,
  `sort`, `lexicographical_compare`) are specified by pure functions in
  module `Seqs`. The properties the source promises (sorted, a permutation,
  idempotent, only neighbours collapse, lexicographic order) are proved as
  lemmas about those functions.
- Pointer surgery on the ring lives in module `Links`. There, small methods
  with narrow `modifies` clauses link one entry or one segment and
  re-establish the chain predicates.

Where the code differs from `std::list`, the model follows the code. For
each divergence there is a member for the code as written and a member for
the evident intent. These differences are listed under "Findings":

- `merge` breaks the sentinel's back link;
- `operator==` compares a list with itself, and `operator!=`, its
  negation, is therefore a size test;
- `splice(pos, *this, it)` with `it` just before `pos` links that entry to
  itself;
- `<=`, `>=` and `>` pass the wrong comparators;
- `emplace_front` inserts at the second position;
- range `insert` reverses its range;
- copy-assignment to itself empties the list.

Two more places where the code is followed rather than the usual reading of
the container's contract:

- On ties, `merge` takes the element of the other list first, and tied
  elements of the other list end up in reverse order (`Seqs.MergeTieOrder`).
  So the merge is not stable.
- `sort` splices the front half, `[begin(), begin() + size()/2)`, into the
  scratch list, and merges that into the sorted back half.

Callers supply comparison and equality as function parameters (`comp`,
`pred`, `lt`, ...), as the source's template parameters do. The corrected
`operator<=`, `>=` and `>` are stated with the strict order `lt` from which
the standard derives them.

## Model

| member | source | states |
|---|---|---|
| Links.Entry.constructor | safelist.hpp:253-270 | an entry holds exactly the value and the two links it is built with |
| Links.LinkAfter | safelist.hpp:449-450 | linking a detached entry after the k-th entry of a chain gives a chain with the entry and its value at position k + 1; the sentinel's back link moves only when the entry goes last |
| Links.Unlink | safelist.hpp:473-474 | cutting an entry out leaves a chain without it and its value, and the entry keeps its own links |
| Links.LinkSegment | safelist.hpp:805-810 | linking a whole chain's entries after the k-th entry inserts their values, in order, at position k |
| Links.SwapValues | safelist.hpp:762 | exchanging the values of two entries keeps the ring and swaps the two values in the contents |
| Links.ChainPending | safelist.hpp:731-732 | the entries of another list after its sentinel form a distinct forward run holding its contents and ending at its sentinel |
| Links.PendingTail | safelist.hpp:736 | taking the first pending entry leaves a pending run of the rest, and that entry's forward link is the next one to take |
| Links.LinkPending | safelist.hpp:739-743 | merge's linking step: the next entry of the other list goes after the current one, its value enters the contents at that position, and the sentinel's back link is set to it exactly when the as-written write is kept |
| Links.SetBack | safelist.hpp:739 | setting the sentinel's back link changes nothing else in the chain |
| Links.BackLinkHolds | safelist.hpp:433-437 | if the back link points at an entry holding v and the ring is intact, the last value is v |
| SafeList.List.Clear | safelist.hpp:375-381 | clear() leaves no values and the sentinel linked to itself |
| SafeList.List.constructor | safelist.hpp:282-286 | a new list is empty and valid, with a fresh sentinel |
| SafeList.List.Fill | safelist.hpp:296-302 | safelist(count, v) holds count copies of v |
| SafeList.List.FromSeq | safelist.hpp:304-311 | safelist(first, last) holds the range's values in order |
| SafeList.List.Copy | safelist.hpp:313-316 | the copy constructor gives a fresh list with the same contents and no shared entry |
| SafeList.List.PushBackRange | safelist.hpp:308-310 | pushing back the values between two cursors of another list appends exactly that slice of its contents |
| SafeList.List.Swap | safelist.hpp:338-343 | swap exchanges the contents and the sentinels of the two lists |
| SafeList.List.AssignAsWritten | safelist.hpp:352-361 | copy-assignment as written: from another list the contents become a copy of it, and self-assignment empties the list |
| SafeList.List.Assign | safelist.hpp:352-361 | copy-assignment as intended: the contents become those of other, self-assignment included |
| SafeList.List.Size | safelist.hpp:383-387 | size() is the number of values |
| SafeList.List.Empty | safelist.hpp:414-418 | empty() holds exactly when there are no values |
| SafeList.List.Front | safelist.hpp:421-425 | front() is the first value |
| SafeList.List.Back | safelist.hpp:433-437 | back(), through the sentinel's back link, is the last value |
| SafeList.List.Begin | safelist.hpp:541-545 | begin() is at position 0 |
| SafeList.List.End | safelist.hpp:547-551 | end() is at position size() |
| SafeList.List.Increment | safelist.hpp:860-865 | ++ moves one position forward, wrapping from end() to begin() |
| SafeList.List.Advance | safelist.hpp:689-690 | std::advance(it, n) moves n positions forward |
| SafeList.List.Decrement | safelist.hpp:876-882 | -- moves one position back, wrapping from begin() to end() |
| SafeList.List.Deref | safelist.hpp:893-897 | dereferencing a cursor gives the value at its position |
| SafeList.List.CursorEqual | safelist.hpp:899-903 | two cursors into one list are equal exactly when their positions are |
| SafeList.List.PushFront | safelist.hpp:446-452 | push_front(v) makes v the first value and keeps the rest in order |
| SafeList.List.PushBack | safelist.hpp:454-461 | push_back(v) makes v the last value and keeps the rest in order |
| SafeList.List.PopFront | safelist.hpp:490-498 | pop_front() does nothing on an empty list and otherwise drops exactly the first value |
| SafeList.List.PopBack | safelist.hpp:500-509 | pop_back() does nothing on an empty list and otherwise drops exactly the last value |
| SafeList.List.Emplace | safelist.hpp:512-522 | emplace(pos, v) puts v immediately before pos, keeps every other value in order, and returns a cursor at v |
| SafeList.List.LinkBefore | safelist.hpp:516-519 | a detached entry linked before pos holds the value at pos's old position, with the rest shifted behind it |
| SafeList.List.Erase | safelist.hpp:463-479 | erase(end()) returns range_error and changes nothing; otherwise exactly the value at pos goes and the result is the entry that followed it |
| SafeList.List.Detach | safelist.hpp:473-476 | cutting an entry out drops exactly its value and leaves its forward link at the entry now at its position |
| SafeList.List.Resize | safelist.hpp:402-412 | resize(n, v) keeps the first min(size, n) values and pads with copies of v up to n |
| SafeList.List.EmplaceBack | safelist.hpp:525-530 | emplace_back(v) appends v |
| SafeList.List.EmplaceFrontAsWritten | safelist.hpp:533-538 | emplace_front as written puts v second in a non-empty list and makes it the only value of an empty one |
| SafeList.List.EmplaceFront | safelist.hpp:533-538 | emplace_front as intended puts v first |
| SafeList.List.Insert | safelist.hpp:590-600 | insert(pos, v) puts v immediately before pos and returns a cursor at it |
| SafeList.List.InsertCount | safelist.hpp:602-611 | insert(pos, n, v) puts n copies of v before pos and returns a cursor at the first of them (pos when n is 0) |
| SafeList.List.InsertRangeAsWritten | safelist.hpp:613-629 | range insert as written puts the range reversed before pos, with the result cursor at the first inserted position |
| SafeList.List.InsertRange | safelist.hpp:613-623 | range insert as intended puts the range in order before pos, with the result cursor at its first value |
| SafeList.List.InsertRangeStep | safelist.hpp:617-620 | one pass of the in-order range insert puts the next value behind the ones already inserted and before pos |
| SafeList.List.EraseRange | safelist.hpp:481-487 | erase(first, last) removes exactly the values in [first, last) and returns last; when last comes before first, everything from first on goes and erasing end() raises range_error |
| SafeList.List.EraseVisit | safelist.hpp:484 | one erase(first++) step removes the value at first unless first is end(), and keeps last pointing at the same entry |
| SafeList.List.RemoveIf | safelist.hpp:774-786 | remove_if(pred) leaves exactly Seqs.RemoveIf of the old contents |
| SafeList.List.RemoveIfVisit | safelist.hpp:779-784 | one step of remove_if erases the current value if pred accepts it and steps over it otherwise |
| SafeList.List.Remove | safelist.hpp:766-772 | remove(v) is remove_if with equality to v |
| SafeList.List.Unique | safelist.hpp:700-720 | unique(pred) leaves exactly Seqs.Unique of the old contents |
| SafeList.List.UniqueStep | safelist.hpp:712-719 | one pass of unique's loop scans one more value and keeps the kept prefix followed by what the rest of the scan keeps equal to Seqs.Unique of the old contents |
| SafeList.List.UniqueVisit | safelist.hpp:712-719 | one step of unique erases the value at it when pred(*prev, *it) holds, and otherwise moves prev to it |
| SafeList.List.Exchange | safelist.hpp:762 | exchanging the values at two positions swaps them in the contents and moves no entry |
| SafeList.List.Reverse | safelist.hpp:755-764 | reverse() leaves the reversed contents and the same entries in the same order |
| SafeList.List.ReverseStep | safelist.hpp:762 | one exchange at it++ and --rIt extends the reversed outer parts by one value on each side |
| SafeList.List.SpliceAll | safelist.hpp:794-817 | splice(pos, other) puts other's values, in order, before pos and empties other |
| SafeList.List.AttachSegment | safelist.hpp:802-813 | the linking half of splice(pos, other) moves all of other's entries before pos |
| SafeList.List.SpliceOne | safelist.hpp:819-843 | splice(pos, other, it) moves exactly the entry at it from other to before pos |
| SafeList.List.SpliceWithin | safelist.hpp:819-843 | splice(pos, *this, it) as intended moves the value at it to just before pos (Seqs.MoveBefore), and leaves the list as it is when it is pos or the entry before pos |
| SafeList.List.MoveEntry | safelist.hpp:829-838 | cutting the entry at j out and linking it in again before position k leaves Seqs.MoveBefore of the old contents |
| SafeList.List.Reinsert | safelist.hpp:833-838 | a cut-out entry pointed at pos and its predecessor, then linked in, lands at pos's position |
| SafeList.List.SpliceRange | safelist.hpp:845-851 | splice(pos, other, first, last) moves other's values in [first, last), in order, to before pos |
| SafeList.List.SpliceStep | safelist.hpp:848-850 | one pass of the range splice extends the moved run by one value |
| SafeList.List.SpliceVisit | safelist.hpp:849 | splice(pos, other, first++) moves the value at first and keeps pos and last on their entries |
| SafeList.List.Merge | safelist.hpp:722-753 | merge without the stray back-link write: a no-op on itself; otherwise the contents become Seqs.Merge of both, other is emptied, and the ring stays valid |
| SafeList.List.MergeAsWritten | safelist.hpp:722-753 | merge as written: the forward contents are Seqs.Merge of both, but the back link points at the last entry taken from other, so the ring holds only if that value is last |
| SafeList.List.Sort | safelist.hpp:678-698 | sort(comp) leaves Seqs.Sort of the old contents |
| SafeList.List.TakeFront | safelist.hpp:686-692 | splicing [begin(), begin() + n) into a fresh list splits the contents at n |
| SafeList.List.MergeLoop | safelist.hpp:731-747 | merge's loop links every entry of other in and leaves this list's contents equal to Seqs.Merge of both |
| SafeList.List.MergeFinish | safelist.hpp:749-752 | after the loop the sizes are transferred and other is cleared |
| SafeList.List.MergeVisit | safelist.hpp:735-746 | one pass of merge's loop either takes other's next entry or steps over this list's next entry, and keeps the merge still ahead unchanged |
| SafeList.List.MergeLink | safelist.hpp:738-743 | the taking branch inserts other's next value after the current position |
| SafeList.List.LexCompare | safelist.hpp:632-636 | the two-cursor loop of lexicographical_compare returns Seqs.LexicographicalCompare of the contents |
| SafeList.List.Less | safelist.hpp:632-636 | operator< is lexicographical_compare with lt |
| SafeList.List.LessEqual | safelist.hpp:638-642 | operator<= as intended is not (other < this) |
| SafeList.List.GreaterEqual | safelist.hpp:644-648 | operator>= as intended is not (this < other) |
| SafeList.List.Greater | safelist.hpp:650-654 | operator> as intended is other < this |
| SafeList.List.EqualAsWritten | safelist.hpp:656-670 | operator== as written holds exactly when the sizes are equal (values compared with an equivalence) |
| SafeList.List.Equal | safelist.hpp:656-670 | operator== as intended holds exactly when the contents are equal |
| SafeList.List.NotEqualAsWritten | safelist.hpp:672-676 | operator!= as written negates the as-written operator== and holds exactly when the sizes differ |
| SafeList.List.NotEqual | safelist.hpp:672-676 | operator!= as intended holds exactly when the contents differ |
| SafeList.LessEqualAsWritten | safelist.hpp:638-642 | operator<= as written on integers decides on the first values alone, and an empty list is <= only a non-empty one |
| SafeList.GreaterEqualAsWritten | safelist.hpp:644-648 | operator>= as written on integers decides on the first values alone, and an empty list is >= only a non-empty one |
| SafeList.GreaterAsWritten | safelist.hpp:650-654 | operator> as written on integers holds when the first differing value is larger or this list is a proper prefix of other |
| SafeList.NotEqualAsWrittenCounterexample | safelist.hpp:675 | {1,2,3,4} != {1,2,4,3} is false as written and true as intended |
| SafeList.SpliceWithinAsWrittenCounterexample | safelist.hpp:825-838 | splice(pos, *this, it) as written on {1,2,3} with it before pos: the entry holding 1 links to itself, walking forward from the sentinel meets 2 first, the size stays 3 and the ring invariant is lost |
| SafeList.EqualAsWrittenCounterexample | safelist.hpp:663 | {1} == {2} is true as written and false as intended |
| SafeList.MergeAsWrittenCounterexample | safelist.hpp:739 | merging {1} into {2} as written gives 1, 2 with a broken ring |
| SafeList.SortAsWrittenCounterexample | safelist.hpp:680-698 | sort() as written on the sorted {1, 2} splits off {1} and merges it back: the contents read 1, 2, the sentinel's back link misses the entry holding 2, and the ring invariant is lost |
| Seqs.ReverseInvolution | safelist.hpp:755-764 | reversing twice gives the original contents back |
| Seqs.SwapEndsAt | safelist.hpp:761-763 | after d exchanges the outer d values on each side are reversed and the middle is untouched |
| Seqs.SwapEndsStep | safelist.hpp:762 | one more exchange swaps the next two values inward |
| Seqs.SwapEndsAll | safelist.hpp:761 | size()/2 exchanges reverse the whole contents |
| Seqs.Copies | safelist.hpp:299-301 | n copies of v are n values, each v |
| Seqs.RemoveIfSpec | safelist.hpp:774-786 | remove_if adds nothing and leaves no value pred accepts |
| Seqs.RemoveIfKeepsRejected | safelist.hpp:774-786 | every value pred rejects keeps all of its copies |
| Seqs.RemoveIfAppend | safelist.hpp:774-786 | remove_if works value by value: it distributes over concatenation |
| Seqs.RemoveIfNothing | safelist.hpp:774-786 | with nothing to remove the contents are unchanged |
| Seqs.RemoveIfIdempotent | safelist.hpp:774-786 | removing twice removes nothing more |
| Seqs.UniqueFromSpec | safelist.hpp:712-719 | what the scan keeps comes from the input, and no kept value is collapsible into the one kept before it |
| Seqs.UniqueSpec | safelist.hpp:700-720 | unique keeps only values of the input, and no two kept neighbours are collapsible |
| Seqs.UniqueNothing | safelist.hpp:700-720 | contents without collapsible neighbours are kept whole |
| Seqs.UniqueIdempotent | safelist.hpp:700-720 | unique applied twice equals unique applied once |
| Seqs.UniqueCollapsesRunsOnly | test.cpp:171-172 | unique with == turns {8,1,5,5,2,2,3,1,7} into {8,1,5,2,3,1,7} |
| Seqs.IntOrders | safelist.hpp:129-130 | std::less and std::greater on integers are strict weak orderings |
| Seqs.MergePermutation | safelist.hpp:722-753 | merge loses and invents no value: the result is a permutation of both inputs |
| Seqs.MergeSorted | safelist.hpp:722-753 | merging two sorted sequences under a strict weak ordering gives a sorted sequence |
| Seqs.MergeTieOrder | safelist.hpp:738 | on ties other's values go first, and tied values of other come out reversed |
| Seqs.MergeTakeOther | safelist.hpp:738-743 | taking other's next value keeps the merge still ahead unchanged |
| Seqs.MergeKeepSelf | safelist.hpp:744-746 | stepping over a value that comes first keeps the merge still ahead unchanged |
| Seqs.SortPermutation | safelist.hpp:678-698 | sort is a permutation of its input |
| Seqs.SortSorted | safelist.hpp:678-698 | sort under a strict weak ordering gives a sorted sequence |
| Seqs.LexIrreflexive | safelist.hpp:632-636 | under a strict weak ordering no list is less than itself |
| Seqs.LexAsymmetric | safelist.hpp:632-636 | under a strict weak ordering a < b and b < a never both hold |
| Seqs.LexicographicalCompareIsLexLess | safelist.hpp:632-636 | with std::less on integers, lexicographical_compare is exactly the lexicographic order (first difference, or proper prefix) |
| Seqs.LexTrichotomy | safelist.hpp:632-636 | on integers, not (b < a) is exactly a < b or a == b |
| Seqs.LessEqualAsWrittenFirstOnly | safelist.hpp:638-642 | with less_equal the result depends on the first values only: {1,2} <= {1,1} and not {} <= {} |
| Seqs.GreaterEqualAsWrittenFirstOnly | safelist.hpp:644-648 | with greater_equal the result depends on the first values only: {1,1} >= {1,2} |
| Seqs.GreaterAsWrittenPrefix | safelist.hpp:650-654 | with greater a proper prefix still wins: {1} > {1,2} |
| Seqs.GreaterAsWrittenIsPrefixOrFirstGreater | safelist.hpp:650-654 | lexicographical_compare with greater on integers is exactly "larger at the first difference, or a proper prefix" |
| Seqs.MoveBeforeInPlace | safelist.hpp:819-843 | moving a value in front of itself or of its successor changes nothing, as std::list's splice(pos, *this, it) promises |
| Seqs.MoveBeforePermutation | safelist.hpp:819-843 | moving a value within the list keeps every value: the result is a permutation |
| Seqs.LessEqualIsLexLessOrEqual | safelist.hpp:638-642 | the corrected <= is the lexicographic order or equality |
| Seqs.GreaterEqualIsLexGreaterOrEqual | safelist.hpp:644-648 | the corrected >= is the reversed lexicographic order or equality |

## Left out

- Reference counting and entry lifetime are not modelled: `shared_ptr`, `weak_ptr`, the ring-breaking destructor (safelist.hpp:330-336), the release of entries by `clear` and `erase`, and the depth of chained destruction. Links are plain references, so a cursor to an erased entry is simply no longer among the list's entries; the model cannot detect stale cursors through `weak_ptr::lock`.
- The move constructor and move-assignment (safelist.hpp:318-323, 363-371) only hand over the owning handle; they are about ownership, not contents.
- `safelist(count)`, `resize(count)` and `emplace` with no arguments use `T()`. The model has no default value for `T`, so it covers only the forms that take a value.
- `reverse_iterator` adapters, `cbegin`/`cend`, `max_size()`, the `make_unique` polyfill and the iterator-compatibility aliases are library plumbing, not modelled.
- `const_iterator` is the same as `iterator` here: a cursor is an entry.
- Iterators in the source compare by entry identity even across lists. `CursorEqual` is stated for two cursors into the same list.
- SafeList.List.SpliceAll: requires two distinct lists; `splice(pos, other)` with `other == *this` is an assertion failure in the source (safelist.hpp:797).
- SafeList.List.SpliceOne, SafeList.List.SpliceRange: require two distinct lists, but the source accepts `other == *this` there, as `std::list` does. Within one list, `splice(pos, *this, it)` works as a move when `it` is neither `pos` nor the entry before `pos`; when `it` is the entry before `pos`, `prevPtr` is `it` itself and the writes at safelist.hpp:834-838 link `it` to itself, and when `it` is `pos` the entry before `pos` ends up pointing at `pos`, which points at itself. Either way the ring breaks (see Findings). The same-list single move is `SpliceWithin`; the same-list range splice is not modelled.
- SafeList.List.PushBack, SafeList.List.Emplace, SafeList.List.Merge, SafeList.List.MergeAsWritten, SafeList.List.SpliceOne: the chained assignments `a = b = make_shared(...)` at safelist.hpp:459, 517, 739, 740 and 838 are read with C++17's rule that the right-hand assignment happens first. The header also builds as C++11/14 (the `make_unique` fallback at safelist.hpp:13-22), where the two sides of the overloaded `=` are indeterminately sequenced; at 517, evaluating `realPos->next->next` first would set the back link of the wrong entry. The model does not cover that order.
- SafeList.List.EqualAsWritten, SafeList.List.NotEqualAsWritten, SafeList.List.Equal, SafeList.List.NotEqual: values are compared with Dafny's `==`, which is an equivalence. The source uses `T`'s own `operator!=` (safelist.hpp:664); for a `T` whose `!=` is not irreflexive (a floating-point NaN), the as-written `==` can be false on lists of equal size. The claims hold for `T` whose equality is an equivalence.
- SafeList.List.SpliceRange: requires `first` not to come after `last`; otherwise the source's loop runs through `other.end()`, and that behaviour is not modelled.
- SafeList.List.MergeAsWritten: when `other` is empty nothing is linked, and the contract says nothing about the back link beyond the chain it keeps.
- SafeList.List.Sort: calls the corrected `Merge`, so its contract promises a valid ring, which the sort as written does not always leave. The merge at safelist.hpp:739 makes every entry it links the sentinel's back link. The final merge of `sort` always links at least one entry, which overwrites whatever the recursive sorts left, so the back link ends at the last entry of the sorted front half `[begin(), begin() + size()/2)`. On ties the merge puts the front half's entry first, and tied front-half entries come out reversed (`Seqs.MergeTieOrder`). Reading the source, this gives two conditions:
  - the ring survives exactly when the greatest value under `comp` is held by a single entry and that entry is in the front half;
  - the value `back()` returns is wrong exactly when the front half's greatest value is less than the back half's.

  Two examples:
  - `sort()` on {1, 1} leaves the back link on the first entry: `back()` still returns 1, but the ring is broken.
  - `sort()` on {2, 2, 1, 1} gives the forward order 1, 1, 2, 2 with the back link on the third entry.

  The model proves only the {1, 2} case (`SafeList.SortAsWrittenCounterexample`), where `back()` returns 1. The general conditions above are not proved, because `SafeList.List.MergeAsWritten` does not state the order of the entries.
- SafeList.List.Merge, SafeList.List.Sort: a comparator is any total function of two values. Sortedness of the result (`Seqs.MergeSorted`, `Seqs.SortSorted`) is proved for strict weak orderings, as the standard requires of `comp`.
- SafeList.LessEqualAsWritten, SafeList.GreaterEqualAsWritten, SafeList.GreaterAsWritten, Seqs.LexicographicalCompareIsLexLess, Seqs.LexTrichotomy and the lemmas about the as-written `<=`, `>=` and `>` are stated for integers with their built-in operators, which play the roles of `std::less_equal`, `std::greater_equal`, `std::greater` and `std::less`; for another `T` the as-written operators are `LexCompare` with the corresponding comparator.
- `size_type` is unbounded here; the source's `m_size` is a `std::size_t` that would wrap after 2^64 insertions.
- test.cpp and stress.cpp are test and benchmark drivers. Two things are taken from test.cpp: the `unique` example (test.cpp:171-172, `Seqs.UniqueCollapsesRunsOnly`) and the two lists of the comparison test, {1,2,3,4} and {1,2,4,3} (test.cpp:47-51, `SafeList.NotEqualAsWrittenCounterexample`).

## Findings

| source | as written | input that shows it | evidently intended | confidence | as-written member | corrected member |
|---|---|---|---|---|---|---|
| safelist.hpp:739 | every entry that merge links in becomes the sentinel's back link | merge {1} into {2} with std::less: the list reads 1, 2 but back() reaches 1 | only an entry linked in at the end becomes the back link | not executed | SafeList.MergeAsWrittenCounterexample | SafeList.List.Merge |
| safelist.hpp:697 | sort() ends with the as-written merge, whose last link from the front half becomes the back link | sort() on {1,2}, or on any sorted list of distinct values: back() reaches the largest front-half value (1 for {1,2}) | back() reaches the largest value | not executed | SafeList.SortAsWrittenCounterexample | SafeList.List.Sort |
| safelist.hpp:663 | the second cursor starts at this list's begin(), so each value is compared with itself | {1} == {2} is true | the second cursor starts at other.begin() | not executed | SafeList.EqualAsWrittenCounterexample | SafeList.List.Equal |
| safelist.hpp:675 | operator!= negates the as-written operator==, so it only compares sizes | {1,2,3,4} != {1,2,4,3} is false, and the source's own comparison test asserts it true | the contents differ | not executed | SafeList.NotEqualAsWrittenCounterexample | SafeList.List.NotEqual |
| safelist.hpp:638-642 | operator<= passes std::less_equal to lexicographical_compare | {1,2} <= {1,1} is true and {} <= {} is false | !(other < *this) | not executed | SafeList.LessEqualAsWritten | SafeList.List.LessEqual |
| safelist.hpp:644-648 | operator>= passes std::greater_equal to lexicographical_compare | {1,1} >= {1,2} is true | !(*this < other) | not executed | SafeList.GreaterEqualAsWritten | SafeList.List.GreaterEqual |
| safelist.hpp:650-654 | operator> passes std::greater to lexicographical_compare | {1} > {1,2} is true | other < *this | not executed | SafeList.GreaterAsWritten | SafeList.List.Greater |
| safelist.hpp:825-838 | splice(pos, other, it) reads prevPtr before cutting it out, and accepts other == *this | splice(pos, l, it) on l = {1,2,3} with it at 1 and pos at 2: the entry holding 1 points at itself and is no longer reached walking forward | no change when it is pos or the entry before pos, otherwise a move within the list | not executed | SafeList.SpliceWithinAsWrittenCounterexample | SafeList.List.SpliceWithin |
| safelist.hpp:537 | emplace_front emplaces before ++begin() | emplace_front(0) on {1,2} gives {1,0,2} | emplace before begin() | not executed | SafeList.List.EmplaceFrontAsWritten | SafeList.List.EmplaceFront |
| safelist.hpp:617-620 | each value of the range is emplaced before the one inserted just before it | insert(end(), {1,2}) on {} gives {2,1} | the range in order before pos | not executed | SafeList.List.InsertRangeAsWritten | SafeList.List.InsertRange |
| safelist.hpp:355 | copy-assignment clears the list before copying other | t = t leaves t empty | self-assignment leaves the list unchanged | not executed | SafeList.List.AssignAsWritten | SafeList.List.Assign |
