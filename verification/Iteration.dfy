/**
 The loops of list.h and avl.h that run over a list while it is being taken apart. What the
 loop body does is an input: `del` holds the elements it unlinks when they come up, and
 unlinked or freed elements lose their links, as list_del makes them do.
 */
module Iteration {
  import opened Basics
  import opened IntrusiveList

  /** The first i elements without those in `del`. */
  ghost function KeptOf(s: seq<ListHead>, i: nat, del: set<ListHead>): seq<ListHead>
    requires i <= |s|
  {
    if i == 0 then []
    else KeptOf(s, i - 1, del) + if s[i - 1] in del then [] else [s[i - 1]]
  }

  ghost function Kept(s: seq<ListHead>, del: set<ListHead>): seq<ListHead> {
    KeptOf(s, |s|, del)
  }

  lemma {:induction false} KeptMember(s: seq<ListHead>, i: nat, del: set<ListHead>, x: ListHead)
    requires i <= |s|
    ensures x in KeptOf(s, i, del) <==> x in s[..i] && x !in del
    decreases i
  {
    if i > 0 {
      KeptMember(s, i - 1, del, x);
      assert s[..i] == s[..i - 1] + [s[i - 1]];
    }
  }

  /** The list when the first i elements have been visited. */
  ghost function Remaining(s: seq<ListHead>, i: nat, del: set<ListHead>): seq<ListHead>
    requires i <= |s|
  {
    KeptOf(s, i, del) + s[i..]
  }

  lemma RemainingNext(s: seq<ListHead>, i: nat, del: set<ListHead>)
    requires i < |s|
    ensures
      var c, k := Remaining(s, i, del), |KeptOf(s, i, del)|;
      && k < |c| && c[k] == s[i]
      && Remaining(s, i + 1, del) == if s[i] in del then c[..k] + c[k + 1..] else c
  {
    assert s[i..] == [s[i]] + s[i + 1..];
  }

  lemma RemainingSubset(s: seq<ListHead>, i: nat, del: set<ListHead>)
    requires i <= |s|
    ensures forall x :: x in Remaining(s, i, del) ==> x in s
  {
    forall x | x in Remaining(s, i, del)
      ensures x in s
    {
      KeptMember(s, i, del, x);
    }
  }

  lemma HeadIsNoMember(head: ListHead, s: seq<ListHead>)
    requires Distinct([head] + s)
    ensures head !in s && Distinct(s)
  {
    assert forall m :: 0 <= m < |s| ==> s[m] == ([head] + s)[m + 1];
    assert ([head] + s)[0] == head;
  }

  lemma VisitedAndDeletedAreGone(head: ListHead, s: seq<ListHead>, i: nat, del: set<ListHead>, j: nat)
    requires Distinct([head] + s) && j < i <= |s| && s[j] in del
    ensures s[j] !in [head] + Remaining(s, i, del)
  {
    KeptMember(s, i, del, s[j]);
    HeadIsNoMember(head, s);
  }

  /** The i-th element of the list, or its head past the end. */
  ghost function Nth(head: ListHead, s: seq<ListHead>, i: nat): ListHead {
    if i < |s| then s[i] else head
  }

  /** Until it is visited, an element keeps its successor in the original list. */
  lemma SuccessorKept(head: ListHead, s: seq<ListHead>, i: nat, del: set<ListHead>)
    requires i < |s| && Ring(head, Remaining(s, i, del))
    ensures s[i].next == Nth(head, s, i + 1)
  {
    var c, k := Remaining(s, i, del), |KeptOf(s, i, del)|;
    RemainingNext(s, i, del);
    assert LinkAt(Around(head, c), k + 1);
  }

  /** The loop body: list_del on the current element, or nothing. `gone` agrees with `del` on it. */
  method Visit(p: ListHead, del: set<ListHead>, ghost gone: set<ListHead>,
               ghost head: ListHead, ghost s: seq<ListHead>, ghost i: nat)
    requires Distinct([head] + s) && i < |s| && p == s[i] && (p in gone <==> p in del)
    requires Ring(head, Remaining(s, i, gone)) && Dropped(s, i, gone)
    modifies head, s
    ensures Ring(head, Remaining(s, i + 1, gone)) && Dropped(s, i + 1, gone)
  {
    RemainingNext(s, i, gone);
    if p in del {
      ghost var c, k := Remaining(s, i, gone), |KeptOf(s, i, gone)|;
      RemainingSubset(s, i, gone);
      ghost var before, after := NodeAt(head, c, k), NodeAt(head, c, k + 2);
      assert before in [head] + c && after in [head] + c;
      forall j | 0 <= j < i && s[j] in gone
        ensures s[j] != before && s[j] != after
      {
        VisitedAndDeletedAreGone(head, s, i, gone, j);
      }
      Delete(p, head, c, k);
    }
  }

  ghost predicate Dropped(s: seq<ListHead>, i: nat, del: set<ListHead>)
    requires i <= |s|
    reads s
  {
    forall j :: 0 <= j < i && s[j] in del ==> s[j].next == null && s[j].prev == null
  }

  /** list_for_each_safe with a body that may list_del the current element. */
  method ListForEachSafe(head: ListHead, del: set<ListHead>, ghost s: seq<ListHead>)
    returns (visited: seq<ListHead>)
    requires Ring(head, s)
    modifies head, s
    ensures visited == s
    ensures Ring(head, Kept(s, del)) && Dropped(s, |s|, del)
  {
    visited := [];
    ghost var i := 0;
    AllVisited(s, del);
    assert LinkAt(Around(head, s), 0);
    Standing(head, s, 0, del);
    var p: ListHead := head.next;
    var n := p.next;
    while p != head
      invariant i <= |s| && visited == s[..i]
      invariant Ring(head, Remaining(s, i, del)) && Dropped(s, i, del)
      invariant p == Nth(head, s, i) && (i < |s| ==> n == Nth(head, s, i + 1))
      invariant p == head <==> i == |s|
      decreases |s| - i
    {
      visited := visited + [p];
      TakeOneMore(s, 0, i);
      Visit(p, del, del, head, s, i);
      i := i + 1;
      p := n;
      Standing(head, s, i, del);
      n := p.next;
    }
  }

  lemma TakeOneMore(s: seq<ListHead>, i: nat, j: nat)
    requires i <= j < |s|
    ensures s[i..j] + [s[j]] == s[i..j + 1]
    ensures i == 0 ==> s[..j] + [s[j]] == s[..j + 1]
  {
  }

  lemma AllVisited(s: seq<ListHead>, del: set<ListHead>)
    ensures Remaining(s, 0, del) == s && Remaining(s, |s|, del) == Kept(s, del)
  {
  }

  // avl.h keeps the elements of a tree, in order, in such a list.

  class AvlTree {
    const listHead: ListHead
    var root: ListHead?
    var count: nat

    constructor (head: ListHead)
      ensures listHead == head && root == null && count == 0
    {
      listHead, root, count := head, null, 0;
    }

    ghost predicate Holds(s: seq<ListHead>)
      reads this, listHead, s
    {
      Ring(listHead, s) && count == |s|
    }
  }

  /** What an element's prev link says about its position. */
  lemma PrevOf(head: ListHead, s: seq<ListHead>, i: nat)
    requires Ring(head, s) && i <= |s|
    ensures Nth(head, s, i).prev == NodeAt(head, s, i)
    ensures forall j :: 0 <= j <= |s| ==> (NodeAt(head, s, j) == NodeAt(head, s, i) <==> i == j)
  {
    assert LinkAt(Around(head, s), i);
    AroundIsSimple(head, s);
  }

  /**
   What a loop from index i up to the element in front of index e comes by. A first element
   behind the successor of the last one leads through the list head, which is no element.
   */
  ghost function RangeOf(head: ListHead, s: seq<ListHead>, i: nat, e: nat): seq<ListHead>
    requires i <= |s| && e <= |s|
  {
    if i <= e then s[i..e] else s[i..] + [head] + s[..e]
  }

  /**
   avl_for_element_range: from the element with index i up to `last`, which is the element
   before index e, or the head when e is zero. Nothing is visited when i == e.
   */
  method AvlForElementRange(first: ListHead, last: ListHead,
                            ghost head: ListHead, ghost s: seq<ListHead>, ghost i: nat, ghost e: nat)
    returns (visited: seq<ListHead>)
    requires Ring(head, s) && i <= |s| && e <= |s|
    requires first == Nth(head, s, i) && last == NodeAt(head, s, e)
    ensures visited == RangeOf(head, s, i, e)
  {
    visited := [];
    var element: ListHead := first;
    ghost var m: nat, around := i, false;
    PrevOf(head, s, m);
    while element.prev != last
      invariant m <= |s| && element == Nth(head, s, m) && (element.prev == last <==> m == e)
      invariant if around then m <= e < i else i <= m && (i <= e ==> m <= e)
      invariant visited == if around then s[i..] + [head] + s[..m] else s[i..m]
      decreases !around, if m <= e then e - m else |s| - m
    {
      visited := visited + [element];
      NextOf(head, s, m);
      element := element.next;
      around := around || m == |s|;
      m := if m < |s| then m + 1 else 0;
      PrevOf(head, s, m);
    }
  }

  lemma NextOf(head: ListHead, s: seq<ListHead>, i: nat)
    requires Ring(head, s) && i <= |s|
    ensures Nth(head, s, i).next == Nth(head, s, if i < |s| then i + 1 else 0)
    ensures i < |s| ==> s[..i] + [s[i]] == s[..i + 1] && forall k :: 0 <= k <= i ==> s[k..i] + [s[i]] == s[k..i + 1]
  {
    assert LinkAt(Around(head, s), if i < |s| then i + 1 else 0);
  }

  method AvlForEachElement(tree: AvlTree, ghost s: seq<ListHead>) returns (visited: seq<ListHead>)
    requires tree.Holds(s)
    ensures visited == s
  {
    ghost var head := tree.listHead;
    assert LinkAt(Around(head, s), 0) && LinkAt(Around(head, s), |s|);
    visited := AvlForElementRange(tree.listHead.next, tree.listHead.prev, head, s, 0, |s|);
  }

  /** The loop body: avl_delete, as far as list and counter go, or nothing. */
  method AvlVisit(tree: AvlTree, p: ListHead, del: set<ListHead>, ghost s: seq<ListHead>, ghost i: nat)
    requires Distinct([tree.listHead] + s) && i < |s| && p == s[i]
    requires tree.Holds(Remaining(s, i, del)) && Dropped(s, i, del)
    modifies tree, tree.listHead, s
    ensures tree.Holds(Remaining(s, i + 1, del)) && Dropped(s, i + 1, del)
  {
    RemainingNext(s, i, del);
    if p in del {
      tree.count := tree.count - 1;
    }
    Visit(p, del, del, tree.listHead, s, i);
  }

  /**
   avl_for_each_element_safe: the end of the range is re-read from the head on every round,
   so even the last element may go.
   */
  method AvlForEachElementSafe(tree: AvlTree, del: set<ListHead>, ghost s: seq<ListHead>)
    returns (visited: seq<ListHead>)
    requires tree.Holds(s)
    modifies tree, tree.listHead, s
    ensures visited == s
    ensures tree.Holds(Kept(s, del)) && Dropped(s, |s|, del)
  {
    visited := [];
    var head := tree.listHead;
    ghost var i := 0;
    AllVisited(s, del);
    assert LinkAt(Around(head, s), 0);
    var element: ListHead := head.next;
    var ptr := element.next;
    Standing(head, s, 0, del);
    while element.prev != head.prev
      invariant i <= |s| && visited == s[..i]
      invariant tree.Holds(Remaining(s, i, del)) && Dropped(s, i, del)
      invariant element == Nth(head, s, i) && (i < |s| ==> ptr == Nth(head, s, i + 1))
      invariant element.prev == head.prev <==> i == |s|
      decreases |s| - i
    {
      visited := visited + [element];
      TakeOneMore(s, 0, i);
      AvlVisit(tree, element, del, s, i);
      i := i + 1;
      element := ptr;
      Standing(head, s, i, del);
      ptr := element.next;
    }
  }

  /** Where the loop stands at its i-th element: the successor, and the test for the end. */
  lemma Standing(head: ListHead, s: seq<ListHead>, i: nat, del: set<ListHead>)
    requires i <= |s| && Ring(head, Remaining(s, i, del))
    ensures i < |s| ==> s[i].next == Nth(head, s, i + 1)
    ensures Nth(head, s, i).prev == head.prev <==> i == |s|
    ensures Nth(head, s, i) == head <==> i == |s|
  {
    HeadIsNoMember(head, Remaining(s, i, del));
    assert i < |s| ==> Remaining(s, i, del)[|KeptOf(s, i, del)|] == s[i];
    if i < |s| {
      SuccessorKept(head, s, i, del);
    }
    EndTest(head, s, i, del);
  }

  lemma EndTest(head: ListHead, s: seq<ListHead>, i: nat, del: set<ListHead>)
    requires i <= |s| && Ring(head, Remaining(s, i, del))
    ensures Nth(head, s, i).prev == head.prev <==> i == |s|
  {
    var c, k := Remaining(s, i, del), |KeptOf(s, i, del)|;
    assert Nth(head, s, i) == Nth(head, c, k) && (k == |c| <==> i == |s|);
    PrevOf(head, c, k);
    PrevOf(head, c, |c|);
  }

  /** The elements of `del` inside the range from index i to index e. */
  ghost function InRange(s: seq<ListHead>, i: nat, e: nat, del: set<ListHead>): set<ListHead>
    requires i <= e <= |s|
  {
    set x | x in s[i..e] && x in del
  }

  lemma {:induction false} NothingKeptOut(s: seq<ListHead>, i: nat, del: set<ListHead>)
    requires i <= |s| && forall x :: x in s[..i] ==> x !in del
    ensures KeptOf(s, i, del) == s[..i]
  {
    if i > 0 {
      assert s[..i] == s[..i - 1] + [s[i - 1]] && s[i - 1] in s[..i];
      NothingKeptOut(s, i - 1, del);
    }
  }

  /** Before the range nothing is deleted, so the loop starts on an unchanged list. */
  lemma RangeStart(head: ListHead, s: seq<ListHead>, i: nat, e: nat, del: set<ListHead>)
    requires Distinct([head] + s) && i <= e <= |s|
    ensures Remaining(s, i, InRange(s, i, e, del)) == s
    ensures forall j :: 0 <= j < i ==> s[j] !in InRange(s, i, e, del)
  {
    HeadIsNoMember(head, s);
    forall x | x in s[..i]
      ensures x !in s[i..e]
    {
    }
    NothingKeptOut(s, i, InRange(s, i, e, del));
    assert s[..i] + s[i..] == s;
  }

  /** Up to the end of the range the guard holds; past it, it holds for good exactly if `last` is gone. */
  lemma RangeGuard(head: ListHead, s: seq<ListHead>, m: nat, e: nat, del: set<ListHead>)
    requires m <= |s| && e <= |s| && (m > e ==> NodeAt(head, s, e) in del)
    requires Distinct([head] + s) && Ring(head, Remaining(s, m, del)) && head !in del
    ensures Nth(head, s, m).prev == NodeAt(head, s, e) <==> m == e && NodeAt(head, s, e) !in del
  {
    var c, k := Remaining(s, m, del), |KeptOf(s, m, del)|;
    HeadIsNoMember(head, s);
    PrevOf(head, c, k);
    assert Nth(head, s, m) == Nth(head, c, k);
    if k > 0 {
      var x := KeptOf(s, m, del)[k - 1];
      assert NodeAt(head, c, k) == x;
      KeptMember(s, m, del, x);
      if m == e && NodeAt(head, s, e) !in del {
        assert x == s[e - 1];
      }
    }
  }

  lemma RangeStanding(head: ListHead, s: seq<ListHead>, m: nat, e: nat, del: set<ListHead>)
    requires m <= |s| && e <= |s| && (m > e ==> NodeAt(head, s, e) in del)
    requires Distinct([head] + s) && Ring(head, Remaining(s, m, del)) && head !in del
    ensures Nth(head, s, m).prev == NodeAt(head, s, e) <==> m == e && NodeAt(head, s, e) !in del
    ensures m < |s| ==> s[m].next == Nth(head, s, m + 1)
    ensures Nth(head, s, m) == head <==> m == |s|
  {
    HeadIsNoMember(head, s);
    RangeGuard(head, s, m, e, del);
    if m < |s| {
      SuccessorKept(head, s, m, del);
    }
  }

  lemma InRangeAt(s: seq<ListHead>, i: nat, e: nat, m: nat, del: set<ListHead>)
    requires i <= m < e <= |s|
    ensures s[m] in InRange(s, i, e, del) <==> s[m] in del
  {
    assert s[i..e][m - i] == s[m];
  }

  /** Where a range of at least one element really ends if its last one goes. */
  ghost function RangeEnd(s: seq<ListHead>, i: nat, e: nat, last: ListHead, del: set<ListHead>): (j: nat)
    requires i <= e <= |s|
    ensures e <= j <= |s|
  {
    if i < e && last in del then |s| else e
  }

  /** Which elements the rounds from i up to j take out, and whether `last` is among them. */
  lemma RangeMembers(head: ListHead, s: seq<ListHead>, i: nat, e: nat, j: nat, del: set<ListHead>)
    requires Distinct([head] + s) && i <= e <= |s| && j == RangeEnd(s, i, e, NodeAt(head, s, e), del)
    ensures
      var gone, last := InRange(s, i, j, del), NodeAt(head, s, e);
      && head !in gone && (forall m :: i <= m < j ==> (s[m] in gone <==> s[m] in del))
      && (last in gone <==> i < e && last in del)
      && (last in gone ==> last !in [head] + Remaining(s, j, gone))
  {
    var gone, last := InRange(s, i, j, del), NodeAt(head, s, e);
    HeadIsNoMember(head, s);
    forall m | i <= m < j
      ensures s[m] in gone <==> s[m] in del
    {
      InRangeAt(s, i, j, m, del);
    }
    LastInRange(head, s, i, e, j, del);
    if last in gone {
      VisitedAndDeletedAreGone(head, s, j, gone, e - 1);
    }
  }

  lemma LastInRange(head: ListHead, s: seq<ListHead>, i: nat, e: nat, j: nat, del: set<ListHead>)
    requires head !in s && Distinct(s) && i <= e <= j <= |s| && (i < e || j == e)
    ensures NodeAt(head, s, e) in InRange(s, i, j, del) <==> i < e && NodeAt(head, s, e) in del
  {
    if i < e {
      InRangeAt(s, i, j, e - 1, del);
    } else {
      assert s[i..j] == [];
    }
  }

  /**
   avl_for_element_range_safe compares with a fixed `last`. The rounds up to and including
   `last` are as promised. If the body unlinks `last` itself the guard never becomes false:
   the loop goes on through the rest of the tree and comes to the list head, which is no
   element. `overrun` says that it did; `OverrunRounds` goes on from there.
   */
  method AvlForElementRangeSafe(first: ListHead, last: ListHead, head: ListHead, del: set<ListHead>,
                                ghost s: seq<ListHead>, ghost i: nat, ghost e: nat)
    returns (visited: seq<ListHead>, overrun: bool)
    requires Ring(head, s) && i <= e <= |s|
    requires first == Nth(head, s, i) && last == NodeAt(head, s, e)
    modifies head, s
    ensures
      var j := RangeEnd(s, i, e, last, del);
      var gone := InRange(s, i, j, del);
      visited == s[i..j] && Ring(head, Remaining(s, j, gone)) && Dropped(s, j, gone)
    ensures overrun <==> i < e && last in del
    ensures overrun ==> last !in [head] + Remaining(s, |s|, InRange(s, i, |s|, del))
  {
    ghost var j := RangeEnd(s, i, e, last, del);
    ghost var gone := InRange(s, i, j, del);
    RangeStart(head, s, i, j, del);
    RangeMembers(head, s, i, e, j, del);
    visited, overrun := RangeRounds(first, last, head, del, gone, s, i, e, j);
  }

  method RangeRounds(first: ListHead, last: ListHead, head: ListHead, del: set<ListHead>, ghost gone: set<ListHead>,
                     ghost s: seq<ListHead>, ghost i: nat, ghost e: nat, ghost j: nat)
    returns (visited: seq<ListHead>, overrun: bool)
    requires Ring(head, s) && i <= e <= j <= |s|
    requires first == Nth(head, s, i) && last == NodeAt(head, s, e)
    requires Remaining(s, i, gone) == s && Dropped(s, i, gone) && head !in gone
    requires forall m :: i <= m < j ==> (s[m] in gone <==> s[m] in del)
    requires j == if last in gone then |s| else e
    modifies head, s
    ensures visited == s[i..j]
    ensures Ring(head, Remaining(s, j, gone)) && Dropped(s, j, gone)
    ensures overrun <==> last in gone
  {
    visited := [];
    ghost var m := i;
    RangeStanding(head, s, m, e, gone);
    var element: ListHead, ptr := first, first.next;
    while element.prev != last && element != head
      invariant i <= m <= j && visited == s[i..m]
      invariant Ring(head, Remaining(s, m, gone)) && Dropped(s, m, gone)
      invariant element == Nth(head, s, m) && (m < |s| ==> ptr == Nth(head, s, m + 1))
      invariant element.prev == last <==> m == e && last !in gone
      invariant element == head <==> m == |s|
      decreases j - m
    {
      visited := visited + [element];
      TakeOneMore(s, i, m);
      Visit(element, del, gone, head, s, m);
      m := m + 1;
      element := ptr;
      RangeStanding(head, s, m, e, gone);
      ptr := element.next;
    }
    overrun := element.prev != last;
  }

  /** A node of a ring has its neighbours in the ring. */
  lemma InRing(head: ListHead, s: seq<ListHead>, x: ListHead) returns (k: nat)
    requires Ring(head, s) && x in [head] + s
    ensures k <= |s| && x == NodeAt(head, s, k)
    ensures x.next == NodeAt(head, s, k + 1) && x.next in [head] + s
    ensures x.prev == NodeAt(head, s, if k == 0 then |s| else k - 1) && x.prev in [head] + s
  {
    k :| 0 <= k < |[head] + s| && ([head] + s)[k] == x;
    assert LinkAt(Around(head, s), k);
    assert LinkAt(Around(head, s), if k == 0 then |s| else k - 1);
    assert NodeAt(head, s, k + 1) in [head] + s && NodeAt(head, s, if k == 0 then |s| else k - 1) in [head] + s;
  }

  /**
   Where avl_for_element_range_safe goes once `last` is gone: on around the ring, the list head
   included, for any number of rounds. Whatever the body unlinks, the guard stays true.
   */
  method OverrunRounds(start: ListHead, last: ListHead, head: ListHead, del: set<ListHead>, n: nat,
                       ghost s: seq<ListHead>)
    returns (rounds: nat)
    requires Ring(head, s) && start in [head] + s && last !in [head] + s && head !in del
    modifies head, s
    ensures rounds == n
  {
    rounds := 0;
    ghost var u := s;
    ghost var k := InRing(head, u, start);
    var element: ListHead, ptr: ListHead := start, start.next;
    while rounds < n && element.prev != last
      invariant Ring(head, u) && rounds <= n && (forall y :: y in u ==> y in s)
      invariant element in [head] + u && element.prev in [head] + u
      invariant ptr == element.next && ptr in [head] + u
    {
      k := InRing(head, u, element);
      if element in del {
        ghost var before, after := NodeAt(head, u, k - 1), NodeAt(head, u, k + 1);
        assert before in [head] + u && after in [head] + u;
        Delete(element, head, u, k - 1);
        u := u[..k - 1] + u[k..];
      }
      element := ptr;
      k := InRing(head, u, element);
      ptr := element.next;
      rounds := rounds + 1;
    }
  }

  /**
   avl_remove_all_elements: the list is detached first and the body frees every element. Its
   links are gone afterwards, so no round can have read one.
   */
  method AvlRemoveAllElements(tree: AvlTree, ghost s: seq<ListHead>) returns (visited: seq<ListHead>)
    requires tree.Holds(s)
    modifies tree, tree.listHead, s
    ensures visited == s
    ensures tree.Holds([]) && tree.root == null
    ensures forall j :: 0 <= j < |s| ==> Cleared(s[j])
  {
    var head := tree.listHead;
    HeadIsNoMember(head, s);
    assert LinkAt(Around(head, s), 0);
    forall j | 0 <= j < |s|
      ensures Follows(head, s, j)
    {
      assert LinkAt(Around(head, s), j + 1);
    }
    assert s != [] ==> Follows(head, s, 0);
    var element: ListHead := head.next;
    var ptr: ListHead := element.next;
    InitListHead(head);
    tree.root := null;
    visited := FreeRounds(tree, element, ptr, s);
  }

  ghost predicate Follows(head: ListHead, s: seq<ListHead>, j: nat)
    requires j < |s|
    reads s[j]
  {
    s[j].next == Nth(head, s, j + 1)
  }

  ghost predicate Cleared(x: ListHead)
    reads x
  {
    x.next == null && x.prev == null
  }

  method FreeRounds(tree: AvlTree, first: ListHead, second: ListHead, ghost s: seq<ListHead>)
    returns (visited: seq<ListHead>)
    requires tree.count == |s| && Ring(tree.listHead, []) && tree.listHead !in s && Distinct(s)
    requires forall j :: 0 <= j < |s| ==> Follows(tree.listHead, s, j)
    requires first == Nth(tree.listHead, s, 0) && second == Nth(tree.listHead, s, 1)
    modifies tree`count, s
    ensures visited == s
    ensures tree.count == 0
    ensures forall j :: 0 <= j < |s| ==> Cleared(s[j])
  {
    visited := [];
    ghost var head := tree.listHead;
    assert LinkAt(Around(head, []), 0);
    var element, ptr := first, second;
    ghost var m := 0;
    while tree.count > 0
      invariant m <= |s| && tree.count == |s| - m && visited == s[..m]
      invariant head.next == head
      invariant forall j :: m <= j < |s| ==> Follows(head, s, j)
      invariant forall j :: 0 <= j < m ==> Cleared(s[j])
      invariant element == Nth(head, s, m) && ptr == Nth(head, s, m + 1)
      decreases tree.count
    {
      visited := visited + [element];
      TakeOneMore(s, 0, m);
      assert m + 1 < |s| ==> Follows(head, s, m + 1);
      element.next, element.prev := null, null;
      m := m + 1;
      element := ptr;
      ptr := ptr.next;
      tree.count := tree.count - 1;
    }
  }
}
