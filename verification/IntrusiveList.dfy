/**
 The circular doubly linked lists of libubox/list.h. A list is a head node and the nodes
 linked behind it; all nodes have the same type and live in one heap.
 */
module IntrusiveList {
  import opened Basics

  class ListHead {
    var next: ListHead?
    var prev: ListHead?
  }

  lemma SpliceDistinct(s: seq<ListHead>, k: nat, t: seq<ListHead>)
    requires Distinct(s) && Distinct(t) && k <= |s| && forall x :: x in t ==> x !in s
    ensures Distinct(s[..k] + t + s[k..])
  {
    var r := s[..k] + t + s[k..];
    forall i, j | 0 <= i < j < |r|
      ensures r[i] != r[j]
    {
      var it, jt := k <= i < k + |t|, k <= j < k + |t|;
      assert if it then r[i] == t[i - k] && t[i - k] in t else r[i] == s[if i < k then i else i - |t|];
      assert if jt then r[j] == t[j - k] && t[j - k] in t else r[j] == s[if j < k then j else j - |t|];
    }
  }

  lemma RingSpliceDistinct(head: ListHead, s: seq<ListHead>, k: nat, list: ListHead, t: seq<ListHead>)
    requires Distinct([head] + s) && Distinct([list] + t) && k <= |s|
    requires forall x :: x in [list] + t ==> x !in [head] + s
    ensures Distinct([head] + (s[..k] + t + s[k..]))
  {
    assert forall i :: 0 <= i < |t| ==> t[i] == ([list] + t)[i + 1];
    SpliceDistinct([head] + s, k + 1, t);
    assert [head] + (s[..k] + t + s[k..]) == ([head] + s)[..k + 1] + t + ([head] + s)[k + 1..];
  }

  lemma RemoveDistinct(s: seq<ListHead>, k: nat)
    requires Distinct(s) && k < |s|
    ensures Distinct(s[..k] + s[k + 1..]) && s[k] !in s[..k] + s[k + 1..]
  {
  }

  /** Once around the ring, from the head back to the head. */
  ghost function Around(head: ListHead, s: seq<ListHead>): (p: seq<ListHead>)
    ensures |p| == |s| + 2
  {
    [head] + s + [head]
  }

  ghost function NodeAt(head: ListHead, s: seq<ListHead>, i: nat): ListHead
    requires i < |s| + 2
  {
    Around(head, s)[i]
  }

  /** Only the two ends of the way around are the same node. */
  ghost predicate Simple(p: seq<ListHead>) {
    && |p| >= 2 && p[0] == p[|p| - 1]
    && forall i, j :: 0 <= i < j < |p| && p[i] == p[j] ==> i == 0 && j == |p| - 1
  }

  lemma AroundIsSimple(head: ListHead, s: seq<ListHead>)
    requires Distinct([head] + s)
    ensures Simple(Around(head, s))
  {
    var p, r := Around(head, s), [head] + s;
    assert forall i :: 0 <= i < |r| ==> p[i] == r[i];
  }

  lemma RingsApart(head: ListHead, s: seq<ListHead>, list: ListHead, t: seq<ListHead>)
    requires forall x :: x in [list] + t ==> x !in [head] + s
    ensures var p, l := Around(head, s), Around(list, t);
            forall i, j :: 0 <= i < |p| && 0 <= j < |l| ==> p[i] != l[j]
  {
    var p, l := Around(head, s), Around(list, t);
    forall i, j | 0 <= i < |p| && 0 <= j < |l|
      ensures p[i] != l[j]
    {
      assert p[i] in [head] + s && l[j] in [list] + t;
    }
  }

  ghost predicate LinkAt(p: seq<ListHead>, i: nat)
    requires i + 1 < |p|
    reads p[i], p[i + 1]
  {
    p[i].next == p[i + 1] && p[i + 1].prev == p[i]
  }

  ghost predicate Linked(p: seq<ListHead>)
    reads p
  {
    forall i :: 0 <= i < |p| - 1 ==> LinkAt(p, i)
  }

  /** `head` heads the list `s`: links and back-links mirror each other all the way around. */
  ghost predicate Ring(head: ListHead, s: seq<ListHead>)
    reads head, s
  {
    Distinct([head] + s) && Linked(Around(head, s))
  }

  method InitListHead(list: ListHead)
    modifies list
    ensures Ring(list, [])
  {
    list.next, list.prev := list, list;
  }

  /** _list_add: links `entry` in after the k-th node of the ring. */
  method AddBetween(entry: ListHead, prev: ListHead, next: ListHead,
                    ghost head: ListHead, ghost s: seq<ListHead>, ghost k: nat)
    requires Ring(head, s) && entry !in [head] + s
    requires k <= |s| && prev == Around(head, s)[k] && next == Around(head, s)[k + 1]
    modifies entry, prev`next, next`prev
    ensures Ring(head, s[..k] + [entry] + s[k..])
  {
    ghost var p := Around(head, s);
    AroundIsSimple(head, s);
    next.prev := entry;
    entry.next := next;
    entry.prev := prev;
    prev.next := entry;
    ghost var t := s[..k] + [entry] + s[k..];
    ghost var r := Around(head, t);
    assert r == p[..k + 1] + [entry] + p[k + 1..];
    forall i | 0 <= i < |r| - 1
      ensures LinkAt(r, i)
    {
      if i < k {
        assert old(LinkAt(p, i));
      } else if i > k + 1 {
        assert old(LinkAt(p, i - 1));
      }
    }
    SpliceDistinct([head] + s, k + 1, [entry]);
    assert [head] + t == ([head] + s)[..k + 1] + [entry] + ([head] + s)[k + 1..];
  }

  /** The neighbours of the k-th member; a node linked to itself only is both of its own. */
  ghost function Neighbour(head: ListHead, s: seq<ListHead>, k: nat, offset: nat): ListHead
    requires s != [] ==> k + offset < |s| + 2
  {
    if s == [] then head else NodeAt(head, s, k + offset)
  }

  /**
   _list_del: unlinks the k-th member of the list; its own links stay. On a node that is
   linked to itself only it has no effect.
   */
  method Unlink(entry: ListHead, ghost head: ListHead, ghost s: seq<ListHead>, ghost k: nat)
    requires Ring(head, s) && if s == [] then entry == head else k < |s| && s[k] == entry
    modifies Neighbour(head, s, k, 0)`next, Neighbour(head, s, k, 2)`prev
    ensures Ring(head, if s == [] then s else s[..k] + s[k + 1..])
    ensures entry.next == old(entry.next) && entry.prev == old(entry.prev)
  {
    ghost var p := Around(head, s);
    AroundIsSimple(head, s);
    assert if s == [] then LinkAt(p, 0) else LinkAt(p, k) && LinkAt(p, k + 1) && p[k + 1] == entry;
    entry.next.prev := entry.prev;
    entry.prev.next := entry.next;
    if s != [] {
      ghost var t := s[..k] + s[k + 1..];
      ghost var r := Around(head, t);
      assert r == p[..k + 1] + p[k + 2..];
      forall i | 0 <= i < |r| - 1
        ensures LinkAt(r, i)
      {
        assert i < k ==> old(LinkAt(p, i));
        assert i > k ==> old(LinkAt(p, i + 1));
      }
      RemoveDistinct([head] + s, k + 1);
      assert [head] + t == ([head] + s)[..k + 1] + ([head] + s)[k + 2..];
    }
  }

  /** list_del on the k-th member of the list. */
  method Delete(entry: ListHead, ghost head: ListHead, ghost s: seq<ListHead>, ghost k: nat)
    requires Ring(head, s) && k < |s| && s[k] == entry
    modifies entry, NodeAt(head, s, k)`next, NodeAt(head, s, k + 2)`prev
    ensures Ring(head, s[..k] + s[k + 1..])
    ensures entry.next == null && entry.prev == null
  {
    Unlink(entry, head, s, k);
    RemoveDistinct([head] + s, k + 1);
    assert [head] + (s[..k] + s[k + 1..]) == ([head] + s)[..k + 1] + ([head] + s)[k + 2..];
    entry.next, entry.prev := null, null;
  }

  /**
   _list_splice: links the members `t` of `list` in after the k-th node of the ring. The head
   `list` keeps its links and, unless it was empty, no longer heads a ring.
   */
  method SpliceBetween(list: ListHead, prev: ListHead, next: ListHead, ghost t: seq<ListHead>,
                       ghost head: ListHead, ghost s: seq<ListHead>, ghost k: nat)
    requires Ring(list, t) && Ring(head, s) && forall x :: x in [list] + t ==> x !in [head] + s
    requires k <= |s| && prev == NodeAt(head, s, k) && next == NodeAt(head, s, k + 1)
    modifies prev`next, next`prev, t`next, t`prev
    ensures Ring(head, s[..k] + t + s[k..])
    ensures t == [] ==> Ring(list, t)
  {
    ghost var p, l := Around(head, s), Around(list, t);
    AroundIsSimple(head, s);
    AroundIsSimple(list, t);
    RingsApart(head, s, list, t);
    RingSpliceDistinct(head, s, k, list, t);
    assert LinkAt(l, 0) && LinkAt(l, |t|);
    if list.next == list {
      assert t == [] && s[..k] + t + s[k..] == s;
      return;
    }
    var first := list.next;
    var last := list.prev;
    first.prev := prev;
    prev.next := first;
    last.next := next;
    next.prev := last;
    ghost var u := s[..k] + t + s[k..];
    ghost var r := Around(head, u);
    assert r == p[..k + 1] + t + p[k + 1..];
    forall i | 0 <= i < |r| - 1
      ensures LinkAt(r, i)
    {
      if i < k {
        assert old(LinkAt(p, i));
      } else if k < i < k + |t| {
        assert old(LinkAt(l, i - k)) && r[i] == l[i - k] && r[i + 1] == l[i - k + 1];
      } else if k + |t| < i {
        assert old(LinkAt(p, i - |t|));
      }
    }
  }
}
