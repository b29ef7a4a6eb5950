/**
 Any number of lists side by side. The family maps each head to the members of its list;
 every operation of list.h is the matching operation on sequences, and leaves the lists it
 is not about alone.
 */
module ListFamily {
  import opened Basics
  import opened IntrusiveList

  type Family = map<ListHead, seq<ListHead>>

  ghost function NodesOf(F: Family, h: ListHead): set<ListHead>
    requires h in F
  {
    set x | x in [h] + F[h]
  }

  ghost function AllNodes(F: Family): set<ListHead> {
    set h, x | h in F && x in [h] + F[h] :: x
  }

  lemma NodesCovered(F: Family)
    ensures forall h :: h in F ==> h in AllNodes(F)
    ensures forall h, x :: h in F && x in F[h] ==> x in AllNodes(F)
  {
    assert forall h :: h in F ==> h in [h] + F[h];
    assert forall h, x :: h in F && x in F[h] ==> x in [h] + F[h];
  }

  lemma NodesOfList(F: Family, h: ListHead)
    requires h in F
    ensures NodesOf(F, h) <= AllNodes(F)
    ensures forall x :: x in [h] + F[h] ==> x in NodesOf(F, h)
    ensures h in NodesOf(F, h) && forall x :: x in F[h] ==> x in NodesOf(F, h)
  {
  }

  ghost predicate Apart(F: Family) {
    forall g, h :: g in F && h in F && g != h ==> NodesOf(F, g) !! NodesOf(F, h)
  }

  ghost predicate Valid(F: Family)
    reads AllNodes(F)
  {
    NodesCovered(F);
    Apart(F) && forall h :: h in F ==> Ring(h, F[h])
  }

  ghost predicate IsMember(F: Family, x: ListHead) {
    exists h :: h in F && x in F[h]
  }

  /** `x` is linked to itself only: an empty head, or a node list_del_init took out of its list. */
  ghost predicate SelfLinked(F: Family, x: ListHead) {
    x in F && F[x] == []
  }

  /** What can be added: adding overwrites both links of `x`, and no other node may hold one to it. */
  ghost predicate Addable(F: Family, x: ListHead) {
    x !in AllNodes(F) || SelfLinked(F, x)
  }

  /** What can be deleted: on a self-linked node deletion has nothing to unlink. */
  ghost predicate Deletable(F: Family, x: ListHead) {
    IsMember(F, x) || SelfLinked(F, x)
  }

  ghost function Without(s: seq<ListHead>, x: ListHead): seq<ListHead> {
    if s == [] then [] else (if s[0] == x then [] else [s[0]]) + Without(s[1..], x)
  }

  // The operations on families of sequences; a node that enters or leaves a list heads none

  /** The members with `t` put behind `p`. */
  ghost function Behind(s: seq<ListHead>, p: ListHead, t: seq<ListHead>): seq<ListHead> {
    if s == [] then [] else [s[0]] + if s[0] == p then t + s[1..] else Behind(s[1..], p, t)
  }

  /** The members with `t` put in front of `p`. */
  ghost function Before(s: seq<ListHead>, p: ListHead, t: seq<ListHead>): seq<ListHead> {
    if s == [] then [] else if s[0] == p then t + s else [s[0]] + Before(s[1..], p, t)
  }

  /** `t` behind the node `p`, which is a head or a member of some list. */
  ghost function PlacedBehind(F: Family, p: ListHead, t: seq<ListHead>): Family {
    map h | h in F :: if h == p then t + F[h] else Behind(F[h], p, t)
  }

  /** `t` in front of the node `p`; in front of the head is the end of the list. */
  ghost function PlacedBefore(F: Family, p: ListHead, t: seq<ListHead>): Family {
    map h | h in F :: if h == p then F[h] + t else Before(F[h], p, t)
  }

  ghost function Added(F: Family, x: ListHead, p: ListHead): Family {
    PlacedBehind(F - {x}, p, [x])
  }

  ghost function AddedTail(F: Family, x: ListHead, p: ListHead): Family {
    PlacedBefore(F - {x}, p, [x])
  }

  /** `x` behind the first k members of the list. */
  ghost function Inserted(F: Family, x: ListHead, h: ListHead, k: nat): Family
    requires h in F && k <= |F[h]|
  {
    (F - {x})[h := F[h][..k] + [x] + F[h][k..]]
  }

  ghost function Deleted(F: Family, x: ListHead): Family {
    map h | h in F - {x} :: Without(F[h], x)
  }

  /** An empty source keeps its head; otherwise the source's head leaves the family. */
  ghost function Spliced(F: Family, list: ListHead, h: ListHead, s: seq<ListHead>): Family
    requires list in F && h in F
  {
    if F[list] == [] then F else (F - {list})[h := s]
  }

  ghost function SplicedBehind(F: Family, list: ListHead, p: ListHead): Family
    requires list in F
  {
    if F[list] == [] then F else PlacedBehind(F - {list}, p, F[list])
  }

  ghost function SplicedBefore(F: Family, list: ListHead, p: ListHead): Family
    requires list in F
  {
    if F[list] == [] then F else PlacedBefore(F - {list}, p, F[list])
  }

  // Placing by node is placing by position

  lemma {:induction false} BehindAt(s: seq<ListHead>, k: nat, t: seq<ListHead>)
    requires Distinct(s) && 0 < k <= |s|
    ensures Behind(s, s[k - 1], t) == s[..k] + t + s[k..]
    decreases |s|
  {
    if k > 1 {
      assert s[1..][k - 2] == s[k - 1] && s[0] != s[k - 1];
      BehindAt(s[1..], k - 1, t);
      assert s[..k] == [s[0]] + s[1..][..k - 1] && s[k..] == s[1..][k - 1..];
    }
  }

  lemma {:induction false} BeforeAt(s: seq<ListHead>, k: nat, t: seq<ListHead>)
    requires Distinct(s) && k < |s|
    ensures Before(s, s[k], t) == s[..k] + t + s[k..]
    decreases |s|
  {
    if k > 0 {
      assert s[1..][k - 1] == s[k] && s[0] != s[k];
      BeforeAt(s[1..], k - 1, t);
      assert s[..k] == [s[0]] + s[1..][..k - 1] && s[k..] == s[1..][k - 1..];
    }
  }

  lemma {:induction false} PlacedNowhere(s: seq<ListHead>, p: ListHead, t: seq<ListHead>)
    requires p !in s
    ensures Behind(s, p, t) == s && Before(s, p, t) == s
    decreases |s|
  {
    if s != [] {
      PlacedNowhere(s[1..], p, t);
    }
  }

  /** A node is in one list only, so the other lists have no place for anything beside it. */
  lemma PlacedElsewhere(F: Family, h: ListHead, p: ListHead, t: seq<ListHead>)
    requires Apart(F) && h in F && p in [h] + F[h]
    ensures forall g :: g in F && g != h ==> g != p && Behind(F[g], p, t) == F[g] && Before(F[g], p, t) == F[g]
  {
    forall g | g in F && g != h
      ensures g != p && Behind(F[g], p, t) == F[g] && Before(F[g], p, t) == F[g]
    {
      assert p in NodesOf(F, h);
      assert g in [g] + F[g] && p !in NodesOf(F, g);
      PlacedNowhere(F[g], p, t);
    }
  }

  lemma BehindInList(h: ListHead, s: seq<ListHead>, k: nat, t: seq<ListHead>)
    requires Distinct([h] + s) && k <= |s|
    ensures
      var p := NodeAt(h, s, k);
      p in [h] + s && (if h == p then t + s else Behind(s, p, t)) == s[..k] + t + s[k..]
  {
    var r := [h] + s;
    assert NodeAt(h, s, k) == r[k];
    if k > 0 {
      assert Distinct(r[1..]) && r[1..] == s && s[k - 1] == r[k] != r[0];
      BehindAt(s, k, t);
    } else {
      assert s[..0] + t + s[0..] == t + s;
    }
  }

  lemma BeforeInList(h: ListHead, s: seq<ListHead>, k: nat, t: seq<ListHead>)
    requires Distinct([h] + s) && k <= |s|
    ensures
      var p := NodeAt(h, s, k + 1);
      p in [h] + s && (if h == p then s + t else Before(s, p, t)) == s[..k] + t + s[k..]
  {
    var r := [h] + s;
    assert NodeAt(h, s, k + 1) == if k < |s| then r[k + 1] else r[0];
    if k < |s| {
      assert Distinct(r[1..]) && r[1..] == s && s[k] == r[k + 1] != r[0];
      BeforeAt(s, k, t);
    } else {
      assert s[..k] + t + s[k..] == s + t;
    }
  }

  lemma PlacedBehindAt(F: Family, h: ListHead, k: nat, t: seq<ListHead>)
    requires Apart(F) && h in F && Distinct([h] + F[h]) && k <= |F[h]|
    ensures PlacedBehind(F, NodeAt(h, F[h], k), t) == F[h := F[h][..k] + t + F[h][k..]]
  {
    BehindInList(h, F[h], k, t);
    PlacedElsewhere(F, h, NodeAt(h, F[h], k), t);
  }

  lemma PlacedBeforeAt(F: Family, h: ListHead, k: nat, t: seq<ListHead>)
    requires Apart(F) && h in F && Distinct([h] + F[h]) && k <= |F[h]|
    ensures PlacedBefore(F, NodeAt(h, F[h], k + 1), t) == F[h := F[h][..k] + t + F[h][k..]]
  {
    BeforeInList(h, F[h], k, t);
    PlacedElsewhere(F, h, NodeAt(h, F[h], k + 1), t);
  }

  /** The place of a node: behind the k-th node of list `h`. */
  lemma BehindPlace(F: Family, p: ListHead) returns (h: ListHead, k: nat)
    requires p in AllNodes(F)
    ensures h in F && k <= |F[h]| && p == NodeAt(h, F[h], k) && p in NodesOf(F, h)
  {
    h :| h in F && p in [h] + F[h];
    k :| 0 <= k < |[h] + F[h]| && ([h] + F[h])[k] == p;
  }

  /** The place of a node: in front of the (k + 1)-st node of list `h`. */
  lemma BeforePlace(F: Family, p: ListHead) returns (h: ListHead, k: nat)
    requires p in AllNodes(F)
    ensures h in F && k <= |F[h]| && p == NodeAt(h, F[h], k + 1) && p in NodesOf(F, h)
  {
    h, k := BehindPlace(F, p);
    k := if k == 0 then |F[h]| else k - 1;
  }

  // What the operations do to the sets of nodes

  /** Replacing the members of one list by nodes no other list has keeps lists apart. */
  lemma ApartAfter(F: Family, h: ListHead, s: seq<ListHead>)
    requires Apart(F) && h in F
    requires forall x :: x in s ==> x in NodesOf(F, h) || x !in AllNodes(F)
    ensures Apart(F[h := s])
  {
    var G := F[h := s];
    forall g | g in F && g != h
      ensures NodesOf(G, g) !! NodesOf(G, h)
    {
      assert NodesOf(G, g) == NodesOf(F, g) && NodesOf(F, g) <= AllNodes(F);
      assert NodesOf(F, g) !! NodesOf(F, h);
    }
    forall f, g | f in G && g in G && f != g
      ensures NodesOf(G, f) !! NodesOf(G, g)
    {
      if f != h && g != h {
        assert NodesOf(G, f) == NodesOf(F, f) && NodesOf(G, g) == NodesOf(F, g);
      }
    }
  }

  lemma {:induction false} WithoutAt(s: seq<ListHead>, k: nat)
    requires Distinct(s) && k < |s|
    ensures Without(s, s[k]) == s[..k] + s[k + 1..]
    decreases |s|
  {
    if k == 0 {
      WithoutNone(s[1..], s[0]);
    } else {
      WithoutAt(s[1..], k - 1);
      assert s[1..][..k - 1] == s[1..k];
    }
  }

  lemma {:induction false} WithoutNone(s: seq<ListHead>, x: ListHead)
    requires x !in s
    ensures Without(s, x) == s
    decreases |s|
  {
    if s != [] {
      WithoutNone(s[1..], x);
    }
  }

  lemma MemberIsNoHead(F: Family, h: ListHead, k: nat)
    requires Apart(F) && h in F && Distinct([h] + F[h]) && k < |F[h]|
    ensures F[h][k] !in F
  {
    var x := F[h][k];
    assert ([h] + F[h])[0] == h && ([h] + F[h])[k + 1] == x;
    if x in F {
      NodesOfList(F, x);
      NodesOfList(F, h);
    }
  }

  lemma DeletedAt(F: Family, h: ListHead, k: nat)
    requires Apart(F) && h in F && Distinct([h] + F[h]) && k < |F[h]|
    ensures F[h][k] !in F && Deleted(F, F[h][k]) == F[h := F[h][..k] + F[h][k + 1..]]
  {
    var s, x := F[h], F[h][k];
    assert forall i :: 0 <= i < |s| ==> s[i] == ([h] + s)[i + 1];
    WithoutAt(s, k);
    MemberIsNoHead(F, h, k);
    forall g | g in F && g != h
      ensures Without(F[g], x) == F[g]
    {
      assert x in NodesOf(F, h);
      assert x !in NodesOf(F, g);
      WithoutNone(F[g], x);
    }
  }

  /** The deleted node is in no list any more, and no other node enters one. */
  lemma DeletedNodes(F: Family, h: ListHead, k: nat)
    requires Apart(F) && h in F && Distinct([h] + F[h]) && k < |F[h]|
    ensures
      var G := Deleted(F, F[h][k]);
      F[h][k] !in AllNodes(G) && AllNodes(G) <= AllNodes(F)
  {
    var s, x := F[h], F[h][k];
    var G := Deleted(F, x);
    DeletedAt(F, h, k);
    RemoveDistinct([h] + s, k + 1);
    assert [h] + G[h] == ([h] + s)[..k + 1] + ([h] + s)[k + 2..];
    forall y | y in AllNodes(G)
      ensures y != x && y in AllNodes(F)
    {
      var g :| g in G && y in [g] + G[g];
      if g == h {
        assert y in [h] + s;
      } else {
        assert x in NodesOf(F, h) && y in NodesOf(F, g);
      }
    }
  }

  lemma MemberIsNode(F: Family, x: ListHead)
    requires IsMember(F, x)
    ensures x in AllNodes(F)
  {
    var h :| h in F && x in F[h];
    assert x in [h] + F[h];
  }

  /** A self-linked node can be taken out of the family; no other list is touched by that. */
  lemma Released(F: Family, x: ListHead)
    requires Apart(F) && Addable(F, x)
    ensures Apart(F - {x}) && x !in AllNodes(F - {x}) && AllNodes(F - {x}) <= AllNodes(F)
    ensures forall h :: h in F && h != x ==> NodesOf(F - {x}, h) == NodesOf(F, h)
  {
    var G := F - {x};
    forall h | h in G
      ensures NodesOf(G, h) == NodesOf(F, h) && x !in [h] + G[h]
    {
      NodesOfList(F, h);
      assert x in F ==> x in NodesOf(F, x);
      assert x !in NodesOf(F, h);
    }
  }

  /** For a self-linked node, deletion is leaving the family. */
  lemma DeletedSelf(F: Family, x: ListHead)
    requires Apart(F) && SelfLinked(F, x)
    ensures Deleted(F, x) == F - {x}
    ensures Apart(F - {x}) && x !in AllNodes(F - {x}) && AllNodes(F - {x}) <= AllNodes(F)
  {
    Released(F, x);
    forall h | h in F - {x}
      ensures Without(F[h], x) == F[h]
    {
      NodesOfList(F - {x}, h);
      WithoutNone(F[h], x);
    }
  }

  lemma DeletableIsNode(F: Family, x: ListHead)
    requires Deletable(F, x)
    ensures x in AllNodes(F)
  {
    if IsMember(F, x) {
      MemberIsNode(F, x);
    } else {
      NodesOfList(F, x);
    }
  }

  lemma NewHead(F: Family, x: ListHead)
    requires Apart(F) && x !in AllNodes(F)
    ensures Apart(F[x := []])
  {
    var G := F[x := []];
    forall g, h | g in G && h in G && g != h
      ensures NodesOf(G, g) !! NodesOf(G, h)
    {
      if g != x {
        NodesOfList(F, g);
      }
      if h != x {
        NodesOfList(F, h);
      }
      if g != x && h != x {
        assert NodesOf(G, g) == NodesOf(F, g) && NodesOf(G, h) == NodesOf(F, h);
      }
    }
  }

  lemma SpliceFrame(F: Family, list: ListHead, head: ListHead)
    requires Apart(F) && list in F && head in F && list != head && Distinct([list] + F[list])
    ensures forall x :: x in [list] + F[list] ==> x !in [head] + F[head]
    ensures forall x :: x in F[list] ==> x in NodesOf(F, list) && x in AllNodes(F) && x != list
    ensures forall i :: 0 <= i < |F[head]| + 2 ==>
              NodeAt(head, F[head], i) in NodesOf(F, head)
              && NodeAt(head, F[head], i) in AllNodes(F) && NodeAt(head, F[head], i) != list
  {
    NodesOfList(F, head);
    NodesOfList(F, list);
    assert NodesOf(F, head) !! NodesOf(F, list);
    assert list in NodesOf(F, list);
    forall x | x in F[list]
      ensures x != list && x in NodesOf(F, list)
    {
      var i :| 0 <= i < |F[list]| && F[list][i] == x;
      assert ([list] + F[list])[0] == list && ([list] + F[list])[i + 1] == x;
    }
    forall i | 0 <= i < |F[head]| + 2
      ensures NodeAt(head, F[head], i) in NodesOf(F, head)
    {
      assert NodeAt(head, F[head], i) in [head] + F[head];
    }
  }

  lemma SplicedApart(F: Family, list: ListHead, h: ListHead, s: seq<ListHead>)
    requires Apart(F) && list in F && h in F && list != h
    requires forall x :: x in s ==> x in F[list] || x in F[h]
    requires list !in F[list]
    ensures Apart(Spliced(F, list, h, s))
    ensures F[list] != [] ==> list !in AllNodes(Spliced(F, list, h, s))
  {
    var G := Spliced(F, list, h, s);
    if F[list] != [] {
      forall g | g in G
        ensures list !in [g] + G[g]
      {
        assert list in NodesOf(F, list);
        assert list !in NodesOf(F, g);
      }
    }
    forall f, g | f in G && g in G && f != g
      ensures NodesOf(G, f) !! NodesOf(G, g)
    {
      assert NodesOf(F, f) !! NodesOf(F, g);
      if F[list] != [] {
        assert NodesOf(F, f) !! NodesOf(F, list) && NodesOf(F, g) !! NodesOf(F, list);
        assert NodesOf(G, f) <= NodesOf(F, f) + if f == h then NodesOf(F, list) else {};
        assert NodesOf(G, g) <= NodesOf(F, g) + if g == h then NodesOf(F, list) else {};
      }
    }
  }

  // The operations on the heap

  /** _list_add between the k-th node of a list and the next. */
  method Attach(x: ListHead, prev: ListHead, next: ListHead, ghost head: ListHead, ghost F: Family, ghost k: nat)
    returns (ghost G: Family)
    requires Valid(F) && head in F && head != x && Addable(F, x) && k <= |F[head]|
    requires prev == NodeAt(head, F[head], k) && next == NodeAt(head, F[head], k + 1)
    modifies x, NodesOf(F, head)
    ensures Valid(G) && G == Inserted(F, x, head, k)
  {
    ghost var E, s := F - {x}, F[head];
    Released(F, x);
    NodesOfList(E, head);
    assert prev in [head] + s && next in [head] + s;
    AddBetween(x, prev, next, head, s, k);
    forall g | g in E && g != head
      ensures Ring(g, E[g])
    {
      NodesOfList(E, g);
      assert NodesOf(E, g) !! NodesOf(E, head);
      assert old(Ring(g, E[g]));
    }
    G := Inserted(F, x, head, k);
    ApartAfter(E, head, G[head]);
  }

  /** list_add: behind the head, which makes it the first member, or behind any member. */
  method ListAdd(x: ListHead, p: ListHead, ghost F: Family) returns (ghost G: Family)
    requires Valid(F) && p in AllNodes(F) && p != x && Addable(F, x)
    modifies x, AllNodes(F)
    ensures Valid(G) && G == Added(F, x, p)
  {
    ghost var h, k := BehindPlace(F, p);
    NodesOfList(F, h);
    assert Ring(h, F[h]) && LinkAt(Around(h, F[h]), k);
    Released(F, x);
    PlacedBehindAt(F - {x}, h, k, [x]);
    G := Attach(x, p, p.next, h, F, k);
  }

  /** list_add_tail: in front of the head, which makes it the last member, or of any member. */
  method ListAddTail(x: ListHead, p: ListHead, ghost F: Family) returns (ghost G: Family)
    requires Valid(F) && p in AllNodes(F) && p != x && Addable(F, x)
    modifies x, AllNodes(F)
    ensures Valid(G) && G == AddedTail(F, x, p)
  {
    ghost var h, k := BeforePlace(F, p);
    NodesOfList(F, h);
    assert Ring(h, F[h]) && LinkAt(Around(h, F[h]), k);
    Released(F, x);
    PlacedBeforeAt(F - {x}, h, k, [x]);
    G := Attach(x, p.prev, p, h, F, k);
  }

  lemma PlaceOf(F: Family, x: ListHead) returns (h: ListHead, k: nat)
    requires Deletable(F, x)
    ensures h in F && if F[h] == [] then x == h else k < |F[h]| && x == F[h][k]
  {
    h, k := x, 0;
    if IsMember(F, x) {
      h :| h in F && x in F[h];
      k :| 0 <= k < |F[h]| && F[h][k] == x;
    }
  }

  /** What the family is after x, the k-th member of h or h itself alone, was unlinked. */
  lemma DetachedFamily(F: Family, h: ListHead, k: nat, x: ListHead)
    requires Apart(F) && h in F && Distinct([h] + F[h])
    requires if F[h] == [] then x == h else k < |F[h]| && x == F[h][k]
    ensures
      var G := Deleted(F, x);
      && Apart(G) && x !in AllNodes(G) && AllNodes(G) <= AllNodes(F)
      && (forall g :: g in G && g != h ==> g in F && G[g] == F[g])
      && (h in G ==> F[h] != [] && G[h] == F[h][..k] + F[h][k + 1..])
  {
    if F[h] == [] {
      DeletedSelf(F, x);
    } else {
      DeletedAt(F, h, k);
      ApartAfter(F, h, Deleted(F, x)[h]);
      DeletedNodes(F, h, k);
    }
  }

  /** _list_del */
  method Detach(x: ListHead, ghost F: Family) returns (ghost G: Family)
    requires Valid(F) && Deletable(F, x)
    modifies AllNodes(F)
    ensures Valid(G) && G == Deleted(F, x) && x !in AllNodes(G) && AllNodes(G) <= AllNodes(F)
  {
    ghost var h, k := PlaceOf(F, x);
    ghost var s := F[h];
    assert Ring(h, s);
    NodesOfList(F, h);
    assert Neighbour(h, s, k, 0) in [h] + s && Neighbour(h, s, k, 2) in [h] + s;
    DetachedFamily(F, h, k, x);
    Unlink(x, h, s, k);
    G := Deleted(F, x);
    forall g | g in G
      ensures Ring(g, G[g])
    {
      if g != h {
        NodesOfList(F, g);
        assert NodesOf(F, g) !! NodesOf(F, h);
        assert old(Ring(g, F[g]));
      }
    }
  }

  method ListDel(x: ListHead, ghost F: Family) returns (ghost G: Family)
    requires Valid(F) && Deletable(F, x)
    modifies AllNodes(F)
    ensures Valid(G) && G == Deleted(F, x) && x !in AllNodes(G) && AllNodes(G) <= AllNodes(F)
    ensures x.next == null && x.prev == null
  {
    DeletableIsNode(F, x);
    G := Detach(x, F);
    x.next, x.prev := null, null;
  }

  /** The node may be added or deleted again afterwards, see `ReusableAfterDelInit`. */
  method ListDelInit(x: ListHead, ghost F: Family) returns (ghost G: Family)
    requires Valid(F) && Deletable(F, x)
    modifies AllNodes(F)
    ensures Valid(G) && G == Deleted(F, x)[x := []]
  {
    DeletableIsNode(F, x);
    G := Detach(x, F);
    InitListHead(x);
    assert Valid(G);
    NewHead(G, x);
    G := G[x := []];
  }

  /** Deleting a node leaves every other one where it can be found. */
  lemma OthersStay(F: Family, x: ListHead, p: ListHead)
    requires Valid(F) && Deletable(F, x) && p in AllNodes(F) && p != x
    ensures p in AllNodes(Deleted(F, x))
  {
    var G := Deleted(F, x);
    var h :| h in F && p in [h] + F[h];
    var g, k := PlaceOf(F, x);
    if F[g] != [] {
      MemberIsNoHead(F, g, k);
    }
    assert h != x;
    WithoutMember(F[h], x);
    assert p in [h] + G[h];
  }

  method ListMove(x: ListHead, p: ListHead, ghost F: Family) returns (ghost G: Family)
    requires Valid(F) && Deletable(F, x) && p in AllNodes(F) && p != x
    modifies AllNodes(F)
    ensures Valid(G) && G == Added(Deleted(F, x), x, p)
  {
    DeletableIsNode(F, x);
    OthersStay(F, x, p);
    G := Detach(x, F);
    G := ListAdd(x, p, G);
  }

  method ListMoveTail(x: ListHead, p: ListHead, ghost F: Family) returns (ghost G: Family)
    requires Valid(F) && Deletable(F, x) && p in AllNodes(F) && p != x
    modifies AllNodes(F)
    ensures Valid(G) && G == AddedTail(Deleted(F, x), x, p)
  {
    DeletableIsNode(F, x);
    OthersStay(F, x, p);
    G := Detach(x, F);
    G := ListAddTail(x, p, G);
  }

  /** _list_splice between the k-th node of a list and the next. */
  method Splice(list: ListHead, prev: ListHead, next: ListHead, ghost head: ListHead, ghost F: Family, ghost k: nat)
    returns (ghost G: Family)
    requires Valid(F) && list in F && head in F && list != head && k <= |F[head]|
    requires prev == NodeAt(head, F[head], k) && next == NodeAt(head, F[head], k + 1)
    modifies AllNodes(F) - {list}
    ensures Valid(G) && G == Spliced(F, list, head, F[head][..k] + F[list] + F[head][k..])
    ensures F[list] != [] ==> list !in AllNodes(G)
  {
    ghost var s, t := F[head], F[list];
    SpliceFrame(F, list, head);
    assert prev in NodesOf(F, head) && next in NodesOf(F, head);
    SpliceBetween(list, prev, next, t, head, s, k);
    forall g | g in F && g != head && g != list
      ensures Ring(g, F[g])
    {
      NodesOfList(F, g);
      assert NodesOf(F, g) !! NodesOf(F, head) && NodesOf(F, g) !! NodesOf(F, list);
      assert old(Ring(g, F[g]));
      ghost var p := Around(g, F[g]);
      forall i | 0 <= i < |p| - 1
        ensures LinkAt(p, i)
      {
        assert p[i] in [g] + F[g] && p[i + 1] in [g] + F[g];
        assert old(LinkAt(p, i));
      }
    }
    ghost var u := s[..k] + t + s[k..];
    G := Spliced(F, list, head, u);
    SplicedApart(F, list, head, u);
    assert t == [] ==> u == s;
    assert forall g :: g in G ==> Ring(g, G[g]);
  }

  lemma FewerApart(F: Family, list: ListHead)
    requires Apart(F)
    ensures Apart(F - {list})
  {
    var G := F - {list};
    forall g, h | g in G && h in G && g != h
      ensures NodesOf(G, g) !! NodesOf(G, h)
    {
      assert NodesOf(G, g) == NodesOf(F, g) && NodesOf(G, h) == NodesOf(F, h);
    }
  }

  /** `list` heads a list that the node `p` is not part of. */
  ghost predicate Spliceable(F: Family, list: ListHead, p: ListHead) {
    list in F && p in AllNodes(F) && p !in NodesOf(F, list)
  }

  method ListSplice(list: ListHead, p: ListHead, ghost F: Family) returns (ghost G: Family)
    requires Valid(F) && Spliceable(F, list, p)
    modifies AllNodes(F) - {list}
    ensures Valid(G) && G == SplicedBehind(F, list, p)
    ensures F[list] != [] ==> list !in AllNodes(G)
  {
    ghost var h, k := BehindPlace(F, p);
    assert Ring(h, F[h]) && LinkAt(Around(h, F[h]), k);
    FewerApart(F, list);
    PlacedBehindAt(F - {list}, h, k, F[list]);
    G := Splice(list, p, p.next, h, F, k);
  }

  method ListSpliceTail(list: ListHead, p: ListHead, ghost F: Family) returns (ghost G: Family)
    requires Valid(F) && Spliceable(F, list, p)
    modifies AllNodes(F) - {list}
    ensures Valid(G) && G == SplicedBefore(F, list, p)
    ensures F[list] != [] ==> list !in AllNodes(G)
  {
    ghost var h, k := BeforePlace(F, p);
    assert Ring(h, F[h]) && LinkAt(Around(h, F[h]), k);
    FewerApart(F, list);
    PlacedBeforeAt(F - {list}, h, k, F[list]);
    G := Splice(list, p.prev, p, h, F, k);
  }

  /** INIT_LIST_HEAD on a node in no list, or on the head of an empty one. */
  method ResetHead(list: ListHead, ghost F: Family) returns (ghost G: Family)
    requires Valid(F) && Addable(F, list)
    modifies list
    ensures Valid(G) && G == F[list := []]
  {
    G := F - {list};
    Released(F, list);
    assert Valid(G);
    InitListHead(list);
    assert Valid(G);
    NewHead(G, list);
    G := G[list := []];
    assert G == F[list := []];
  }

  method ListSpliceInit(list: ListHead, p: ListHead, ghost F: Family) returns (ghost G: Family)
    requires Valid(F) && Spliceable(F, list, p)
    modifies AllNodes(F)
    ensures Valid(G) && G == SplicedBehind(F, list, p)[list := []]
  {
    NodesOfList(F, list);
    G := ListSplice(list, p, F);
    G := ResetHead(list, G);
  }

  method ListSpliceTailInit(list: ListHead, p: ListHead, ghost F: Family) returns (ghost G: Family)
    requires Valid(F) && Spliceable(F, list, p)
    modifies AllNodes(F)
    ensures Valid(G) && G == SplicedBefore(F, list, p)[list := []]
  {
    NodesOfList(F, list);
    G := ListSpliceTail(list, p, F);
    G := ResetHead(list, G);
  }

  // Whole runs

  /** `x` and `list` are what the operation is about, `p` is the head or member it works at. */
  datatype Op =
    | Init(x: ListHead)
    | Add(x: ListHead, p: ListHead)
    | AddTail(x: ListHead, p: ListHead)
    | Del(x: ListHead)
    | DelInit(x: ListHead)
    | Move(x: ListHead, p: ListHead)
    | MoveTail(x: ListHead, p: ListHead)
    | SpliceOnly(list: ListHead, p: ListHead)
    | SpliceTailOnly(list: ListHead, p: ListHead)
    | SpliceInit(list: ListHead, p: ListHead)
    | SpliceTailInit(list: ListHead, p: ListHead)

  /** What the operations ask of their callers. */
  ghost predicate Enabled(F: Family, op: Op) {
    match op
    case Init(x) => Addable(F, x)
    case Add(x, p) => p in AllNodes(F) && p != x && Addable(F, x)
    case AddTail(x, p) => p in AllNodes(F) && p != x && Addable(F, x)
    case Del(x) => Deletable(F, x)
    case DelInit(x) => Deletable(F, x)
    case Move(x, p) => p in AllNodes(F) && p != x && Deletable(F, x)
    case MoveTail(x, p) => p in AllNodes(F) && p != x && Deletable(F, x)
    case _ => Spliceable(F, op.list, op.p)
  }

  ghost function Apply(F: Family, op: Op): Family
    requires Enabled(F, op)
  {
    match op
    case Init(x) => F[x := []]
    case Add(x, p) => Added(F, x, p)
    case AddTail(x, p) => AddedTail(F, x, p)
    case Del(x) => Deleted(F, x)
    case DelInit(x) => Deleted(F, x)[x := []]
    case Move(x, p) => Added(Deleted(F, x), x, p)
    case MoveTail(x, p) => AddedTail(Deleted(F, x), x, p)
    case SpliceOnly(list, p) => SplicedBehind(F, list, p)
    case SpliceTailOnly(list, p) => SplicedBefore(F, list, p)
    case SpliceInit(list, p) => SplicedBehind(F, list, p)[list := []]
    case SpliceTailInit(list, p) => SplicedBefore(F, list, p)[list := []]
  }

  /** Operations whose node need not have been in any list. */
  ghost predicate Enters(op: Op) {
    op.Init? || op.Add? || op.AddTail?
  }

  ghost function Entering(ops: seq<Op>): set<ListHead> {
    set op | op in ops && Enters(op) :: op.x
  }

  ghost predicate Runs(F: Family, ops: seq<Op>)
    decreases |ops|
  {
    ops == [] || (Enabled(F, ops[0]) && Runs(Apply(F, ops[0]), ops[1..]))
  }

  ghost function Final(F: Family, ops: seq<Op>): Family
    requires Runs(F, ops)
    decreases |ops|
  {
    if ops == [] then F else Final(Apply(F, ops[0]), ops[1..])
  }

  lemma {:induction false} WithoutMember(s: seq<ListHead>, x: ListHead)
    ensures forall y :: y in Without(s, x) <==> y in s && y != x
    decreases |s|
  {
    if s != [] {
      WithoutMember(s[1..], x);
    }
  }

  /** Everything in `r` is in `s` or in `extra`. */
  ghost predicate Among(r: seq<ListHead>, s: seq<ListHead>, extra: set<ListHead>) {
    forall y :: y in r ==> y in s || y in extra
  }

  lemma {:induction false} PlacedAmong(s: seq<ListHead>, p: ListHead, t: seq<ListHead>, extra: set<ListHead>)
    requires forall y :: y in t ==> y in extra
    ensures Among(Behind(s, p, t), s, extra) && Among(Before(s, p, t), s, extra)
    decreases |s|
  {
    if s != [] {
      PlacedAmong(s[1..], p, t, extra);
    }
  }

  lemma WithoutAmong(s: seq<ListHead>, x: ListHead)
    ensures Among(Without(s, x), s, {})
  {
    WithoutMember(s, x);
  }

  /** Lists whose members come from `F` and `extra` have no other nodes. */
  lemma NodesWithin(F: Family, G: Family, extra: set<ListHead>)
    requires forall g :: g in G ==> if g in F then Among(G[g], F[g], extra) else g in extra && G[g] == []
    ensures AllNodes(G) <= AllNodes(F) + extra
  {
    forall y | y in AllNodes(G)
      ensures y in AllNodes(F) + extra
    {
      var g :| g in G && y in [g] + G[g];
      if g in F {
        NodesOfList(F, g);
      }
    }
  }

  lemma PlacedNodes(F: Family, p: ListHead, t: seq<ListHead>, extra: set<ListHead>)
    requires forall y :: y in t ==> y in extra
    ensures AllNodes(PlacedBehind(F, p, t)) <= AllNodes(F) + extra
    ensures AllNodes(PlacedBefore(F, p, t)) <= AllNodes(F) + extra
  {
    var G, H := PlacedBehind(F, p, t), PlacedBefore(F, p, t);
    forall h | h in F
      ensures Among(G[h], F[h], extra) && Among(H[h], F[h], extra)
    {
      PlacedAmong(F[h], p, t, extra);
    }
    NodesWithin(F, G, extra);
    NodesWithin(F, H, extra);
  }

  lemma FewerNodes(F: Family, x: ListHead)
    ensures AllNodes(F - {x}) <= AllNodes(F) && AllNodes(Deleted(F, x)) <= AllNodes(F)
  {
    forall h | h in F
      ensures Among(Without(F[h], x), F[h], {})
    {
      WithoutAmong(F[h], x);
    }
    NodesWithin(F, F - {x}, {});
    NodesWithin(F, Deleted(F, x), {});
  }

  lemma OneMoreHead(F: Family, x: ListHead)
    ensures AllNodes(F[x := []]) <= AllNodes(F) + {x}
  {
    NodesWithin(F, F[x := []], {x});
  }

  /** What an added, moved or deleted node does to the set of nodes. */
  lemma NodesOfEntry(F: Family, x: ListHead, p: ListHead)
    ensures AllNodes(Added(F, x, p)) <= AllNodes(F) + {x}
    ensures AllNodes(AddedTail(F, x, p)) <= AllNodes(F) + {x}
  {
    FewerNodes(F, x);
    PlacedNodes(F - {x}, p, [x], {x});
  }

  lemma NodesOfSplice(F: Family, list: ListHead, p: ListHead)
    requires list in F
    ensures AllNodes(SplicedBehind(F, list, p)) <= AllNodes(F)
    ensures AllNodes(SplicedBefore(F, list, p)) <= AllNodes(F)
    ensures list in AllNodes(F)
  {
    NodesOfList(F, list);
    FewerNodes(F, list);
    PlacedNodes(F - {list}, p, F[list], AllNodes(F));
  }

  /** Nodes come into lists only by being initialised or added. */
  lemma NodesOfApply(F: Family, op: Op)
    requires Enabled(F, op)
    ensures AllNodes(Apply(F, op)) <= AllNodes(F) + Entering([op])
  {
    if Enters(op) {
      EntersNow(op);
    }
    match op
    case Init(x) => OneMoreHead(F, x);
    case Add(x, p) => NodesOfEntry(F, x, p);
    case AddTail(x, p) => NodesOfEntry(F, x, p);
    case Del(x) => FewerNodes(F, x);
    case DelInit(x) =>
      DeletableIsNode(F, x);
      FewerNodes(F, x);
      OneMoreHead(Deleted(F, x), x);
    case Move(x, p) =>
      DeletableIsNode(F, x);
      FewerNodes(F, x);
      NodesOfEntry(Deleted(F, x), x, p);
    case MoveTail(x, p) =>
      DeletableIsNode(F, x);
      FewerNodes(F, x);
      NodesOfEntry(Deleted(F, x), x, p);
    case SpliceOnly(list, p) => NodesOfSplice(F, list, p);
    case SpliceTailOnly(list, p) => NodesOfSplice(F, list, p);
    case SpliceInit(list, p) =>
      NodesOfSplice(F, list, p);
      OneMoreHead(SplicedBehind(F, list, p), list);
    case SpliceTailInit(list, p) =>
      NodesOfSplice(F, list, p);
      OneMoreHead(SplicedBefore(F, list, p), list);
  }

  lemma EntersNow(op: Op)
    requires Enters(op)
    ensures op.x in Entering([op])
  {
    assert op in [op];
  }

  method Execute(op: Op, ghost F: Family) returns (ghost G: Family)
    requires Valid(F) && Enabled(F, op)
    modifies AllNodes(F), Entering([op])
    ensures Valid(G) && G == Apply(F, op)
  {
    if Enters(op) {
      EntersNow(op);
    }
    match op
    case Init(x) => G := ResetHead(x, F);
    case Add(x, p) => G := ListAdd(x, p, F);
    case AddTail(x, p) => G := ListAddTail(x, p, F);
    case Del(x) => G := ListDel(x, F);
    case DelInit(x) => G := ListDelInit(x, F);
    case Move(x, p) => G := ListMove(x, p, F);
    case MoveTail(x, p) => G := ListMoveTail(x, p, F);
    case SpliceOnly(list, p) => G := ListSplice(list, p, F);
    case SpliceTailOnly(list, p) => G := ListSpliceTail(list, p, F);
    case SpliceInit(list, p) => G := ListSpliceInit(list, p, F);
    case SpliceTailInit(list, p) => G := ListSpliceTailInit(list, p, F);
  }

  /** A node that list_del_init took out can be deleted again, added and moved like any other. */
  lemma ReusableAfterDelInit(F: Family, x: ListHead, p: ListHead)
    requires Deletable(F, x) && p != x && p in AllNodes(Deleted(F, x))
    ensures p in AllNodes(F)
    ensures
      var G := Apply(F, DelInit(x));
      && Enabled(G, DelInit(x)) && Apply(G, DelInit(x)) == G
      && Enabled(G, Add(x, p)) && Apply(G, Add(x, p)) == Apply(F, Move(x, p))
      && Enabled(G, Move(x, p)) && Apply(G, Move(x, p)) == Apply(F, Move(x, p))
  {
    FewerNodes(F, x);
    DeletedTwice(F, x);
    NodesStay(Deleted(F, x), x, p);
  }

  lemma DeletedTwice(F: Family, x: ListHead)
    ensures
      var D := Deleted(F, x);
      D[x := []] - {x} == D && Deleted(D[x := []], x) == D
  {
    var D := Deleted(F, x);
    forall g | g in D
      ensures Without(D[g], x) == D[g]
    {
      WithoutMember(F[g], x);
      WithoutNone(D[g], x);
    }
  }

  lemma NodesStay(F: Family, x: ListHead, p: ListHead)
    requires x !in F && p in AllNodes(F)
    ensures p in AllNodes(F[x := []])
  {
    var g :| g in F && p in [g] + F[g];
    NodesOfList(F[x := []], g);
  }

  // Where the operations put the nodes, list by list and position by position

  /** `t` behind the k-th node of the list, which is in front of the next one. */
  ghost function At(F: Family, h: ListHead, k: nat, t: seq<ListHead>): Family
    requires h in F && k <= |F[h]|
  {
    F[h := F[h][..k] + t + F[h][k..]]
  }

  /**
   list_add puts the node behind the k-th node of a list, the head being the 0-th; list_add_tail
   puts it in front of the next one, which behind the last member is the head again.
   */
  lemma AddAt(F: Family, x: ListHead, h: ListHead, k: nat)
    requires Apart(F) && h in F && h != x && Addable(F, x) && Distinct([h] + F[h]) && k <= |F[h]|
    ensures
      var p, q := NodeAt(h, F[h], k), NodeAt(h, F[h], k + 1);
      && Enabled(F, Add(x, p)) && Apply(F, Add(x, p)) == At(F - {x}, h, k, [x])
      && Enabled(F, AddTail(x, q)) && Apply(F, AddTail(x, q)) == At(F - {x}, h, k, [x])
  {
    Released(F, x);
    NodesOfList(F, h);
    NodesOfList(F - {x}, h);
    assert NodeAt(h, F[h], k) in [h] + F[h] && NodeAt(h, F[h], k + 1) in [h] + F[h];
    PlacedBehindAt(F - {x}, h, k, [x]);
    PlacedBeforeAt(F - {x}, h, k, [x]);
  }

  /** list_add at a head makes the node the first member, list_add_tail the last one. */
  lemma AddAtHead(F: Family, x: ListHead, h: ListHead)
    requires h in F && Enabled(F, Add(x, h))
    ensures Apply(F, Add(x, h))[h] == [x] + F[h] && Apply(F, AddTail(x, h))[h] == F[h] + [x]
  {
  }

  /** INIT_LIST_HEAD makes an empty list of the node and changes no other. */
  lemma InitAt(F: Family, x: ListHead, h: ListHead)
    requires Enabled(F, Init(x))
    ensures
      var G := Apply(F, Init(x));
      x in G && G[x] == [] && (h != x ==> (h in G <==> h in F)) && (h != x && h in F ==> G[h] == F[h])
  {
  }

  /** A deleted member leaves the others in order; a self-linked node leaves no list. */
  lemma DeleteAt(F: Family, h: ListHead, k: nat)
    requires Apart(F) && h in F && Distinct([h] + F[h]) && k < |F[h]|
    ensures
      var x, G := F[h][k], F[h := F[h][..k] + F[h][k + 1..]];
      Enabled(F, Del(x)) && Apply(F, Del(x)) == G && Apply(F, DelInit(x)) == G[x := []]
  {
    assert IsMember(F, F[h][k]);
    DeletedAt(F, h, k);
  }

  lemma DeleteSelf(F: Family, x: ListHead)
    requires Apart(F) && SelfLinked(F, x)
    ensures Apply(F, Del(x)) == F - {x} && Apply(F, DelInit(x)) == F
  {
    DeletedSelf(F, x);
  }

  /** A moved node is taken out first; the positions are those of the lists without it. */
  lemma MoveAt(F: Family, x: ListHead, h: ListHead, k: nat)
    requires Valid(F) && Deletable(F, x) && h in Deleted(F, x) && k <= |Deleted(F, x)[h]|
    ensures
      var G := Apply(F, Del(x));
      var p, q := NodeAt(h, G[h], k), NodeAt(h, G[h], k + 1);
      && Enabled(F, Move(x, p)) && Apply(F, Move(x, p)) == At(G, h, k, [x])
      && Enabled(F, MoveTail(x, q)) && Apply(F, MoveTail(x, q)) == At(G, h, k, [x])
  {
    var G := Deleted(F, x);
    var p, q := NodeAt(h, G[h], k), NodeAt(h, G[h], k + 1);
    var g, j := PlaceOf(F, x);
    DetachedFamily(F, g, j, x);
    StillDistinct(F, x, h);
    NodesOfList(G, h);
    assert p in [h] + G[h] && q in [h] + G[h];
    FewerNodes(F, x);
    assert G - {x} == G;
    PlacedBehindAt(G, h, k, [x]);
    PlacedBeforeAt(G, h, k, [x]);
  }

  lemma StillDistinct(F: Family, x: ListHead, h: ListHead)
    requires h in F && h != x && Distinct([h] + F[h])
    ensures Distinct([h] + Without(F[h], x))
  {
    var s, r := F[h], [h] + F[h];
    assert r[1..] == s && Distinct(r[1..]) && r[0] == h;
    assert forall i :: 0 <= i < |s| ==> s[i] == r[i + 1];
    WithoutDistinct(s, x);
    WithoutMember(s, x);
    PrependedDistinct(h, Without(s, x));
  }

  lemma PrependedDistinct(x: ListHead, s: seq<ListHead>)
    requires Distinct(s) && x !in s
    ensures Distinct([x] + s)
  {
    var r := [x] + s;
    assert forall i :: 0 < i < |r| ==> r[i] == s[i - 1];
  }

  lemma {:induction false} WithoutDistinct(s: seq<ListHead>, x: ListHead)
    requires Distinct(s)
    ensures Distinct(Without(s, x))
    decreases |s|
  {
    if s != [] {
      WithoutDistinct(s[1..], x);
      WithoutMember(s[1..], x);
      assert s[0] !in s[1..];
      PrependedDistinct(s[0], Without(s[1..], x));
    }
  }

  /**
   A splice puts all members of the source behind the k-th node of the destination, in their
   order; the head of a source that had members is left dangling, or made an empty list.
   */
  lemma SpliceAt(F: Family, list: ListHead, h: ListHead, k: nat)
    requires Apart(F) && list in F && h in F && list != h && Distinct([h] + F[h]) && k <= |F[h]|
    ensures
      var p, q := NodeAt(h, F[h], k), NodeAt(h, F[h], k + 1);
      var G := if F[list] == [] then F else At(F - {list}, h, k, F[list]);
      && Spliceable(F, list, p) && Spliceable(F, list, q)
      && Apply(F, SpliceOnly(list, p)) == G && Apply(F, SpliceInit(list, p)) == G[list := []]
      && Apply(F, SpliceTailOnly(list, q)) == G && Apply(F, SpliceTailInit(list, q)) == G[list := []]
  {
    var p, q := NodeAt(h, F[h], k), NodeAt(h, F[h], k + 1);
    NodesOfList(F, h);
    assert p in [h] + F[h] && q in [h] + F[h];
    assert NodesOf(F, h) !! NodesOf(F, list);
    FewerApart(F, list);
    PlacedBehindAt(F - {list}, h, k, F[list]);
    PlacedBeforeAt(F - {list}, h, k, F[list]);
  }

  /** At a head, list_splice gives source then destination, list_splice_tail the other way round. */
  lemma SpliceAtHead(F: Family, list: ListHead, h: ListHead)
    requires list in F && h in F && list != h && Spliceable(F, list, h)
    ensures Apply(F, SpliceOnly(list, h))[h] == F[list] + F[h]
    ensures Apply(F, SpliceTailOnly(list, h))[h] == F[h] + F[list]
  {
  }

  /**
   Any run of operations on any family of lists: the heap holds exactly the lists that the
   same operations make of sequences, every node in at most one of them.
   */
  method Run(ops: seq<Op>, ghost F: Family) returns (ghost G: Family)
    requires Valid(F) && Runs(F, ops)
    modifies AllNodes(F), Entering(ops)
    ensures Valid(G) && G == Final(F, ops)
  {
    G := F;
    for i := 0 to |ops|
      invariant Valid(G) && Runs(G, ops[i..]) && Final(G, ops[i..]) == Final(F, ops)
      invariant AllNodes(G) <= AllNodes(F) + Entering(ops)
    {
      assert ops[i..][0] == ops[i] && ops[i..][1..] == ops[i + 1..];
      assert Entering([ops[i]]) <= Entering(ops);
      NodesOfApply(G, ops[i]);
      G := Execute(ops[i], G);
    }
    assert ops[|ops|..] == [];
  }
}
