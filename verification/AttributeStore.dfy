/**
 The attribute store of an endpoint, classes Cluster and EndpointType of DeviceDefine.h:
 vectors that are searched from the front and changed at the first match.
 */
module AttributeStoreSpec {
  import opened Basics

  datatype Attribute = Attribute(id: nat, ty: nat, val: string)
  datatype ClusterData = ClusterData(id: nat, mask: nat, attrs: seq<Attribute>)

  // One cluster

  function Upsert(attrs: seq<Attribute>, a: Attribute): seq<Attribute> {
    if attrs == [] then [a]
    else if attrs[0].id == a.id then [attrs[0].(val := a.val)] + attrs[1..]
    else [attrs[0]] + Upsert(attrs[1..], a)
  }

  function Lookup(attrs: seq<Attribute>, id: nat): Option<Attribute> {
    if attrs == [] then None
    else if attrs[0].id == id then Some(attrs[0])
    else Lookup(attrs[1..], id)
  }

  ghost predicate UniqueIds(attrs: seq<Attribute>) {
    forall i, j :: 0 <= i < j < |attrs| ==> attrs[i].id != attrs[j].id
  }

  /** What a write makes of the attribute found before it: a new value under the first type. */
  function Written(before: Option<Attribute>, a: Attribute): Attribute {
    Attribute(a.id, if before.Some? then before.value.ty else a.ty, a.val)
  }

  lemma {:induction false} LookupAfterUpsert(attrs: seq<Attribute>, a: Attribute, id: nat)
    ensures Lookup(Upsert(attrs, a), id)
            == if id == a.id then Some(Written(Lookup(attrs, id), a)) else Lookup(attrs, id)
    decreases |attrs|
  {
    if attrs != [] {
      LookupAfterUpsert(attrs[1..], a, id);
    }
  }

  /** The first match is changed in place; without one the attribute comes last. */
  lemma {:induction false} UpsertAt(attrs: seq<Attribute>, a: Attribute, k: nat)
    requires k <= |attrs| && (k < |attrs| ==> attrs[k].id == a.id)
    requires forall i :: 0 <= i < k ==> attrs[i].id != a.id
    ensures Upsert(attrs, a) == if k < |attrs| then attrs[k := attrs[k].(val := a.val)] else attrs + [a]
    decreases |attrs|
  {
    if k > 0 {
      UpsertAt(attrs[1..], a, k - 1);
    }
  }

  lemma {:induction false} UpsertIds(attrs: seq<Attribute>, a: Attribute)
    ensures forall i :: 0 <= i < |Upsert(attrs, a)| ==>
              Upsert(attrs, a)[i].id == a.id || (i < |attrs| && Upsert(attrs, a)[i] == attrs[i])
    ensures UniqueIds(attrs) ==> UniqueIds(Upsert(attrs, a))
    decreases |attrs|
  {
    if attrs != [] && attrs[0].id != a.id {
      UpsertIds(attrs[1..], a);
      if UniqueIds(attrs) {
        assert UniqueIds(attrs[1..]);
        var r := Upsert(attrs[1..], a);
        forall i | 0 <= i < |r|
          ensures r[i].id != attrs[0].id
        {
          assert r[i].id == a.id || r[i] == attrs[1..][i];
        }
      }
    }
  }

  // The clusters of an endpoint

  /** Index of the first entry with this id, or the number of entries. */
  function First(v: seq<ClusterData>, id: nat): (k: nat)
    ensures k <= |v|
    ensures k < |v| ==> v[k].id == id
    ensures forall i :: 0 <= i < k ==> v[i].id != id
  {
    if v == [] then 0
    else if v[0].id == id then 0
    else 1 + First(v[1..], id)
  }

  predicate Known(v: seq<ClusterData>, id: nat) {
    First(v, id) < |v|
  }

  function Created(v: seq<ClusterData>, mask: nat, ids: seq<nat>): (r: seq<ClusterData>)
    ensures |r| == |v| + |ids| && r[..|v|] == v
    ensures forall i :: 0 <= i < |ids| ==> r[|v| + i] == ClusterData(ids[i], mask, [])
  {
    v + seq(|ids|, i requires 0 <= i < |ids| => ClusterData(ids[i], mask, []))
  }

  lemma CreatedParts(v: seq<ClusterData>, mask: nat, ids: seq<nat>)
    ensures
      var r := Created(v, mask, ids);
      && (forall i :: 0 <= i < |v| ==> r[i] == v[i])
      && (forall i :: |v| <= i < |r| ==> r[i] == ClusterData(ids[i - |v|], mask, []))
  {
  }

  function Updated(v: seq<ClusterData>, id: nat, a: Attribute): seq<ClusterData> {
    var k := First(v, id);
    if k < |v| then v[k := v[k].(attrs := Upsert(v[k].attrs, a))] else v
  }

  function Read(v: seq<ClusterData>, id: nat, attr: nat): Option<Attribute> {
    var k := First(v, id);
    if k < |v| then Lookup(v[k].attrs, attr) else None
  }

  lemma FirstIsUnique(v: seq<ClusterData>, id: nat, k: nat)
    requires k <= |v| && (k < |v| ==> v[k].id == id) && forall i :: 0 <= i < k ==> v[i].id != id
    ensures First(v, id) == k
  {
  }

  /** A write is seen by the reads it is about and by no other. */
  lemma ReadAfterUpdate(v: seq<ClusterData>, id: nat, a: Attribute, id': nat, attr: nat)
    ensures Known(Updated(v, id, a), id') == Known(v, id')
    ensures Read(Updated(v, id, a), id', attr)
            == if Known(v, id) && id' == id && attr == a.id
               then Some(Written(Read(v, id, attr), a)) else Read(v, id', attr)
  {
    var v', k := Updated(v, id, a), First(v, id);
    FirstIsUnique(v', id', First(v, id'));
    if k < |v| {
      LookupAfterUpsert(v[k].attrs, a, attr);
    }
  }

  lemma ReadAfterCreate(v: seq<ClusterData>, mask: nat, ids: seq<nat>, id: nat, attr: nat)
    ensures Known(Created(v, mask, ids), id) <==> Known(v, id) || id in ids
    ensures Read(Created(v, mask, ids), id, attr) == Read(v, id, attr)
  {
    var v' := Created(v, mask, ids);
    var k := First(v', id);
    assert forall i :: 0 <= i < |v| ==> v'[i] == v[i];
    if Known(v, id) {
      FirstIsUnique(v', id, First(v, id));
    } else if id in ids {
      var i :| 0 <= i < |ids| && ids[i] == id;
      assert v'[|v| + i].id == id;
      NotBefore(v, v', id);
      assert v'[|v| + (k - |v|)].attrs == [];
    } else {
      assert forall i :: |v| <= i < |v'| ==> v'[i] == ClusterData(ids[i - |v|], mask, []);
      FirstIsUnique(v', id, |v'|);
    }
  }

  lemma NotBefore(v: seq<ClusterData>, v': seq<ClusterData>, id: nat)
    requires |v| <= |v'| && !Known(v, id) && forall i :: 0 <= i < |v| ==> v'[i] == v[i]
    ensures First(v', id) >= |v|
  {
    if First(v', id) < |v| {
      assert v[First(v', id)].id == id;
    }
  }

  // Whole runs

  datatype Op = Create(mask: nat, ids: seq<nat>) | Update(id: nat, attr: Attribute)

  function Step(v: seq<ClusterData>, op: Op): seq<ClusterData> {
    match op
    case Create(mask, ids) => Created(v, mask, ids)
    case Update(id, a) => Updated(v, id, a)
  }

  function Run(ops: seq<Op>): seq<ClusterData> {
    if ops == [] then [] else Step(Run(ops[..|ops| - 1]), ops[|ops| - 1])
  }

  /** The cluster was in a list created by one of the operations. */
  ghost predicate WasCreated(ops: seq<Op>, id: nat) {
    exists i :: 0 <= i < |ops| && ops[i].Create? && id in ops[i].ids
  }

  /** The updates of one attribute that came after its cluster was created, oldest first. */
  ghost function Writes(ops: seq<Op>, id: nat, attr: nat): seq<Attribute> {
    if ops == [] then []
    else
      var rest, op := ops[..|ops| - 1], ops[|ops| - 1];
      Writes(rest, id, attr)
      + if op.Update? && op.id == id && op.attr.id == attr && WasCreated(rest, id) then [op.attr] else []
  }

  /** The first type and the last value. */
  function Summary(ws: seq<Attribute>): Option<Attribute> {
    if ws == [] then None else Some(Attribute(ws[0].id, ws[0].ty, ws[|ws| - 1].val))
  }

  lemma CreatedByOneMore(rest: seq<Op>, op: Op, id: nat)
    ensures WasCreated(rest + [op], id) <==> WasCreated(rest, id) || (op.Create? && id in op.ids)
  {
    var ops := rest + [op];
    assert ops[|rest|] == op;
    if WasCreated(rest, id) {
      var i :| 0 <= i < |rest| && rest[i].Create? && id in rest[i].ids;
      assert ops[i] == rest[i];
    }
  }

  lemma {:induction false} KnownIffCreated(ops: seq<Op>, id: nat)
    ensures Known(Run(ops), id) <==> WasCreated(ops, id)
    decreases |ops|
  {
    if ops != [] {
      var rest, op := ops[..|ops| - 1], ops[|ops| - 1];
      KnownIffCreated(rest, id);
      CreatedByOneMore(rest, op, id);
      assert ops == rest + [op];
      match op
      case Create(mask, ids) => ReadAfterCreate(Run(rest), mask, ids, id, 0);
      case Update(id', a) => ReadAfterUpdate(Run(rest), id', a, id, 0);
    }
  }

  lemma SummaryOfOneMore(ws: seq<Attribute>, a: Attribute)
    requires forall i :: 0 <= i < |ws| ==> ws[i].id == a.id
    ensures Summary(ws + [a]) == Some(Written(Summary(ws), a))
  {
  }

  /** What an operation on `v` effectively writes to one attribute. */
  function Effective(v: seq<ClusterData>, op: Op, id: nat, attr: nat): seq<Attribute> {
    if op.Update? && op.id == id && op.attr.id == attr && Known(v, id) then [op.attr] else []
  }

  lemma WritesOfOneMore(ops: seq<Op>, id: nat, attr: nat)
    requires ops != []
    ensures
      var rest, op := ops[..|ops| - 1], ops[|ops| - 1];
      Writes(ops, id, attr) == Writes(rest, id, attr) + Effective(Run(rest), op, id, attr)
  {
    KnownIffCreated(ops[..|ops| - 1], id);
  }

  ghost predicate AllOf(ws: seq<Attribute>, attr: nat) {
    forall i :: 0 <= i < |ws| ==> ws[i].id == attr
  }

  lemma ReadOneMore(v: seq<ClusterData>, op: Op, id: nat, attr: nat, ws: seq<Attribute>)
    requires Read(v, id, attr) == Summary(ws) && AllOf(ws, attr)
    ensures
      var ws' := ws + Effective(v, op, id, attr);
      Read(Step(v, op), id, attr) == Summary(ws') && AllOf(ws', attr)
  {
    match op
    case Create(mask, ids) =>
      ReadAfterCreate(v, mask, ids, id, attr);
      assert ws + [] == ws;
    case Update(id', a) =>
      ReadAfterUpdate(v, id', a, id, attr);
      if Effective(v, op, id, attr) == [] {
        assert ws + [] == ws;
      } else {
        SummaryOfOneMore(ws, a);
      }
  }

  /**
   In every run, reading an attribute gives the value of its last effective update under the
   type of its first, whatever was written to other attributes and clusters in between.
   */
  lemma {:induction false} ReadsLastWrite(ops: seq<Op>, id: nat, attr: nat)
    ensures Read(Run(ops), id, attr) == Summary(Writes(ops, id, attr)) && AllOf(Writes(ops, id, attr), attr)
    decreases |ops|
  {
    if ops != [] {
      var rest := ops[..|ops| - 1];
      ReadsLastWrite(rest, id, attr);
      WritesOfOneMore(ops, id, attr);
      ReadOneMore(Run(rest), ops[|ops| - 1], id, attr, Writes(rest, id, attr));
    }
  }

  /** In every run no cluster lists an attribute twice, and only the first entry of a cluster fills. */
  lemma {:induction false} EntriesStayProper(ops: seq<Op>)
    ensures forall i :: 0 <= i < |Run(ops)| ==> UniqueIds(Run(ops)[i].attrs)
    ensures forall j :: 0 <= j < |Run(ops)| && First(Run(ops), Run(ops)[j].id) < j ==> Run(ops)[j].attrs == []
    decreases |ops|
  {
    if ops != [] {
      var v, op := Run(ops[..|ops| - 1]), ops[|ops| - 1];
      EntriesStayProper(ops[..|ops| - 1]);
      var v' := Step(v, op);
      assert v' == Run(ops);
      match op
      case Create(mask, ids) =>
        forall j | 0 <= j < |v'|
          ensures UniqueIds(v'[j].attrs)
          ensures First(v', v'[j].id) < j ==> v'[j].attrs == []
        {
          if j < |v| {
            assert v'[j] == v[j];
            FirstIsUnique(v', v[j].id, First(v, v[j].id));
          } else {
            assert v'[|v| + (j - |v|)].attrs == [];
          }
        }
      case Update(id, a) =>
        var k := First(v, id);
        forall j | 0 <= j < |v'|
          ensures UniqueIds(v'[j].attrs)
          ensures First(v', v'[j].id) < j ==> v'[j].attrs == []
        {
          FirstIsUnique(v', v[j].id, First(v, v[j].id));
          if j == k {
            UpsertIds(v[k].attrs, a);
          }
        }
    }
  }
}

module AttributeStore {
  import opened AttributeStoreSpec
  import opened Basics

  class Cluster {
    const id: nat
    const mask: nat
    var attributes: seq<Attribute>

    constructor (id: nat, mask: nat)
      ensures this.id == id && this.mask == mask && attributes == []
    {
      this.id, this.mask, attributes := id, mask, [];
    }

    function Data(): ClusterData
      reads this
    {
      ClusterData(id, mask, attributes)
    }

    method AddOrUpdateAttributeData(attrId: nat, ty: nat, val: string) returns (ret: int)
      modifies this
      ensures ret == 0 && attributes == Upsert(old(attributes), Attribute(attrId, ty, val))
    {
      ghost var a := Attribute(attrId, ty, val);
      ret := 0;
      var it := 0;
      while it < |attributes|
        invariant it <= |attributes| && attributes == old(attributes)
        invariant forall i :: 0 <= i < it ==> attributes[i].id != attrId
      {
        if attrId == attributes[it].id {
          UpsertAt(attributes, a, it);
          attributes := attributes[it := attributes[it].(val := val)];
          return;
        }
        it := it + 1;
      }
      UpsertAt(attributes, a, it);
      attributes := attributes + [Attribute(attrId, ty, val)];
    }

    method FindAttributeData(attrId: nat) returns (r: Option<Attribute>)
      ensures r == Lookup(attributes, attrId)
    {
      var i := 0;
      while i < |attributes|
        invariant i <= |attributes|
        invariant Lookup(attributes[i..], attrId) == Lookup(attributes, attrId)
      {
        if attrId == attributes[i].id {
          return Some(attributes[i]);
        }
        i := i + 1;
      }
      return None;
    }
  }

  class EndpointType {
    var clusters: seq<Cluster>

    ghost predicate Valid()
      reads this
    {
      Distinct(clusters)
    }

    ghost function View(): (v: seq<ClusterData>)
      reads this, clusters
      ensures |v| == |clusters|
      ensures forall i :: 0 <= i < |v| ==> v[i] == clusters[i].Data()
    {
      seq(|clusters|, i requires 0 <= i < |clusters| reads this, clusters => clusters[i].Data())
    }

    constructor ()
      ensures Valid() && View() == []
    {
      clusters := [];
    }

    /** One entry more, at the end. */
    method AddCluster(id: nat, mask: nat) returns (ghost c: Cluster)
      requires Valid()
      modifies this`clusters
      ensures Valid() && clusters == old(clusters) + [c]
      ensures fresh(c) && c.Data() == ClusterData(id, mask, [])
    {
      var cluster := new Cluster(id, mask);
      clusters := clusters + [cluster];
      c := cluster;
    }

    method CreateClusterElements(mask: nat, ids: seq<nat>) returns (ret: int)
      requires Valid()
      modifies this
      ensures Valid() && ret == 0
      ensures View() == Created(old(View()), mask, ids)
      ensures old(clusters) <= clusters && forall k :: |old(clusters)| <= k < |clusters| ==> fresh(clusters[k])
    {
      ghost var all := Created(View(), mask, ids);
      CreatedParts(View(), mask, ids);
      AppendClusters(mask, ids, all);
      assert View() == all;
      return 0;
    }

    /** The loop: `all` is what the entries are meant to become. */
    method AppendClusters(mask: nat, ids: seq<nat>, ghost all: seq<ClusterData>)
      requires Valid() && |all| == |clusters| + |ids|
      requires forall i :: 0 <= i < |clusters| ==> clusters[i].Data() == all[i]
      requires forall i :: |clusters| <= i < |all| ==> all[i] == ClusterData(ids[i - |clusters|], mask, [])
      modifies this`clusters
      ensures Valid() && |clusters| == |all| && forall i :: 0 <= i < |all| ==> clusters[i].Data() == all[i]
      ensures old(clusters) <= clusters && forall k :: |old(clusters)| <= k < |clusters| ==> fresh(clusters[k])
    {
      ghost var n := |clusters|;
      for it := 0 to |ids|
        invariant Valid() && |clusters| == n + it && old(clusters) <= clusters
        invariant forall i :: 0 <= i < |clusters| ==> clusters[i].Data() == all[i]
        invariant forall i :: n <= i < |clusters| ==> fresh(clusters[i])
      {
        assert all[n + it] == ClusterData(ids[it], mask, []);
        ghost var c := AddCluster(ids[it], mask);
      }
    }

    /** Returns -1 and changes nothing when no entry has this id. */
    method UpdateClusterData(clusterId: nat, attr: Attribute) returns (ret: int)
      requires Valid()
      modifies clusters
      ensures Valid()
      ensures View() == Updated(old(View()), clusterId, attr)
      ensures ret == if Known(old(View()), clusterId) then 0 else -1
    {
      ret := -1;
      var it := 0;
      while it < |clusters|
        invariant it <= |clusters| && View() == old(View()) && ret == -1
        invariant forall i :: 0 <= i < it ==> clusters[i].id != clusterId
      {
        if clusterId == clusters[it].id {
          FirstIsUnique(View(), clusterId, it);
          ret := clusters[it].AddOrUpdateAttributeData(attr.id, attr.ty, attr.val);
          assert View() == Updated(old(View()), clusterId, attr);
          return;
        }
        it := it + 1;
      }
      FirstIsUnique(View(), clusterId, it);
    }

    method Execute(op: Op)
      requires Valid()
      modifies this, clusters
      ensures Valid() && View() == Step(old(View()), op)
      ensures forall k :: 0 <= k < |clusters| ==> clusters[k] in old(clusters) || fresh(clusters[k])
    {
      var ret: int;
      match op
      case Create(mask, ids) => ret := CreateClusterElements(mask, ids);
      case Update(id, attr) => ret := UpdateClusterData(id, attr);
    }

    /** Any run of creations and updates leaves the entries that `Run` computes. */
    method Perform(ops: seq<Op>)
      requires Valid() && View() == []
      modifies this
      ensures Valid() && View() == Run(ops)
    {
      for i := 0 to |ops|
        invariant Valid() && View() == Run(ops[..i])
        invariant forall k :: 0 <= k < |clusters| ==> fresh(clusters[k])
      {
        assert ops[..i + 1][..i] == ops[..i];
        Execute(ops[i]);
      }
      assert ops[..|ops|] == ops;
    }

    /** The first entry with this id, as its position in the vector. */
    method FindClusterData(clusterId: nat) returns (r: Option<Cluster>)
      requires Valid()
      ensures r.None? <==> !Known(View(), clusterId)
      ensures r.Some? ==> r.value == clusters[First(View(), clusterId)]
    {
      var i := 0;
      while i < |clusters|
        invariant i <= |clusters|
        invariant forall j :: 0 <= j < i ==> clusters[j].id != clusterId
      {
        if clusterId == clusters[i].id {
          FirstIsUnique(View(), clusterId, i);
          return Some(clusters[i]);
        }
        i := i + 1;
      }
      FirstIsUnique(View(), clusterId, i);
      return None;
    }
  }
}
