/**
 The query chain of ubus_client.c: the callback stores the network parameter a reply carries
 and asks for the next one.
 */
module OtbrSpec {
  import opened Basics

  datatype Member = Channel | PanId | NetworkName | Rloc16 | ExtPanId | NetworkKey | Pskc

  /** A JSON value: its text, and the number stoi reads from it if it reads one. */
  datatype Value = Value(text: string, number: Option<int>)

  /** `Unusable` is no message, no JSON, or no Error member. */
  datatype Reply = Unusable | Answer(errCode: int, members: map<Member, Value>)

  /** The place of a parameter in the order in which they are asked for. */
  function Rank(m: Member): (k: nat)
    ensures k < 7
  {
    match m
    case Channel => 0
    case PanId => 1
    case NetworkName => 2
    case Rloc16 => 3
    case ExtPanId => 4
    case NetworkKey => 5
    case Pskc => 6
  }

  function AtRank(k: nat): (m: Member)
    requires k < 7
    ensures Rank(m) == k
  {
    match k
    case 0 => Channel
    case 1 => PanId
    case 2 => NetworkName
    case 3 => Rloc16
    case 4 => ExtPanId
    case 5 => NetworkKey
    case _ => Pskc
  }

  /** The place of a parameter in the order in which the callback looks for them. */
  function Priority(m: Member): (k: nat) {
    match m
    case PanId => 0
    case NetworkName => 1
    case Channel => 2
    case _ => Rank(m)
  }

  function Chosen(ms: map<Member, Value>): (r: Option<Member>)
    ensures r.Some? ==> r.value in ms
  {
    if PanId in ms then Some(PanId)
    else if NetworkName in ms then Some(NetworkName)
    else if Channel in ms then Some(Channel)
    else if Rloc16 in ms then Some(Rloc16)
    else if ExtPanId in ms then Some(ExtPanId)
    else if NetworkKey in ms then Some(NetworkKey)
    else if Pskc in ms then Some(Pskc)
    else None
  }

  /** `q` is present, and the callback looks for nothing else that is before it. */
  ghost predicate IsFirst(ms: map<Member, Value>, q: Member) {
    q in ms && forall p :: p in ms ==> Priority(q) <= Priority(p)
  }

  /** The callback takes the member it looks for first among those present. */
  lemma ChosenIff(ms: map<Member, Value>, q: Member)
    ensures Chosen(ms) == Some(q) <==> IsFirst(ms, q)
  {
    if IsFirst(ms, q) {
      assert Priority(Chosen(ms).value) == Priority(q);
    }
  }

  predicate IsNumeric(m: Member) {
    m == PanId || m == Rloc16
  }

  /** What the callback does with a reply: which field it sets, and what it asks for next. */
  datatype Effect = Ignored | Threw | Stored(m: Member, v: Value, next: Option<Member>)

  function NextAfter(m: Member): Option<Member> {
    if m == Pskc then None else Some(AtRank(Rank(m) + 1))
  }

  function OnReply(r: Reply): Effect {
    if r.Unusable? || r.errCode != 0 then Ignored
    else
      match Chosen(r.members)
      case None => Ignored
      case Some(m) =>
        if IsNumeric(m) && r.members[m].number.None? then Threw
        else Stored(m, r.members[m], NextAfter(m))
  }

  /** The order in which the callback looks for the members. */
  const LOOKUP_ORDER: seq<Member> := [PanId, NetworkName, Channel, Rloc16, ExtPanId, NetworkKey, Pskc]

  /** The order in which the members are asked for. */
  const QUERY_ORDER: seq<Member> := [Channel, PanId, NetworkName, Rloc16, ExtPanId, NetworkKey, Pskc]

  lemma ChosenInOrder(ms: map<Member, Value>, k: nat)
    requires k < 7 && LOOKUP_ORDER[k] in ms && forall i :: 0 <= i < k ==> LOOKUP_ORDER[i] !in ms
    ensures Chosen(ms) == Some(LOOKUP_ORDER[k])
  {
    assert k > 0 ==> LOOKUP_ORDER[0] !in ms;
    assert k > 1 ==> LOOKUP_ORDER[1] !in ms;
    assert k > 2 ==> LOOKUP_ORDER[2] !in ms;
    assert k > 3 ==> LOOKUP_ORDER[3] !in ms;
    assert k > 4 ==> LOOKUP_ORDER[4] !in ms;
    assert k > 5 ==> LOOKUP_ORDER[5] !in ms;
  }

  /** An answer with one member leads to the next query of the order, and the last to none. */
  lemma AskedInOrder(k: nat, v: Value)
    requires k < 7 && v.number.Some?
    ensures OnReply(Answer(0, map[QUERY_ORDER[k] := v])) ==
            Stored(QUERY_ORDER[k], v, if k < 6 then Some(QUERY_ORDER[k + 1]) else None)
  {
  }

  /** Only a PAN id and an rloc16 are read as numbers; the other members are taken as they are. */
  lemma ThrowsExactlyFor(m: Member, v: Value)
    ensures OnReply(Answer(0, map[m := v])).Threw? <==> (m == PanId || m == Rloc16) && v.number.None?
    ensures m != PanId && m != Rloc16 ==>
              OnReply(Answer(0, map[m := v])).Stored? && OnReply(Answer(0, map[m := v])).m == m
              && OnReply(Answer(0, map[m := v])).v == v
  {
  }

  // The protocol

  /** `asked` are the queries without a reply, `replies` counts the replies so far. */
  datatype Chain = Chain(fields: map<Member, Value>, asked: multiset<Member>, replies: nat)

  datatype Action = Deliver(query: Member, reply: Reply) | Lose(query: Member)

  const START := Chain(map[], multiset{Channel}, 0)

  /**
   A reply is to an open query. If it is a success it holds the asked member, and nothing the
   callback would look for before it; in particular it may hold the asked member alone.
   */
  ghost predicate Proper(c: Chain, a: Action) {
    && a.query in c.asked
    && (a.Deliver? && a.reply.Answer? && a.reply.errCode == 0 ==>
          IsFirst(a.reply.members, a.query))
  }

  function Act(c: Chain, a: Action): Chain {
    var left := c.asked - multiset{a.query};
    match a
    case Lose(_) => c.(asked := left)
    case Deliver(_, reply) =>
      match OnReply(reply)
      case Stored(m, v, next) =>
        Chain(c.fields[m := v], if next.Some? then left + multiset{next.value} else left, c.replies + 1)
      case _ => c.(asked := left, replies := c.replies + 1)
  }

  function Run(acts: seq<Action>): Chain {
    if acts == [] then START else Act(Run(acts[..|acts| - 1]), acts[|acts| - 1])
  }

  /** The queries that were replied to or lost. */
  ghost function Answered(acts: seq<Action>): multiset<Member> {
    if acts == [] then multiset{} else Answered(acts[..|acts| - 1]) + multiset{acts[|acts| - 1].query}
  }

  /** From its n-th action on the run is proper. */
  ghost predicate ProperFrom(acts: seq<Action>, n: nat) {
    forall i :: n <= i < |acts| ==> Proper(Run(acts[..i]), acts[i])
  }

  lemma ProperPrefix(acts: seq<Action>, n: nat)
    requires n < |acts| && ProperFrom(acts, n)
    ensures
      var rest := acts[..|acts| - 1];
      ProperFrom(rest, n) && Proper(Run(rest), acts[|acts| - 1])
  {
    var rest := acts[..|acts| - 1];
    forall i | n <= i < |rest|
      ensures Proper(Run(rest[..i]), rest[i])
    {
      assert rest[..i] == acts[..i];
    }
  }

  /** The first k parameters are known; at most the next one is being asked for. */
  ghost predicate InStep(c: Chain, k: nat) {
    && k <= 7
    && (forall m :: m in c.fields <==> Rank(m) < k)
    && (c.asked == multiset{} || (k < 7 && c.asked == multiset{AtRank(k)}))
    && k <= c.replies <= 7
    && (c.asked != multiset{} ==> c.replies == k)
  }

  lemma ActKeepsStep(c: Chain, a: Action, k: nat) returns (k': nat)
    requires InStep(c, k) && Proper(c, a)
    ensures InStep(Act(c, a), k') && k <= k' <= k + 1
  {
    assert c.asked == multiset{AtRank(k)} && a.query == AtRank(k);
    assert c.asked - multiset{a.query} == multiset{};
    k' := k;
    if a.Deliver? && OnReply(a.reply).Stored? {
      ChosenIff(a.reply.members, a.query);
      NextRank(k);
      k' := k + 1;
    }
  }

  /**
   In every proper run at most one query is open, the known parameters are a prefix of the
   order they are asked in, and there are at most seven replies.
   */
  lemma {:induction false} EveryRunInStep(acts: seq<Action>) returns (k: nat)
    requires ProperFrom(acts, 0)
    ensures InStep(Run(acts), k) && |Run(acts).asked| <= 1 && Run(acts).replies <= 7
    decreases |acts|
  {
    if acts == [] {
      k := 0;
    } else {
      var rest := acts[..|acts| - 1];
      ProperPrefix(acts, 0);
      var j := EveryRunInStep(rest);
      k := ActKeepsStep(Run(rest), acts[|acts| - 1], j);
    }
  }

  /** The run in which every query is answered, with these values in turn. */
  function Answers(values: seq<Value>): (acts: seq<Action>)
    requires |values| <= 7
    ensures |acts| == |values|
  {
    if values == [] then []
    else
      var k := |values| - 1;
      Answers(values[..k]) + [Deliver(AtRank(k), Answer(0, map[AtRank(k) := values[k]]))]
  }

  /** Such a run ends with the parameters as they were sent, and after seven replies with nothing open. */
  lemma {:induction false} AnsweredChainCompletes(values: seq<Value>)
    requires |values| <= 7
    requires forall i :: 0 <= i < |values| && IsNumeric(AtRank(i)) ==> values[i].number.Some?
    ensures
      var c := Run(Answers(values));
      && InStep(c, |values|) && c.replies == |values|
      && c.asked == AskedAt(|values|)
      && forall m :: m in c.fields ==> c.fields[m] == values[Rank(m)]
    decreases |values|
  {
    if values != [] {
      var k := |values| - 1;
      var rest, acts := values[..k], Answers(values);
      AnsweredChainCompletes(rest);
      assert acts[..k] == Answers(rest);
      AnswerStep(Run(Answers(rest)), k, values[k]);
    }
  }

  /** The open queries when the parameter of rank k is asked for next. */
  function AskedAt(k: nat): multiset<Member> {
    if k < 7 then multiset{AtRank(k)} else multiset{}
  }

  lemma NextRank(k: nat)
    requires k < 7
    ensures NextAfter(AtRank(k)) == if k + 1 < 7 then Some(AtRank(k + 1)) else None
  {
  }

  lemma AnswerStep(c: Chain, k: nat, v: Value)
    requires k < 7 && InStep(c, k) && c.asked == multiset{AtRank(k)}
    requires IsNumeric(AtRank(k)) ==> v.number.Some?
    ensures
      var d := Act(c, Deliver(AtRank(k), Answer(0, map[AtRank(k) := v])));
      && InStep(d, k + 1) && d.fields == c.fields[AtRank(k) := v] && d.replies == k + 1
      && d.asked == AskedAt(k + 1)
  {
    AnswerEffect(c, k, v);
  }

  /** An answer to the only open query is stored, and the next query is the only open one. */
  lemma AnswerEffect(c: Chain, k: nat, v: Value)
    requires k < 7 && c.asked == multiset{AtRank(k)}
    requires IsNumeric(AtRank(k)) ==> v.number.Some?
    ensures Act(c, Deliver(AtRank(k), Answer(0, map[AtRank(k) := v]))) ==
            Chain(c.fields[AtRank(k) := v], AskedAt(k + 1), c.replies + 1)
  {
    var r := Answer(0, map[AtRank(k) := v]);
    ChosenIff(r.members, AtRank(k));
    NextRank(k);
    assert OnReply(r) == Stored(AtRank(k), v, NextAfter(AtRank(k)));
    assert c.asked - multiset{AtRank(k)} == multiset{};
  }

  // Replies that hold more than they were asked for

  /**
   The reply to `q` cannot bring the chain out of step: a success whose first member is not
   the asked one holds no number there, so the callback throws before storing it.
   */
  ghost predicate Harmless(q: Member, r: Reply) {
    r.Answer? && r.errCode == 0 ==>
      forall p :: p != q && IsFirst(r.members, p) ==> IsNumeric(p) && r.members[p].number.None?
  }

  /** The reply is a success from which `p` can be taken. */
  ghost predicate Gives(r: Reply, p: Member) {
    && r.Answer? && r.errCode == 0 && IsFirst(r.members, p)
    && (IsNumeric(p) ==> r.members[p].number.Some?)
  }

  lemma StoresIff(r: Reply, p: Member)
    ensures OnReply(r).Stored? && OnReply(r).m == p <==> Gives(r, p)
  {
    if r.Answer? {
      ChosenIff(r.members, p);
    }
  }

  lemma HarmlessIff(q: Member, r: Reply)
    ensures Harmless(q, r) <==> (OnReply(r).Stored? ==> OnReply(r).m == q)
  {
    if OnReply(r).Stored? {
      StoresIff(r, OnReply(r).m);
    }
    forall p
      ensures OnReply(r).Stored? && OnReply(r).m == p <==> Gives(r, p)
    {
      StoresIff(r, p);
    }
  }

  /** The only open query of a chain in step is the next one. */
  lemma OpenQuery(c: Chain, q: Member, k: nat)
    requires InStep(c, k) && q in c.asked
    ensures k < 7 && q == AtRank(k) && c.asked - multiset{q} == multiset{} && c.replies == k
  {
    assert c.asked == multiset{AtRank(k)};
  }

  /** A chain that knows `p` and has had k + 1 replies, but does not know parameter k, is in no step. */
  lemma NoStep(d: Chain, p: Member, k: nat)
    requires k < 7 && p in d.fields && AtRank(k) !in d.fields && d.replies == k + 1
    requires d.asked == AskedAt(Rank(p) + 1)
    ensures forall k': nat :: !InStep(d, k')
  {
    forall k': nat
      ensures !InStep(d, k')
    {
      assert InStep(d, k') ==> Rank(p) < k' <= k;
    }
  }

  lemma StoredStep(c: Chain, a: Action, k: nat)
    requires InStep(c, k) && a.query in c.asked && a.Deliver? && OnReply(a.reply).Stored?
    ensures
      var p, d := OnReply(a.reply).m, Act(c, a);
      && d.fields == c.fields[p := OnReply(a.reply).v] && d.replies == k + 1
      && d.asked == AskedAt(Rank(p) + 1)
  {
    OpenQuery(c, a.query, k);
    NextRank(Rank(OnReply(a.reply).m));
    assert AtRank(Rank(OnReply(a.reply).m)) == OnReply(a.reply).m;
  }

  lemma UnstoredStep(c: Chain, a: Action, k: nat)
    requires InStep(c, k) && a.query in c.asked && a.Deliver? && !OnReply(a.reply).Stored?
    ensures InStep(Act(c, a), k)
  {
    OpenQuery(c, a.query, k);
  }

  lemma KnownNext(c: Chain, d: Chain, v: Value, k: nat)
    requires InStep(c, k) && k < 7 && d.fields == c.fields[AtRank(k) := v]
    requires d.replies == k + 1 && d.asked == AskedAt(k + 1)
    ensures InStep(d, k + 1)
  {
  }

  /** The chain stays in step exactly when the reply is harmless. */
  lemma StepKeptIff(c: Chain, a: Action, k: nat)
    requires InStep(c, k) && a.query in c.asked && a.Deliver?
    ensures (exists k': nat :: InStep(Act(c, a), k')) <==> Harmless(a.query, a.reply)
  {
    HarmlessIff(a.query, a.reply);
    OpenQuery(c, a.query, k);
    if !OnReply(a.reply).Stored? {
      UnstoredStep(c, a, k);
    } else {
      StoredStep(c, a, k);
      if OnReply(a.reply).m == a.query {
        KnownNext(c, Act(c, a), OnReply(a.reply).v, k);
      } else {
        NoStep(Act(c, a), OnReply(a.reply).m, k);
      }
    }
  }

  /** `m` is unknown, and everything being asked for comes after it. */
  ghost predicate Missed(c: Chain, m: Member) {
    m !in c.fields && forall q :: q in c.asked ==> Rank(m) < Rank(q)
  }

  /** A harmful reply makes the chain skip the asked parameter, or ask again for known ones. */
  lemma HarmfulReply(c: Chain, a: Action, k: nat)
    requires InStep(c, k) && a.query in c.asked && a.Deliver? && !Harmless(a.query, a.reply)
    ensures OnReply(a.reply).Stored? && Act(c, a).asked == AskedAt(Rank(OnReply(a.reply).m) + 1)
    ensures
      var p := OnReply(a.reply).m;
      if Rank(p) > k then Missed(Act(c, a), a.query) else Rank(p) < k && p in c.fields
  {
    HarmlessIff(a.query, a.reply);
    OpenQuery(c, a.query, k);
    StoredStep(c, a, k);
  }

  lemma MissedStays(c: Chain, a: Action, m: Member)
    requires Missed(c, m) && Proper(c, a)
    ensures Missed(Act(c, a), m)
  {
    if a.Deliver? && OnReply(a.reply).Stored? {
      StoresIff(a.reply, OnReply(a.reply).m);
      ChosenIff(a.reply.members, a.query);
      NextRank(Rank(a.query));
    }
  }

  /** Once skipped, a parameter is never stored, whatever proper replies and losses follow. */
  lemma {:induction false} MissedForGood(acts: seq<Action>, n: nat, m: Member)
    requires n <= |acts| && Missed(Run(acts[..n]), m) && ProperFrom(acts, n)
    ensures Missed(Run(acts), m)
    decreases |acts|
  {
    if n == |acts| {
      assert acts[..n] == acts;
    } else {
      var rest := acts[..|acts| - 1];
      assert rest[..n] == acts[..n];
      ProperPrefix(acts, n);
      MissedForGood(rest, n, m);
      MissedStays(Run(rest), acts[|acts| - 1], m);
    }
  }

  /**
   If the answer to a query gives a later parameter instead, the asked one is never stored,
   whatever proper replies and losses follow.
   */
  lemma SkippedInEveryRun(acts: seq<Action>, n: nat, k: nat, p: Member)
    requires n < |acts| && InStep(Run(acts[..n]), k) && ProperFrom(acts, n + 1)
    requires acts[n].Deliver? && acts[n].query in Run(acts[..n]).asked
    requires Gives(acts[n].reply, p) && Rank(p) > k
    ensures acts[n].query !in Run(acts).fields
  {
    LaterMemberSkips(Run(acts[..n]), acts[n], k, p);
    assert acts[..n + 1][..n] == acts[..n];
    MissedForGood(acts, n + 1, acts[n].query);
  }

  lemma LaterMemberSkips(c: Chain, a: Action, k: nat, p: Member)
    requires InStep(c, k) && a.Deliver? && a.query in c.asked && Gives(a.reply, p) && Rank(p) > k
    ensures Missed(Act(c, a), a.query)
  {
    StoresIff(a.reply, p);
    HarmlessIff(a.query, a.reply);
    HarmfulReply(c, a, k);
  }

  /** The first reply holds the channel and the PAN id, every later query is answered. */
  function SkippingRun(values: seq<Value>): (acts: seq<Action>)
    requires 2 <= |values| <= 7
    ensures |acts| == |values| - 1
  {
    [Deliver(Channel, Answer(0, map[Channel := values[0], PanId := values[1]]))] + Answers(values)[2..]
  }

  /**
   Replies with more than the asked member can make the chain skip a parameter: this one goes
   on to its end, and the channel is never stored although it was sent.
   */
  lemma {:induction false} ExtraMemberSkips(values: seq<Value>)
    requires 2 <= |values| <= 7
    requires forall i :: 0 <= i < |values| && IsNumeric(AtRank(i)) ==> values[i].number.Some?
    ensures AllButChannel(Run(SkippingRun(values)), values)
    decreases |values|
  {
    SkippingRunStep(values);
    if |values| == 2 {
      SkippingStart(values[0], values[1]);
    } else {
      var rest, k := values[..|values| - 1], |values| - 1;
      ExtraMemberSkips(rest);
      SkippedAnswer(Run(SkippingRun(rest)), values);
    }
  }

  lemma SkippedAnswer(c: Chain, values: seq<Value>)
    requires 2 < |values| <= 7 && AllButChannel(c, values[..|values| - 1])
    requires IsNumeric(AtRank(|values| - 1)) ==> values[|values| - 1].number.Some?
    ensures
      var k := |values| - 1;
      AllButChannel(Act(c, Deliver(AtRank(k), Answer(0, map[AtRank(k) := values[k]]))), values)
  {
    var k := |values| - 1;
    AnswerEffect(c, k, values[k]);
    OneMoreKnown(c.fields, k, values);
  }

  lemma OneMoreKnown(fields: map<Member, Value>, k: nat, values: seq<Value>)
    requires 2 <= k < 7 && |values| == k + 1
    requires forall m :: m in fields <==> 1 <= Rank(m) < k
    requires forall m :: m in fields ==> fields[m] == values[..k][Rank(m)]
    ensures
      var f := fields[AtRank(k) := values[k]];
      && (forall m :: m in f <==> 1 <= Rank(m) < k + 1)
      && (forall m :: m in f ==> f[m] == values[Rank(m)])
  {
    forall m: Member
      ensures m == AtRank(k) <==> Rank(m) == k
    {
    }
  }

  /** What was sent is known but for the channel, and what follows is being asked for. */
  ghost predicate AllButChannel(c: Chain, values: seq<Value>) {
    && (forall m :: m in c.fields <==> 1 <= Rank(m) < |values|)
    && (forall m :: m in c.fields ==> c.fields[m] == values[Rank(m)])
    && c.asked == AskedAt(|values|) && Missed(c, Channel)
  }

  lemma SkippingRunStep(values: seq<Value>)
    requires 2 <= |values| <= 7
    ensures |values| == 2 ==>
              SkippingRun(values) == [Deliver(Channel, Answer(0, map[Channel := values[0], PanId := values[1]]))]
    ensures
      var acts, k := SkippingRun(values), |values| - 1;
      |values| > 2 ==>
        && acts[..|acts| - 1] == SkippingRun(values[..k])
        && acts[|acts| - 1] == Deliver(AtRank(k), Answer(0, map[AtRank(k) := values[k]]))
  {
    if |values| > 2 {
      var k := |values| - 1;
      assert Answers(values)[..k] == Answers(values[..k]);
      assert Answers(values)[2..][..k - 2] == Answers(values)[..k][2..];
    }
  }

  lemma SkippingStart(channel: Value, panId: Value)
    requires panId.number.Some?
    ensures Act(START, Deliver(Channel, Answer(0, map[Channel := channel, PanId := panId]))) ==
            Chain(map[PanId := panId], AskedAt(2), 1)
  {
    var r := Answer(0, map[Channel := channel, PanId := panId]);
    ChosenIff(r.members, PanId);
    NextRank(1);
    assert OnReply(r) == Stored(PanId, panId, Some(AtRank(2)));
    assert START.asked - multiset{Channel} == multiset{};
  }
}

module OtbrQueryChain {
  import opened OtbrSpec

  lemma QueryIsOpen(acts: seq<Action>, i: nat)
    requires ProperFrom(acts, 0) && i < |acts|
    ensures acts[i].query in Run(acts[..i]).asked
  {
    assert Proper(Run(acts[..i]), acts[i]);
  }

  lemma Balance(sent: seq<Member>, queries: seq<Member>, asked: multiset<Member>, asked': multiset<Member>,
                answered: multiset<Member>, q: Member)
    requires sent <= queries && multiset(sent) == asked + answered && q in asked
    requires asked' == asked - multiset{q} + multiset(queries[|sent|..])
    ensures multiset(queries) == asked' + (answered + multiset{q})
  {
    assert queries == sent + queries[|sent|..];
    assert asked == asked - multiset{q} + multiset{q};
  }

  class OtbrClient {
    var fields: map<Member, Value>
    var queries: seq<Member>

    constructor ()
      ensures fields == map[] && queries == [Channel]
    {
      fields, queries := map[], [Channel];
    }

    method Store(m: Member, v: Value)
      modifies this`fields
      ensures fields == old(fields)[m := v]
    {
      fields := fields[m := v];
    }

    /** Returns false where stoi throws out of the callback. */
    method OnMessage(r: Reply) returns (returned: bool)
      modifies this
      ensures
        match OnReply(r)
        case Ignored => returned && fields == old(fields) && queries == old(queries)
        case Threw => !returned && fields == old(fields) && queries == old(queries)
        case Stored(m, v, next) =>
          && returned && fields == old(fields)[m := v]
          && queries == old(queries) + if next.Some? then [next.value] else []
    {
      if r.Unusable? || r.errCode != 0 {
        return true;
      }
      var ms := r.members;
      if PanId in ms {
        if ms[PanId].number.None? {
          return false;
        }
        Store(PanId, ms[PanId]);
        queries := queries + [NetworkName];
      } else if NetworkName in ms {
        Store(NetworkName, ms[NetworkName]);
        queries := queries + [Rloc16];
      } else if Channel in ms {
        Store(Channel, ms[Channel]);
        queries := queries + [PanId];
      } else if Rloc16 in ms {
        if ms[Rloc16].number.None? {
          return false;
        }
        Store(Rloc16, ms[Rloc16]);
        queries := queries + [ExtPanId];
      } else if ExtPanId in ms {
        Store(ExtPanId, ms[ExtPanId]);
        queries := queries + [NetworkKey];
      } else if NetworkKey in ms {
        Store(NetworkKey, ms[NetworkKey]);
        queries := queries + [Pskc];
      } else if Pskc in ms {
        Store(Pskc, ms[Pskc]);
      }
      return true;
    }

    /** One action: a reply comes in, or is lost and the client sees nothing. */
    method Receive(a: Action, ghost c: Chain) returns (ghost d: Chain)
      requires fields == c.fields
      modifies this
      ensures d == Act(c, a) && fields == d.fields
      ensures old(queries) <= queries
      ensures d.asked == c.asked - multiset{a.query} + multiset(queries[|old(queries)|..])
    {
      d := Act(c, a);
      ghost var before := queries;
      if a.Deliver? {
        var returned := OnMessage(a.reply);
      }
      assert queries == before + queries[|before|..];
    }

    /**
     Any run of replies and losses on a new client: it holds the fields of the chain, and the
     queries it sent are those of the chain, answered or open.
     */
    method Serve(acts: seq<Action>) returns (ghost c: Chain)
      requires fields == map[] && queries == [Channel]
      modifies this
      ensures c == Run(acts) && fields == c.fields
      ensures ProperFrom(acts, 0) ==> multiset(queries) == c.asked + Answered(acts)
    {
      c := START;
      for i := 0 to |acts|
        invariant c == Run(acts[..i]) && fields == c.fields
        invariant ProperFrom(acts, 0) ==> multiset(queries) == c.asked + Answered(acts[..i])
      {
        assert acts[..i + 1][..i] == acts[..i];
        ghost var sent, b := queries, c;
        c := Receive(acts[i], c);
        if ProperFrom(acts, 0) {
          QueryIsOpen(acts, i);
          Balance(sent, queries, b.asked, c.asked, Answered(acts[..i]), acts[i].query);
        }
      }
      assert acts[..|acts|] == acts;
    }
  }
}
