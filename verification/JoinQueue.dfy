/**
 The queue of joining devices, class JoinRingQueue of DeviceDefine.h, as a machine over
 sequences: the elements from head to tail and a cursor that schedules retries.
 */
module JoinQueueSpec {
  import opened Basics

  /** `Unset` is a null cursor; `At(i)` points at the element with index i. */
  datatype Cursor = Unset | At(index: nat)

  datatype Queue<T> = Queue(items: seq<T>, cursor: Cursor)

  ghost predicate WellFormed<T>(q: Queue<T>) {
    q.cursor.At? ==> q.cursor.index < |q.items|
  }

  // The operations

  function PushBack<T>(q: Queue<T>, x: T): Queue<T> {
    Queue(q.items + [x], q.cursor)
  }

  /** The guard reads a 32-bit counter, which is zero again after 2^32 elements. */
  function PopFront<T>(q: Queue<T>): Queue<T> {
    if |q.items| % UINT32 == 0 then q
    else
      var c :=
        match q.cursor
        case Unset => Unset
        case At(i) => if i > 0 then At(i - 1) else if |q.items| > 1 then At(0) else Unset;
      Queue(q.items[1..], c)
  }

  /** Removing the element under the cursor dereferences its successor, which the tail lacks. */
  predicate RemoveFaults<T>(q: Queue<T>, k: nat)
    requires k < |q.items|
  {
    q.cursor == At(k) && k == |q.items| - 1
  }

  function RemoveAt<T>(q: Queue<T>, k: nat): Queue<T>
    requires k < |q.items| && !RemoveFaults(q, k)
  {
    var c := if q.cursor.At? && q.cursor.index > k then At(q.cursor.index - 1) else q.cursor;
    Queue(q.items[..k] + q.items[k + 1..], c)
  }

  /** A cursor on the tail is treated like a null cursor: both restart at the head. */
  function Next<T>(q: Queue<T>): (r: (Queue<T>, Option<T>))
    requires WellFormed(q)
    ensures WellFormed(r.0) && r.0.items == q.items
  {
    if q.cursor.At? && q.cursor.index < |q.items| - 1 then
      (Queue(q.items, At(q.cursor.index + 1)), Some(q.items[q.cursor.index]))
    else if q.items == [] then (q, None)
    else (Queue(q.items, if |q.items| > 1 then At(1) else Unset), Some(q.items[0]))
  }

  // The retry schedule of an unchanged queue

  /** The queue after n calls. */
  function After<T>(q: Queue<T>, n: nat): (r: Queue<T>)
    requires WellFormed(q)
    ensures WellFormed(r) && r.items == q.items
    decreases n
  {
    if n == 0 then q else After(Next(q).0, n - 1)
  }

  /** The results of the next n calls. */
  function Results<T>(q: Queue<T>, n: nat): (r: seq<Option<T>>)
    requires WellFormed(q)
    ensures |r| == n
    decreases n
  {
    if n == 0 then [] else [Next(q).1] + Results(Next(q).0, n - 1)
  }

  /** Where a round continues: the cursor, or the head if the cursor is null or on the tail. */
  function Phase<T>(q: Queue<T>): (p: nat) {
    if q.cursor.At? && q.cursor.index < |q.items| - 1 then q.cursor.index else 0
  }

  function Wrap(i: nat, m: nat): (r: nat)
    requires i < 2 * m
    ensures r < m
  {
    if i < m then i else i - m
  }

  /**
   A queue of n >= 2 elements has rounds of m = n - 1 calls: call j of a round returns element
   phase + j, wrapping after m, and the next round starts where this one did.
   */
  lemma {:induction false} RetrySchedule<T>(q: Queue<T>, n: nat, j: nat)
    requires WellFormed(q) && |q.items| >= 2 && j <= n < |q.items|
    ensures Phase(After(q, j)) == Wrap(Phase(q) + j, |q.items| - 1)
    ensures j < n ==> Results(q, n)[j] == Some(q.items[Wrap(Phase(q) + j, |q.items| - 1)])
    decreases j
  {
    if j > 0 {
      var m := |q.items| - 1;
      var q' := Next(q).0;
      assert Phase(q') == Wrap(Phase(q) + 1, m);
      RetrySchedule(q', n - 1, j - 1);
    }
  }

  /** A single element is returned by every call. */
  lemma {:induction false} SoleElementSchedule<T>(q: Queue<T>, n: nat, j: nat)
    requires WellFormed(q) && |q.items| == 1 && j < n
    ensures Results(q, n)[j] == Some(q.items[0])
    decreases n
  {
    if j > 0 {
      SoleElementSchedule(Next(q).0, n - 1, j - 1);
    }
  }

  function Wrapped<T>(s: seq<T>): (r: seq<Option<T>>)
    ensures |r| == |s| && forall i :: 0 <= i < |s| ==> r[i] == Some(s[i])
  {
    seq(|s|, i requires 0 <= i < |s| => Some(s[i]))
  }

  /** The first n - 1 elements, starting with the one whose turn it is. */
  function Round<T>(q: Queue<T>): (r: seq<T>)
    requires |q.items| >= 2
    ensures |r| == |q.items| - 1
  {
    q.items[Phase(q)..|q.items| - 1] + q.items[..Phase(q)]
  }

  /** One round returns the first n - 1 elements as a rotation. */
  lemma RoundIsRotation<T>(q: Queue<T>)
    requires WellFormed(q) && |q.items| >= 2
    ensures Results(q, |q.items| - 1) == Wrapped(Round(q))
    ensures Phase(After(q, |q.items| - 1)) == Phase(q)
  {
    var m, r := |q.items| - 1, Wrapped(Round(q));
    forall j | 0 <= j < m
      ensures Results(q, m)[j] == r[j]
    {
      RetrySchedule(q, m, j);
    }
    RetrySchedule(q, m, m);
  }

  /** Call j of the next round returns the element with index i. */
  ghost predicate IsTurn<T>(q: Queue<T>, j: nat, i: nat)
    requires WellFormed(q) && |q.items| >= 2 && i < |q.items|
  {
    j < |q.items| - 1 && Results(q, |q.items| - 1)[j] == Some(q.items[i])
  }

  /** In any n - 1 calls, each of the first n - 1 elements is returned by exactly one. */
  lemma EachOncePerRound<T>(q: Queue<T>, i: nat)
    requires WellFormed(q) && |q.items| >= 2 && Distinct(q.items) && i < |q.items| - 1
    ensures exists j :: IsTurn(q, j, i) && forall j' :: IsTurn(q, j', i) ==> j' == j
  {
    var m, p := |q.items| - 1, Phase(q);
    var j := if i >= p then i - p else i - p + m;
    RetrySchedule(q, m, j);
    assert IsTurn(q, j, i);
    forall j' | IsTurn(q, j', i)
      ensures j' == j
    {
      RetrySchedule(q, m, j');
    }
  }

  /** However often NextElement is called, it never returns the tail of two or more elements. */
  lemma {:induction false} TailIsNeverReturned<T>(q: Queue<T>, n: nat)
    requires WellFormed(q) && |q.items| >= 2 && Distinct(q.items)
    ensures Some(q.items[|q.items| - 1]) !in Results(q, n)
    decreases n
  {
    if n > 0 {
      TailIsNeverReturned(Next(q).0, n - 1);
    }
  }

  /**
   The comment at the class asks that every node be visited in turn. That holds exactly when
   the queue has at most one element.
   */
  lemma EveryElementVisitedIff<T>(q: Queue<T>)
    requires WellFormed(q) && Distinct(q.items)
    ensures (forall x :: x in q.items ==> exists n: nat :: Some(x) in Results(q, n)) <==> |q.items| <= 1
  {
    if |q.items| >= 2 {
      var tail := q.items[|q.items| - 1];
      forall n: nat
        ensures Some(tail) !in Results(q, n)
      {
        TailIsNeverReturned(q, n);
      }
      assert tail in q.items;
    } else if |q.items| == 1 {
      SoleElementSchedule(q, 1, 0);
      assert Some(q.items[0]) in Results(q, 1);
    }
  }

  /**
   A call after arrivals goes on with the element behind the one just returned, also when that
   was the tail until then; after a single element it starts over.
   */
  lemma CallAfterArrivals<T>(q: Queue<T>, arrivals: seq<T>)
    requires WellFormed(q) && q.items != [] && arrivals != []
    ensures
      var q' := Next(q).0;
      Next(Queue(q'.items + arrivals, q'.cursor)).1
      == Some(q.items[if |q.items| >= 2 then Phase(q) + 1 else 0])
  {
  }

  // The repair: let the cursor pass the tail, and restart only when it is null

  /** NextElement without the test for the tail. */
  function FairNext<T>(q: Queue<T>): (r: (Queue<T>, Option<T>))
    requires WellFormed(q)
    ensures WellFormed(r.0) && r.0.items == q.items
  {
    if q.items == [] then (q, None)
    else
      var i := FairPhase(q);
      (Queue(q.items, if i + 1 < |q.items| then At(i + 1) else Unset), Some(q.items[i]))
  }

  function FairPhase<T>(q: Queue<T>): (p: nat)
    requires WellFormed(q) && q.items != []
    ensures p < |q.items|
  {
    if q.cursor.At? then q.cursor.index else 0
  }

  function FairAfter<T>(q: Queue<T>, n: nat): (r: Queue<T>)
    requires WellFormed(q)
    ensures WellFormed(r) && r.items == q.items
    decreases n
  {
    if n == 0 then q else FairAfter(FairNext(q).0, n - 1)
  }

  function FairResults<T>(q: Queue<T>, n: nat): (r: seq<Option<T>>)
    requires WellFormed(q)
    ensures |r| == n
    decreases n
  {
    if n == 0 then [] else [FairNext(q).1] + FairResults(FairNext(q).0, n - 1)
  }

  lemma {:induction false} FairSchedule<T>(q: Queue<T>, n: nat, j: nat)
    requires WellFormed(q) && q.items != [] && j <= n <= |q.items|
    ensures FairPhase(FairAfter(q, j)) == Wrap(FairPhase(q) + j, |q.items|)
    ensures j < n ==> FairResults(q, n)[j] == Some(q.items[Wrap(FairPhase(q) + j, |q.items|)])
    decreases j
  {
    if j > 0 {
      FairSchedule(FairNext(q).0, n - 1, j - 1);
    }
  }

  /** Repaired, any n calls return all n elements, as a rotation, and end where they began. */
  lemma FairRoundIsRotation<T>(q: Queue<T>)
    requires WellFormed(q) && q.items != []
    ensures
      var n, p := |q.items|, FairPhase(q);
      FairResults(q, n) == Wrapped(q.items[p..] + q.items[..p]) && FairPhase(FairAfter(q, n)) == p
  {
    var n, p := |q.items|, FairPhase(q);
    var r, round := FairResults(q, n), q.items[p..] + q.items[..p];
    forall j | 0 <= j < n
      ensures r[j] == Some(round[j])
    {
      FairTurnAt(q, j);
    }
    FairSchedule(q, n, n);
  }

  lemma FairTurnAt<T>(q: Queue<T>, j: nat)
    requires WellFormed(q) && j < |q.items|
    ensures
      var n, p := |q.items|, FairPhase(q);
      FairResults(q, n)[j] == Some((q.items[p..] + q.items[..p])[j])
  {
    FairSchedule(q, |q.items|, j);
    RotatedAt(q.items, FairPhase(q), j);
  }

  lemma RotatedAt<T>(s: seq<T>, p: nat, j: nat)
    requires p <= |s| && j < |s|
    ensures (s[p..] + s[..p])[j] == s[Wrap(p + j, |s|)]
  {
  }

  ghost predicate IsFairTurn<T>(q: Queue<T>, j: nat, i: nat)
    requires WellFormed(q) && i < |q.items|
  {
    j < |q.items| && FairResults(q, |q.items|)[j] == Some(q.items[i])
  }

  /** Repaired, each element is returned by exactly one of any n calls, the tail included. */
  lemma EachOncePerFairRound<T>(q: Queue<T>, i: nat)
    requires WellFormed(q) && Distinct(q.items) && i < |q.items|
    ensures exists j :: IsFairTurn(q, j, i) && forall j' :: IsFairTurn(q, j', i) ==> j' == j
  {
    var n, p := |q.items|, FairPhase(q);
    var j := if i >= p then i - p else i - p + n;
    FairSchedule(q, n, j);
    assert IsFairTurn(q, j, i);
    forall j' | IsFairTurn(q, j', i)
      ensures j' == j
    {
      FairSchedule(q, n, j');
    }
  }

  /** A starved tail is served again within one round of a later arrival. */
  lemma ArrivalUnblocksTail<T>(q: Queue<T>, x: T)
    requires WellFormed(q) && |q.items| >= 1
    ensures
      var n := |q.items|;
      Some(q.items[n - 1]) in Results(PushBack(q, x), n)
  {
    var q', n := PushBack(q, x), |q.items|;
    RoundIsRotation(q');
    var j := n - 1 - Phase(q');
    assert Round(q')[j] == q.items[n - 1];
    assert Results(q', n)[j] == Some(q.items[n - 1]);
  }

  // Removing

  /** Two arrivals and one call are enough to put the cursor on the tail and make removal fault. */
  lemma RemovalFaultIsReachable<T>(a: T, b: T)
    ensures
      var q := PushBack(PushBack(Queue([], Unset), a), b);
      WellFormed(q) && RemoveFaults(Next(q).0, 1)
  {
  }

  /** The element NextElement just returned can always be removed, also after further arrivals. */
  lemma ReturnedElementIsRemovable<T>(q: Queue<T>, arrivals: seq<T>)
    requires WellFormed(q) && q.items != []
    ensures
      var (q', e) := Next(q);
      && Phase(q) < |q.items| && e == Some(q.items[Phase(q)])
      && !RemoveFaults(Queue(q'.items + arrivals, q'.cursor), Phase(q))
  {
  }

  /** The cursor stays on its element, or moves to the successor of a removed one. */
  lemma RemoveAtFacts<T>(q: Queue<T>, k: nat)
    requires WellFormed(q) && Distinct(q.items) && k < |q.items| && !RemoveFaults(q, k)
    ensures
      var q' := RemoveAt(q, k);
      && WellFormed(q') && Distinct(q'.items) && |q'.items| == |q.items| - 1
      && (q'.cursor.Unset? <==> q.cursor.Unset?)
      && (q.cursor.At? ==>
            q'.items[q'.cursor.index] == q.items[if q.cursor.index == k then k + 1 else q.cursor.index])
  {
  }

  /** The cursor stays on its element, or moves from the head to the next one. */
  lemma PopFrontFacts<T>(q: Queue<T>)
    requires WellFormed(q) && Distinct(q.items) && |q.items| % UINT32 != 0
    ensures
      var q', n := PopFront(q), |q.items|;
      && WellFormed(q') && Distinct(q'.items) && q'.items == q.items[1..]
      && |q'.items| % UINT32 == n % UINT32 - 1
      && (q'.cursor.Unset? <==> q.cursor.Unset? || (q.cursor == At(0) && n == 1))
      && (q'.cursor.At? ==>
            q'.items[q'.cursor.index] == q.items[if q.cursor.index == 0 then 1 else q.cursor.index])
  {
    CountDown(|q.items|);
  }

  lemma CountUp(n: nat)
    ensures (n % UINT32 + 1) % UINT32 == (n + 1) % UINT32
  {
  }

  lemma CountDown(n: nat)
    requires n > 0
    ensures (if n % UINT32 == 0 then UINT32 - 1 else n % UINT32 - 1) == (n - 1) % UINT32
  {
  }

  // The retry loop

  /** `stored` is whether there was memory for the new element. */
  datatype JoinStep<T> = Arrive(x: T, stored: bool) | Attempt(finished: bool)

  /** A device arrives, or the next one is retried and leaves the queue if it is done. */
  function Served<T>(q: Queue<T>, step: JoinStep<T>): (r: Queue<T>)
    requires WellFormed(q)
    ensures WellFormed(r)
  {
    match step
    case Arrive(x, stored) => if stored then PushBack(q, x) else q
    case Attempt(finished) =>
      var q' := Next(q).0;
      if finished && q.items != [] then
        ReturnedElementIsRemovable(q, []);
        assert q'.items + [] == q'.items;
        RemoveAt(q', Phase(q))
      else q'
  }

  /** What is left after one step, by position; it depends on the cursor and the length alone. */
  lemma AttemptByPosition<T, U>(q: Queue<T>, r: Queue<U>, finished: bool)
    requires WellFormed(q) && WellFormed(r) && q.cursor == r.cursor && |q.items| == |r.items|
    ensures
      var q', r', k := Served(q, Attempt(finished)), Served(r, Attempt(finished)), Phase(q);
      var gone := finished && q.items != [];
      && q'.cursor == r'.cursor && |q'.items| == |r'.items|
      && forall i :: 0 <= i < |q'.items| ==>
           var j := if gone && i >= k then i + 1 else i;
           j < |q.items| && q'.items[i] == q.items[j] && r'.items[i] == r.items[j]
  {
  }

  function ServedAll<T>(q: Queue<T>, steps: seq<JoinStep<T>>): (r: Queue<T>)
    requires WellFormed(q)
    ensures WellFormed(r)
  {
    if steps == [] then q else Served(ServedAll(q, steps[..|steps| - 1]), steps[|steps| - 1])
  }

  function ArrivedBy<T>(step: JoinStep<T>): seq<T> {
    if step.Arrive? && step.stored then [step.x] else []
  }

  function FinishedBy<T>(q: Queue<T>, step: JoinStep<T>): seq<T>
    requires WellFormed(q)
  {
    if step.Attempt? && step.finished && Next(q).1.Some? then [Next(q).1.value] else []
  }

  /** The devices that were stored in the run, in order of arrival. */
  function Arrived<T>(steps: seq<JoinStep<T>>): seq<T> {
    if steps == [] then [] else Arrived(steps[..|steps| - 1]) + ArrivedBy(steps[|steps| - 1])
  }

  /** The devices whose retry finished, in order. */
  function Finished<T>(q: Queue<T>, steps: seq<JoinStep<T>>): seq<T>
    requires WellFormed(q)
  {
    if steps == [] then []
    else Finished(q, steps[..|steps| - 1]) + FinishedBy(ServedAll(q, steps[..|steps| - 1]), steps[|steps| - 1])
  }

  /** A step appends the device that came, or takes out the one that finished. */
  lemma ServedItems<T>(q: Queue<T>, step: JoinStep<T>)
    requires WellFormed(q)
    ensures
      var k, gone := Phase(q), FinishedBy(q, step);
      if gone == [] then Served(q, step).items == q.items + ArrivedBy(step)
      else k < |q.items| && gone == [q.items[k]] && ArrivedBy(step) == []
           && Served(q, step).items == q.items[..k] + q.items[k + 1..]
  {
  }

  lemma TakenOut<T>(s: seq<T>, k: nat)
    requires k < |s|
    ensures multiset(s[..k] + s[k + 1..]) + multiset([s[k]]) == multiset(s)
  {
    assert s == s[..k] + [s[k]] + s[k + 1..];
  }

  lemma ServedConserves<T>(q: Queue<T>, step: JoinStep<T>)
    requires WellFormed(q)
    ensures multiset(Served(q, step).items) + multiset(FinishedBy(q, step))
            == multiset(q.items) + multiset(ArrivedBy(step))
  {
    ServedItems(q, step);
    Balanced(q.items, Served(q, step).items, FinishedBy(q, step), ArrivedBy(step), Phase(q));
  }

  lemma Balanced<T>(s: seq<T>, t: seq<T>, gone: seq<T>, came: seq<T>, k: nat)
    requires if gone == [] then t == s + came
             else k < |s| && gone == [s[k]] && came == [] && t == s[..k] + s[k + 1..]
    ensures multiset(t) + multiset(gone) == multiset(s) + multiset(came)
  {
    if gone != [] {
      TakenOut(s, k);
    }
  }

  /** No device is lost or served twice: those there and those that came are waiting or finished. */
  lemma {:induction false} ServedRunConserves<T>(q: Queue<T>, steps: seq<JoinStep<T>>)
    requires WellFormed(q)
    ensures multiset(ServedAll(q, steps).items) + multiset(Finished(q, steps))
            == multiset(q.items) + multiset(Arrived(steps))
    decreases |steps|
  {
    if steps != [] {
      var rest, step := steps[..|steps| - 1], steps[|steps| - 1];
      var r := ServedAll(q, rest);
      ServedRunConserves(q, rest);
      ServedConserves(r, step);
      CombineBalances(multiset(q.items), multiset(r.items), multiset(ServedAll(q, steps).items),
                      multiset(Finished(q, rest)), multiset(FinishedBy(r, step)),
                      multiset(Arrived(rest)), multiset(ArrivedBy(step)));
    }
  }

  // How long a device waits for its turn

  /** Calls before the element with index i is returned, if nothing else happens. */
  function Distance<T>(q: Queue<T>, i: nat): (d: int)
    requires i < |q.items| - 1
    ensures d >= 0
  {
    if Phase(q) <= i then i - Phase(q) else |q.items| - 1 - Phase(q) + i
  }

  /** Where the element with index i is after a step that does not return it. */
  function Position<T>(q: Queue<T>, i: nat, step: JoinStep<T>): (j: int) {
    if step.Attempt? && step.finished && Phase(q) < i then i - 1 else i
  }

  predicate Returns<T>(q: Queue<T>, i: nat, step: JoinStep<T>) {
    step.Attempt? && Phase(q) == i
  }

  /** Some attempt of the run returns the element that has index i at its start. */
  ghost predicate GetsTurn<T>(q: Queue<T>, i: nat, steps: seq<JoinStep<T>>)
    requires WellFormed(q)
    decreases |steps|
  {
    steps != [] && (Returns(q, i, steps[0])
                    || GetsTurn(Served(q, steps[0]), Position(q, i, steps[0]), steps[1..]))
  }

  /** Until its turn the element is never the tail. */
  ghost predicate StaysAhead<T>(q: Queue<T>, i: nat, steps: seq<JoinStep<T>>)
    requires WellFormed(q)
    decreases |steps|
  {
    && i < |q.items| - 1
    && (steps == [] || Returns(q, i, steps[0])
        || StaysAhead(Served(q, steps[0]), Position(q, i, steps[0]), steps[1..]))
  }

  function Attempts<T>(steps: seq<JoinStep<T>>): nat {
    if steps == [] then 0 else (if steps[0].Attempt? then 1 else 0) + Attempts(steps[1..])
  }

  function Arrivals<T>(steps: seq<JoinStep<T>>): nat {
    if steps == [] then 0 else (if steps[0].Arrive? then 1 else 0) + Arrivals(steps[1..])
  }

  /** An attempt brings the element one closer, whether or not the retried one leaves. */
  lemma AttemptBringsCloser<T>(q: Queue<T>, i: nat, step: JoinStep<T>)
    requires WellFormed(q) && i < |q.items| - 1 && step.Attempt? && !Returns(q, i, step)
    requires Position(q, i, step) < |Served(q, step).items| - 1
    ensures Served(q, step).items[Position(q, i, step)] == q.items[i]
    ensures Distance(Served(q, step), Position(q, i, step)) == Distance(q, i) - 1
  {
  }

  lemma ArrivalCostsAtMostOne<T>(q: Queue<T>, i: nat, step: JoinStep<T>)
    requires WellFormed(q) && i < |q.items| - 1 && step.Arrive?
    ensures i < |Served(q, step).items| - 1 && Served(q, step).items[i] == q.items[i]
    ensures Distance(Served(q, step), i) <= Distance(q, i) + 1
  {
  }

  /**
   No device that stays ahead of the tail starves: whatever arrives and leaves, its turn comes
   within its distance plus the number of arrivals.
   */
  lemma {:induction false} WaitIsBounded<T>(q: Queue<T>, i: nat, steps: seq<JoinStep<T>>)
    requires WellFormed(q) && StaysAhead(q, i, steps)
    requires Attempts(steps) > Distance(q, i) + Arrivals(steps)
    ensures GetsTurn(q, i, steps)
    decreases |steps|
  {
    if !Returns(q, i, steps[0]) {
      var q', j := Served(q, steps[0]), Position(q, i, steps[0]);
      if steps[0].Attempt? {
        AttemptBringsCloser(q, i, steps[0]);
      } else {
        ArrivalCostsAtMostOne(q, i, steps[0]);
      }
      WaitIsBounded(q', j, steps[1..]);
    }
  }

  // Clearing pops while there is a head

  function PopN<T>(q: Queue<T>, n: nat): Queue<T>
    decreases n
  {
    if n == 0 then q else PopN(PopFront(q), n - 1)
  }

  lemma {:induction false} PopsEmptyQueue<T>(q: Queue<T>)
    requires |q.items| < UINT32
    ensures PopN(q, |q.items|).items == []
    decreases |q.items|
  {
    if q.items != [] {
      PopsEmptyQueue(PopFront(q));
    }
  }

  lemma {:induction false} PopsStayAbove<T>(q: Queue<T>, n: nat)
    requires |q.items| >= UINT32
    ensures |PopN(q, n).items| >= UINT32
    decreases n
  {
    if n > 0 {
      PopsStayAbove(PopFront(q), n - 1);
    }
  }

  /** Popping until the head is null ends exactly for queues whose length fits the counter. */
  lemma ClearEndsIff<T>(q: Queue<T>)
    ensures (exists n: nat :: PopN(q, n).items == []) <==> |q.items| < 0x1_0000_0000
  {
    if |q.items| < UINT32 {
      PopsEmptyQueue(q);
    } else {
      forall n: nat
        ensures PopN(q, n).items != []
      {
        PopsStayAbove(q, n);
      }
    }
  }

  // Whole runs

  /** `stored` is whether there was memory for the new element. */
  datatype Op<T> = Push(x: T, stored: bool) | Pop | Remove(k: nat) | Advance | Clear

  /**
   Remove(k) stands for RemoveElement on the element with index k; it must be a member and
   not fault. Clear must end, see `ClearEndsIff`.
   */
  predicate Enabled<T>(q: Queue<T>, op: Op<T>) {
    && (op.Remove? ==> op.k < |q.items| && !RemoveFaults(q, op.k))
    && (op.Clear? ==> |q.items| < UINT32)
  }

  /** No enabled operation takes the cursor out of the queue. */
  function Step<T>(q: Queue<T>, op: Op<T>): (r: Queue<T>)
    requires WellFormed(q) && Enabled(q, op)
    ensures WellFormed(r)
  {
    match op
    case Push(x, stored) => if stored then PushBack(q, x) else q
    case Pop => PopFront(q)
    case Remove(k) => RemoveAt(q, k)
    case Advance => Next(q).0
    case Clear => Queue([], Unset)
  }

  function Removed<T>(q: Queue<T>, op: Op<T>): seq<T>
    requires Enabled(q, op)
  {
    match op
    case Pop => if |q.items| % UINT32 == 0 then [] else [q.items[0]]
    case Remove(k) => [q.items[k]]
    case Clear => q.items
    case _ => []
  }

  ghost predicate Runs<T>(q: Queue<T>, ops: seq<Op<T>>)
    requires WellFormed(q)
    decreases |ops|
  {
    ops == [] || (Enabled(q, ops[0]) && Runs(Step(q, ops[0]), ops[1..]))
  }

  ghost function Final<T>(q: Queue<T>, ops: seq<Op<T>>): (r: Queue<T>)
    requires WellFormed(q) && Runs(q, ops)
    ensures WellFormed(r)
    decreases |ops|
  {
    if ops == [] then q else Final(Step(q, ops[0]), ops[1..])
  }

  function Pushed<T>(op: Op<T>): seq<T> {
    if op.Push? && op.stored then [op.x] else []
  }

  ghost function Pushes<T>(ops: seq<Op<T>>): seq<T> {
    if ops == [] then [] else Pushed(ops[0]) + Pushes(ops[1..])
  }

  ghost function Removals<T>(q: Queue<T>, ops: seq<Op<T>>): seq<T>
    requires WellFormed(q) && Runs(q, ops)
    decreases |ops|
  {
    if ops == [] then [] else Removed(q, ops[0]) + Removals(Step(q, ops[0]), ops[1..])
  }

  /** Every run of n calls in a run of operations is the retry schedule, every run of pops is clearing. */
  lemma {:induction false} RepeatedSteps<T>(q: Queue<T>, ops: seq<Op<T>>)
    requires WellFormed(q)
    ensures (forall i :: 0 <= i < |ops| ==> ops[i].Advance?) ==> Runs(q, ops) && Final(q, ops) == After(q, |ops|)
    ensures (forall i :: 0 <= i < |ops| ==> ops[i].Pop?) ==> Runs(q, ops) && Final(q, ops) == PopN(q, |ops|)
    decreases |ops|
  {
    if ops != [] && (ops[0].Advance? || ops[0].Pop?) {
      RepeatedSteps(Step(q, ops[0]), ops[1..]);
    }
  }

  lemma StepConserves<T>(q: Queue<T>, op: Op<T>)
    requires WellFormed(q) && Enabled(q, op)
    ensures multiset(Step(q, op).items) + multiset(Removed(q, op))
            == multiset(q.items) + multiset(Pushed(op))
  {
    match op
    case Push(x, stored) =>
    case Pop =>
      if |q.items| % UINT32 != 0 {
        assert q.items == [q.items[0]] + q.items[1..];
      }
    case Remove(k) => TakenOut(q.items, k);
    case Advance =>
    case Clear =>
  }

  lemma FirstPush<T>(ops: seq<Op<T>>)
    requires ops != []
    ensures multiset(Pushes(ops)) == multiset(Pushed(ops[0])) + multiset(Pushes(ops[1..]))
  {
  }

  lemma FirstRemoval<T>(q: Queue<T>, ops: seq<Op<T>>)
    requires WellFormed(q) && ops != [] && Runs(q, ops)
    ensures multiset(Removals(q, ops)) ==
            multiset(Removed(q, ops[0])) + multiset(Removals(Step(q, ops[0]), ops[1..]))
  {
  }

  /** Over any run, what was in the queue or pushed is still in the queue or was removed. */
  lemma {:induction false} RunConserves<T>(q: Queue<T>, ops: seq<Op<T>>)
    requires WellFormed(q) && Runs(q, ops)
    ensures multiset(Final(q, ops).items) + multiset(Removals(q, ops))
            == multiset(q.items) + multiset(Pushes(ops))
    decreases |ops|
  {
    if ops != [] {
      var q' := Step(q, ops[0]);
      RunConserves(q', ops[1..]);
      StepConserves(q, ops[0]);
      FirstPush(ops);
      FirstRemoval(q, ops);
      CombineBalances(multiset(q.items), multiset(q'.items), multiset(Final(q', ops[1..]).items),
                      multiset(Removed(q, ops[0])), multiset(Removals(q', ops[1..])),
                      multiset(Pushed(ops[0])), multiset(Pushes(ops[1..])));
    }
  }

  lemma CombineBalances<T>(s0: multiset<T>, s1: multiset<T>, s2: multiset<T>,
                           r0: multiset<T>, r1: multiset<T>, p0: multiset<T>, p1: multiset<T>)
    requires s1 + r0 == s0 + p0 && s2 + r1 == s1 + p1
    ensures s2 + (r0 + r1) == s0 + (p0 + p1)
  {
    assert s2 + (r0 + r1) == (s2 + r1) + r0;
    assert (s1 + p1) + r0 == (s1 + r0) + p1;
    assert (s0 + p0) + p1 == s0 + (p0 + p1);
  }
}

/** The linked list behind the queue. */
module JoinQueue {
  import opened Basics
  import opened JoinQueueSpec

  class Element {
    var next: Element?
    var previous: Element?
    var content: int

    constructor (content: int, previous: Element?)
      ensures this.content == content && this.previous == previous && next == null
    {
      this.content, this.previous, this.next := content, previous, null;
    }

    /** free: from here on the links hold nothing that may be relied upon. */
    method Free()
      modifies this`next, this`previous
    {
      next, previous := *, *;
    }
  }

  datatype Removal = Done | Refused | NullDereference

  lemma AppendedDistinct(s: seq<Element>, e: Element)
    requires Distinct(s) && e !in s
    ensures Distinct(s + [e])
  {
  }

  class JoinRingQueue {
    var mhead: Element?
    var mtail: Element?
    var mcurr: Element?
    var mcount: nat
    ghost var q: Queue<Element>

    /**
     The chain of next links from the head is `q.items`, back-links are right for every element
     but the head, whose back-link PopFront leaves dangling.
     */
    ghost predicate Valid()
      reads this, q.items
    {
      var s := q.items;
      && WellFormed(q) && Distinct(s)
      && mcount == |s| % UINT32
      && mhead == (if s == [] then null else s[0])
      && mtail == (if s == [] then null else s[|s| - 1])
      && mcurr == (if q.cursor.Unset? then null else s[q.cursor.index])
      && (forall i :: 0 <= i < |s| ==> Linked(s, i))
    }

    static ghost predicate Linked(s: seq<Element>, i: nat)
      requires i < |s|
      reads s[i]
    {
      && s[i].next == (if i + 1 < |s| then s[i + 1] else null)
      && (i > 0 ==> s[i].previous == s[i - 1])
    }

    /** Element i has its right links, apart from the back-link to element k. */
    static ghost predicate LinkedBut(s: seq<Element>, i: nat, k: nat)
      requires i < |s|
      reads s[i]
    {
      && s[i].next == (if i + 1 < |s| then s[i + 1] else null)
      && (i > 0 && i - 1 != k ==> s[i].previous == s[i - 1])
    }

    constructor ()
      ensures Valid() && q == Queue([], Unset)
    {
      mhead, mtail, mcurr, mcount := null, null, null, 0;
      q := Queue([], Unset);
    }

    /** `mallocOk` is whether malloc finds memory. */
    method PushBack(content: int, mallocOk: bool) returns (ghost pushed: Element?)
      requires Valid()
      modifies this, mtail
      ensures Valid()
      ensures !mallocOk ==> q == old(q)
      ensures mallocOk ==>
        && pushed != null && fresh(pushed) && pushed.content == content
        && q == JoinQueueSpec.PushBack(old(q), pushed)
      ensures forall e <- old(q.items) :: e.content == old(e.content)
    {
      pushed := null;
      if mallocOk {
        var element := new Element(content, mtail);
        if mhead == null {
          mhead := element;
        } else {
          mtail.next := element;
        }
        mtail := element;
        mcount := (mcount + 1) % UINT32;
        CountUp(|q.items|);
        ghost var s := q.items;
        AppendedDistinct(s, element);
        q := JoinQueueSpec.PushBack(q, element);
        pushed := element;
        forall i | 0 <= i < |q.items|
          ensures Linked(q.items, i)
        {
          if i < |s| {
            assert old(Linked(s, i));
          }
        }
      }
    }

    method PopFront()
      requires Valid()
      modifies this, mhead
      ensures Valid()
      ensures q == JoinQueueSpec.PopFront(old(q))
      ensures forall e <- old(q.items) :: e.content == old(e.content)
    {
      if mcount > 0 {
        ghost var s := q.items;
        assert Linked(s, 0);
        var head := mhead;
        if mtail == head {
          mtail := null;
        }
        if mcurr == head {
          mcurr := mhead.next;
        }
        mhead := mhead.next;
        head.Free();
        mcount := mcount - 1;
        PopFrontFacts(q);
        q := JoinQueueSpec.PopFront(q);
        forall i | 0 <= i < |q.items|
          ensures Linked(q.items, i)
        {
          assert old(Linked(s, i + 1));
        }
      }
    }

    /**
     `k` is the index of the element. The source reads element->next->previous when the element
     is under the cursor; that is a null dereference exactly when it is also the tail.
     */
    method RemoveElement(element: Element?, ghost k: nat) returns (r: Removal)
      requires Valid()
      requires element != null && mhead != null ==> k < |q.items| && q.items[k] == element
      modifies this, q.items`next, q.items`previous
      ensures r.Refused? <==> element == null || old(mhead) == null
      ensures r.NullDereference? <==> !r.Refused? && RemoveFaults(old(q), k)
      ensures r.Refused? ==> Valid() && q == old(q)
      ensures r.Done? ==> Valid() && q == RemoveAt(old(q), k)
    {
      if element == null || mhead == null {
        return Refused;
      }
      ghost var s := q.items;
      var fault := LeaveElement(element, s, k);
      if fault {
        return NullDereference;
      }
      TakeOut(element, k);
      r := Done;
    }

    /** What is left to do once the cursor is off the element, whose successor may have a stale back-link. */
    method TakeOut(element: Element, ghost k: nat)
      requires WellFormed(q) && Distinct(q.items) && k < |q.items| && q.items[k] == element
      requires mcount == |q.items| % UINT32 && !RemoveFaults(q, k)
      requires mhead == q.items[0] && mtail == q.items[|q.items| - 1]
      requires mcurr == if q.cursor.Unset? then null
                        else q.items[if q.cursor.index == k then k + 1 else q.cursor.index]
      requires forall i :: 0 <= i < |q.items| ==> LinkedBut(q.items, i, k)
      modifies this, q.items`next, q.items`previous
      ensures Valid() && q == RemoveAt(old(q), k)
    {
      ghost var s := q.items;
      Unlink(element, s, k);
      CountDown(|s|);
      mcount := if mcount == 0 then UINT32 - 1 else mcount - 1;
      RemoveAtFacts(q, k);
      q := RemoveAt(q, k);
      assert q.items == s[..k] + s[k + 1..];
    }

    /** Moves the cursor off `element`, and the back-link of the element it moves to. */
    method LeaveElement(element: Element, ghost s: seq<Element>, ghost k: nat) returns (fault: bool)
      requires Distinct(s) && k < |s| && s[k] == element
      requires forall i :: 0 <= i < |s| ==> Linked(s, i)
      modifies this`mcurr, s`previous
      ensures fault <==> old(mcurr) == element && k == |s| - 1
      ensures !fault ==> mcurr == if old(mcurr) == element then s[k + 1] else old(mcurr)
      ensures !fault ==> forall i :: 0 <= i < |s| ==> LinkedBut(s, i, k)
    {
      assert Linked(s, k);
      fault := false;
      if element == mcurr {
        mcurr := element.next;
        if mcurr == null {
          return true;
        }
        mcurr.previous := element.previous;
      }
      forall i | 0 <= i < |s|
        ensures LinkedBut(s, i, k)
      {
        assert old(Linked(s, i));
      }
    }

    /** Takes `element` out of the chain `s` and frees it; its successor's back-link may have moved. */
    method Unlink(element: Element, ghost s: seq<Element>, ghost k: nat)
      requires Distinct(s) && k < |s| && s[k] == element
      requires mhead == s[0] && mtail == s[|s| - 1]
      requires forall i :: 0 <= i < |s| ==> LinkedBut(s, i, k)
      modifies this`mhead, this`mtail, s`next, s`previous
      ensures
        var t := s[..k] + s[k + 1..];
        && mhead == (if t == [] then null else t[0])
        && mtail == (if t == [] then null else t[|t| - 1])
        && forall i :: 0 <= i < |t| ==> Linked(t, i)
    {
      assert LinkedBut(s, k, k);
      if element == mhead {
        assert k == 0;
        if mhead == mtail {
          mhead := null;
          mtail := null;
        } else {
          mhead := element.next;
          element.next.previous := null;
        }
      } else if element == mtail {
        mtail := element.previous;
        element.previous.next := null;
      } else {
        element.previous.next := element.next;
        element.next.previous := element.previous;
      }
      element.Free();
      ghost var t := s[..k] + s[k + 1..];
      forall i | 0 <= i < |t|
        ensures Linked(t, i)
      {
        ghost var j := if i < k then i else i + 1;
        assert t[i] == s[j];
        assert old(LinkedBut(s, j, k));
      }
    }

    /** Without the bound the loop would not end, see `ClearEndsIff`. */
    method ClearAllElements() returns (r: bool)
      requires Valid() && |q.items| < UINT32
      modifies this, q.items
      ensures Valid() && r && q == Queue([], Unset)
    {
      while mhead != null
        invariant Valid() && |q.items| < UINT32
        invariant forall i :: 0 <= i < |q.items| ==> q.items[i] in old(q.items)
        decreases |q.items|
      {
        PopFront();
      }
      return true;
    }

    method NextElement() returns (temp: Element?)
      requires Valid()
      modifies this`mcurr, this`q
      ensures Valid()
      ensures q == Next(old(q)).0
      ensures temp == match Next(old(q)).1 { case None => null case Some(e) => e }
    {
      temp := mcurr;
      assert mcurr != null ==> Linked(q.items, q.cursor.index);
      assert mhead != null ==> Linked(q.items, 0);
      if mcurr != mtail && mcurr != null {
        mcurr := mcurr.next;
      } else {
        temp := mhead;
        if mhead != null {
          mcurr := mhead.next;
        }
      }
      q := Next(q).0;
      assert forall i :: 0 <= i < |q.items| ==> old(Linked(q.items, i)) ==> Linked(q.items, i);
    }

    /** The queue as its users see it: `v` has the contents of the elements, and the cursor. */
    ghost predicate Shows(v: Queue<int>)
      reads this, q.items
    {
      && v.cursor == q.cursor && |v.items| == |q.items|
      && forall i :: 0 <= i < |v.items| ==> q.items[i].content == v.items[i]
    }

    /** The element with index k, which a caller of RemoveElement has kept since it was pushed. */
    method ElementAt(k: nat) returns (e: Element)
      requires Valid() && k < |q.items|
      ensures e == q.items[k]
    {
      e := mhead;
      for i := 0 to k
        invariant e == q.items[i]
      {
        assert Linked(q.items, i);
        e := e.next;
      }
    }

    method PopInView(ghost v: Queue<int>)
      requires Valid() && Shows(v)
      modifies this, q.items
      ensures Valid() && Shows(JoinQueueSpec.PopFront(v))
      ensures forall i :: 0 <= i < |q.items| ==> q.items[i] in old(q.items)
    {
      PopFront();
    }

    method RemoveInView(k: nat, ghost v: Queue<int>)
      requires Valid() && Shows(v) && k < |v.items| && !RemoveFaults(v, k)
      modifies this, q.items`next, q.items`previous
      ensures Valid() && Shows(RemoveAt(v, k))
      ensures forall i :: 0 <= i < |q.items| ==> q.items[i] in old(q.items)
    {
      var e := ElementAt(k);
      var r := RemoveElement(e, k);
    }

    /** Any operation that is enabled has its effect on the contents. */
    method Execute(op: Op<int>, ghost v: Queue<int>)
      requires Valid() && Shows(v) && Enabled(v, op)
      modifies this, q.items
      ensures Valid() && Shows(Step(v, op))
      ensures forall i :: 0 <= i < |q.items| ==> q.items[i] in old(q.items) || fresh(q.items[i])
    {
      match op
      case Push(content, stored) =>
        ghost var e := PushBack(content, stored);
      case Pop =>
        PopInView(v);
      case Remove(k) =>
        RemoveInView(k, v);
      case Advance =>
        var e := NextElement();
      case Clear =>
        var r := ClearAllElements();
    }

    /** Any run of operations, in any order, refines the same run on contents. */
    method Run(ops: seq<Op<int>>, ghost v: Queue<int>)
      requires Valid() && Shows(v) && WellFormed(v) && Runs(v, ops)
      modifies this, q.items
      ensures Valid() && Shows(Final(v, ops))
    {
      ghost var w := v;
      for i := 0 to |ops|
        invariant Valid() && WellFormed(w) && Shows(w)
        invariant Runs(w, ops[i..]) && Final(w, ops[i..]) == Final(v, ops)
        invariant forall k :: 0 <= k < |q.items| ==> q.items[k] in old(q.items) || fresh(q.items[k])
      {
        assert ops[i..][0] == ops[i] && ops[i..][1..] == ops[i + 1..];
        Execute(ops[i], w);
        w := Step(w, ops[i]);
      }
      assert ops[|ops|..] == [];
    }

    /** One retry: ask for the next element and take it out if its device is done. */
    method Retry(finished: bool)
      requires Valid()
      modifies this, q.items`next, q.items`previous
      ensures Valid() && q == Served(old(q), Attempt(finished))
    {
      ghost var k, before := Phase(q), q;
      var e := NextElement();
      if e != null && finished {
        ReturnedElementIsRemovable(before, []);
        assert q.items + [] == q.items;
        var r := RemoveElement(e, k);
      }
    }

    method RetryInView(finished: bool, ghost v: Queue<int>)
      requires Valid() && Shows(v)
      modifies this, q.items`next, q.items`previous
      ensures Valid() && Shows(Served(v, Attempt(finished)))
      ensures forall k :: 0 <= k < |q.items| ==> q.items[k] in old(q.items)
    {
      ghost var before, v' := q, Served(v, Attempt(finished));
      AttemptByPosition(before, v, finished);
      ghost var gone, k := finished && before.items != [], Phase(before);
      Retry(finished);
      forall i | 0 <= i < |q.items|
        ensures q.items[i].content == v'.items[i] && q.items[i] in before.items
      {
        ghost var j := if gone && i >= k then i + 1 else i;
        assert q.items[i] == before.items[j] && v'.items[i] == v.items[j];
      }
    }

    /**
     The retry loop as the queue is meant to be used: whatever arrives and whichever devices are
     done when, no run dereferences null and every run has the scheduled effect.
     */
    method Serve(steps: seq<JoinStep<int>>, ghost v: Queue<int>)
      requires Valid() && Shows(v)
      modifies this, q.items
      ensures Valid() && Shows(ServedAll(v, steps))
    {
      for i := 0 to |steps|
        invariant Valid() && Shows(ServedAll(v, steps[..i]))
        invariant forall k :: 0 <= k < |q.items| ==> q.items[k] in old(q.items) || fresh(q.items[k])
      {
        ghost var w := ServedAll(v, steps[..i]);
        assert steps[..i + 1][..i] == steps[..i];
        match steps[i]
        case Arrive(content, stored) =>
          ghost var e := PushBack(content, stored);
        case Attempt(finished) =>
          RetryInView(finished, w);
      }
      assert steps[..|steps|] == steps;
    }
  }
}
