/**
 The join progress of a device, packed by class Node of DeviceDefine.h into one 32-bit word:
 stage in bits 24-31, status flags in bits 8-15, retry count in bits 0-7.
 */
module JoinWord {

  // The accessors, as masks and shifts

  function StageOf(w: bv32): bv8 { ((w & 0xFF000000) >> 24) as bv8 }
  function StatusOf(w: bv32): bv8 { ((w & 0x0000FF00) >> 8) as bv8 }
  function RetriesOf(w: bv32): bv8 { (w & 0x000000FF) as bv8 }

  function WithStage(stage: bv8): bv32 { (stage as bv32) << 24 }

  function WithStatus(w: bv32, status: bv8): bv32 {
    w | (0x0000FF00 & ((status as bv32) << 8))
  }

  function WithRetry(w: bv32): bv32 {
    if RetriesOf(w) < 0xff then w + 1 else w
  }

  function SpareOf(w: bv32): bv8 { ((w & 0x00FF0000) >> 16) as bv8 }

  function Pack(stage: bv8, spare: bv8, status: bv8, retries: bv8): bv32 {
    ((stage as bv32) << 24) | ((spare as bv32) << 16) | ((status as bv32) << 8) | (retries as bv32)
  }

  /** One retry more, up to 255. */
  function OneMore(retries: bv8): bv8 {
    if retries < 0xff then retries + 1 else 0xff
  }

  /**
   The join word, with the record it stands for: stage, status, retries and the bits 16-23
   between them, which only an uninitialised word has set.
   */
  class Node {
    var joinStage: bv32
    var timeStamp: int
    ghost var stage: bv8
    ghost var spare: bv8
    ghost var status: bv8
    ghost var retries: bv8

    ghost predicate Valid()
      reads this
    {
      joinStage == Pack(stage, spare, status, retries)
    }

    /** No constructor of the source initialises the word; `garbage` is what it starts with. */
    constructor (garbage: bv32, time: int)
      ensures Valid() && joinStage == garbage && timeStamp == time
    {
      joinStage, timeStamp := garbage, time;
      stage, spare, status, retries := StageOf(garbage), SpareOf(garbage), StatusOf(garbage), RetriesOf(garbage);
      Repack(garbage);
    }

    method GetJoinStage() returns (r: bv8)
      requires Valid()
      ensures r == stage
    {
      Unpack(stage, spare, status, retries);
      r := ((joinStage & 0xFF000000) >> 24) as bv8;
    }

    method SetJoinStage(newStage: bv8)
      modifies this
      ensures Valid() && stage == newStage && spare == 0 && status == 0 && retries == 0
      ensures timeStamp == 0
    {
      joinStage := (newStage as bv32) << 24;
      timeStamp := 0;
      stage, spare, status, retries := newStage, 0, 0, 0;
      PackStage(newStage);
    }

    method GetJoinStatus() returns (r: bv8)
      requires Valid()
      ensures r == status
    {
      Unpack(stage, spare, status, retries);
      r := ((joinStage & 0x0000FF00) >> 8) as bv8;
    }

    method SetJoinStatus(flag: bv8)
      requires Valid()
      modifies this`joinStage, this`status
      ensures Valid() && status == old(status) | flag
    {
      ghost var both := status | flag;
      joinStage := Reported(joinStage, flag, stage, spare, status, retries, both);
      status := both;
    }

    /** The word with a flag added, for the record it stands for. */
    static method Reported(w: bv32, flag: bv8, ghost stage: bv8, ghost spare: bv8, ghost status: bv8,
                           ghost retries: bv8, ghost both: bv8)
      returns (r: bv32)
      requires w == Pack(stage, spare, status, retries) && both == status | flag
      ensures r == Pack(stage, spare, both, retries)
    {
      r := w | (0x0000FF00 & ((flag as bv32) << 8));
      ReportKeepsPacking(w, r, stage, spare, status, retries, flag, both);
    }

    method GetJoinReCount() returns (r: bv8)
      requires Valid()
      ensures r == retries
    {
      Unpack(stage, spare, status, retries);
      r := (joinStage & 0x000000FF) as bv8;
    }

    method JoinReCountIncrease()
      requires Valid()
      modifies this`joinStage, this`retries
      ensures Valid() && retries == OneMore(old(retries))
    {
      ghost var more := OneMore(retries);
      joinStage := Increased(joinStage, stage, spare, status, retries, more);
      retries := more;
    }

    /** The word with one retry more, for the record it stands for. */
    static method Increased(w: bv32, ghost stage: bv8, ghost spare: bv8, ghost status: bv8, ghost retries: bv8,
                            ghost more: bv8)
      returns (r: bv32)
      requires w == Pack(stage, spare, status, retries) && more == OneMore(retries)
      ensures r == Pack(stage, spare, status, more)
    {
      r := w;
      var cnt := (w & 0x000000FF) as bv8;
      if cnt < 0xff {
        r := w + 1;
      }
      RetryKeepsPacking(w, r, stage, spare, status, retries, more);
    }

    method Execute(op: Op)
      requires Valid()
      modifies this
      ensures Valid() && joinStage == Step(old(joinStage), op)
    {
      ghost var w, a, b, c, d := joinStage, stage, spare, status, retries;
      match op
      case SetStage(newStage) =>
        SetJoinStage(newStage);
        StageStep(joinStage, newStage);
      case Report(flag) =>
        SetJoinStatus(flag);
        ReportStep(w, joinStage, a, b, c, d, flag, status);
      case Retry =>
        JoinReCountIncrease();
        RetryStep(w, joinStage, a, b, c, d, retries);
    }

    /** Any run of the three operations leaves the word that `Run` computes. */
    method Perform(ops: seq<Op>)
      requires Valid()
      modifies this
      ensures Valid() && joinStage == Run(old(joinStage), ops)
    {
      for i := 0 to |ops|
        invariant Valid() && joinStage == Run(old(joinStage), ops[..i])
      {
        assert ops[..i + 1][..i] == ops[..i];
        Execute(ops[i]);
      }
      assert ops[..|ops|] == ops;
    }
  }

  // Runs

  datatype Op = SetStage(stage: bv8) | Report(flag: bv8) | Retry

  function Step(w: bv32, op: Op): bv32 {
    match op
    case SetStage(s) => WithStage(s)
    case Report(f) => WithStatus(w, f)
    case Retry => WithRetry(w)
  }

  function Run(w: bv32, ops: seq<Op>): bv32 {
    if ops == [] then w else Step(Run(w, ops[..|ops| - 1]), ops[|ops| - 1])
  }

  /** The flags reported in a run, in order. */
  function Reports(ops: seq<Op>): seq<bv8> {
    if ops == [] then []
    else
      var op := ops[|ops| - 1];
      Reports(ops[..|ops| - 1]) + if op.Report? then [op.flag] else []
  }

  function Union(flags: seq<bv8>): bv8 {
    if flags == [] then 0 else Union(flags[..|flags| - 1]) | flags[|flags| - 1]
  }

  function Retries(ops: seq<Op>): nat {
    if ops == [] then 0
    else Retries(ops[..|ops| - 1]) + if ops[|ops| - 1].Retry? then 1 else 0
  }

  function Saturated(n: nat): nat {
    if n < 255 then n else 255
  }

  ghost predicate StaysInStage(ops: seq<Op>) {
    forall i :: 0 <= i < |ops| ==> !ops[i].SetStage?
  }

  // One step on a well-formed word

  lemma Repack(w: bv32)
    ensures Pack(StageOf(w), SpareOf(w), StatusOf(w), RetriesOf(w)) == w
  {
  }

  lemma Unpack(stage: bv8, spare: bv8, status: bv8, retries: bv8)
    ensures
      var w := Pack(stage, spare, status, retries);
      && StageOf(w) == stage && StatusOf(w) == status && RetriesOf(w) == retries
      && w & 0x00FF0000 == (spare as bv32) << 16
  {
  }

  lemma PackStage(stage: bv8)
    ensures WithStage(stage) == Pack(stage, 0, 0, 0)
  {
  }

  lemma PackReport(stage: bv8, spare: bv8, status: bv8, retries: bv8, flag: bv8)
    ensures WithStatus(Pack(stage, spare, status, retries), flag) == Pack(stage, spare, status | flag, retries)
  {
  }

  lemma ReportKeepsPacking(w: bv32, r: bv32, stage: bv8, spare: bv8, status: bv8, retries: bv8, flag: bv8,
                           both: bv8)
    requires w == Pack(stage, spare, status, retries) && both == status | flag
    requires r == w | (0x0000FF00 & ((flag as bv32) << 8))
    ensures r == Pack(stage, spare, both, retries)
  {
    PackReport(stage, spare, status, retries, flag);
  }

  /** Adding one to a low byte below 0xff carries no further. */
  lemma LowByteIncrement(high: bv32, low: bv32)
    requires high & 0x000000FF == 0 && low < 0xff
    ensures (high | low) + 1 == high | (low + 1)
  {
  }

  lemma Widen(low: bv8)
    requires low < 0xff
    ensures (low + 1) as bv32 == (low as bv32) + 1 && (low as bv32) < 0xff
  {
  }

  lemma HighPart(stage: bv8, spare: bv8, status: bv8)
    ensures (((stage as bv32) << 24) | ((spare as bv32) << 16) | ((status as bv32) << 8)) & 0x000000FF == 0
  {
  }

  lemma PackRetry(stage: bv8, spare: bv8, status: bv8, retries: bv8)
    ensures WithRetry(Pack(stage, spare, status, retries))
            == Pack(stage, spare, status, OneMore(retries))
  {
    Unpack(stage, spare, status, retries);
    if retries < 0xff {
      HighPart(stage, spare, status);
      Widen(retries);
      LowByteIncrement(((stage as bv32) << 24) | ((spare as bv32) << 16) | ((status as bv32) << 8),
                       retries as bv32);
    }
  }

  lemma CountUp(retries: bv8, n: nat)
    requires retries as int == Saturated(n)
    ensures OneMore(retries) as int == Saturated(n + 1)
  {
  }

  lemma RetryKeepsPacking(w: bv32, r: bv32, stage: bv8, spare: bv8, status: bv8, retries: bv8, more: bv8)
    requires w == Pack(stage, spare, status, retries) && more == OneMore(retries)
    requires r == WithRetry(w)
    ensures r == Pack(stage, spare, status, more)
  {
    PackRetry(stage, spare, status, retries);
  }

  lemma StageStep(w: bv32, stage: bv8)
    requires w == Pack(stage, 0, 0, 0)
    ensures w == WithStage(stage)
  {
    PackStage(stage);
  }

  lemma ReportStep(w: bv32, w': bv32, stage: bv8, spare: bv8, status: bv8, retries: bv8, flag: bv8, both: bv8)
    requires w == Pack(stage, spare, status, retries) && both == status | flag
    requires w' == Pack(stage, spare, both, retries)
    ensures w' == WithStatus(w, flag)
  {
    PackReport(stage, spare, status, retries, flag);
  }

  lemma RetryStep(w: bv32, w': bv32, stage: bv8, spare: bv8, status: bv8, retries: bv8, more: bv8)
    requires w == Pack(stage, spare, status, retries) && more == OneMore(retries)
    requires w' == Pack(stage, spare, status, more)
    ensures w' == WithRetry(w)
  {
    PackRetry(stage, spare, status, retries);
  }

  lemma {:induction false} RunAppend(w: bv32, pre: seq<Op>, post: seq<Op>)
    ensures Run(w, pre + post) == Run(Run(w, pre), post)
    decreases |post|
  {
    if post == [] {
      assert pre + post == pre;
    } else {
      var ops := pre + post;
      assert ops[..|ops| - 1] == pre + post[..|post| - 1];
      RunAppend(w, pre, post[..|post| - 1]);
    }
  }

  lemma UnionAppend(flags: seq<bv8>, f: bv8)
    ensures Union(flags + [f]) == Union(flags) | f
  {
    assert (flags + [f])[..|flags|] == flags;
  }

  lemma {:induction false} RunInStage(stage: bv8, ops: seq<Op>) returns (retries: bv8)
    requires StaysInStage(ops)
    ensures Run(WithStage(stage), ops) == Pack(stage, 0, Union(Reports(ops)), retries)
    ensures retries as int == Saturated(Retries(ops))
    decreases |ops|
  {
    if ops == [] {
      PackStage(stage);
      retries := 0;
    } else {
      var rest, op := ops[..|ops| - 1], ops[|ops| - 1];
      var n := RunInStage(stage, rest);
      var u := Union(Reports(rest));
      match op
      case Report(f) =>
        PackReport(stage, 0, u, n, f);
        UnionAppend(Reports(rest), f);
        retries := n;
      case Retry =>
        PackRetry(stage, 0, u, n);
        CountUp(n, Retries(rest));
        retries := OneMore(n);
        assert Reports(ops) == Reports(rest);
    }
  }

  /**
   Whatever the word held and whatever was done to it before the last SetJoinStage, since then
   the stage is the one set, the status is the union of the reported flags, the count is the
   number of retries up to 255, and nothing spills into the bits between or above.
   */
  lemma WordRefinesRecord(w: bv32, pre: seq<Op>, stage: bv8, post: seq<Op>)
    requires StaysInStage(post)
    ensures
      var r := Run(w, pre + [SetStage(stage)] + post);
      && StageOf(r) == stage
      && StatusOf(r) == Union(Reports(post))
      && RetriesOf(r) as int == Saturated(Retries(post))
      && r & 0x00FF0000 == 0
  {
    RunAppend(w, pre + [SetStage(stage)], post);
    RunAppend(w, pre, [SetStage(stage)]);
    assert Run(Run(w, pre), [SetStage(stage)]) == WithStage(stage);
    var n := RunInStage(stage, post);
    Unpack(stage, 0, Union(Reports(post)), n);
  }

  // When a stage is complete

  /** The first n of the flags 0x01, 0x02, 0x04, ... */
  predicate IsFlag(f: bv8, n: nat) {
    || (n > 0 && f == 0x01) || (n > 1 && f == 0x02) || (n > 2 && f == 0x04) || (n > 3 && f == 0x08)
    || (n > 4 && f == 0x10) || (n > 5 && f == 0x20) || (n > 6 && f == 0x40)
  }

  ghost predicate OnlyFlags(flags: seq<bv8>, n: nat) {
    forall i :: 0 <= i < |flags| ==> IsFlag(flags[i], n)
  }

  lemma FlagsAreSeparateBits(u: bv8, f: bv8, b: bv8)
    requires IsFlag(f, 7) && IsFlag(b, 7)
    ensures (u | f) & b != 0 <==> u & b != 0 || f == b
  {
  }

  lemma {:induction false} FlagIsReported(flags: seq<bv8>, b: bv8)
    requires OnlyFlags(flags, 7) && IsFlag(b, 7)
    ensures Union(flags) & b != 0 <==> b in flags
    decreases |flags|
  {
    if flags != [] {
      var rest, f := flags[..|flags| - 1], flags[|flags| - 1];
      assert flags == rest + [f];
      FlagIsReported(rest, b);
      FlagsAreSeparateBits(Union(rest), f, b);
    }
  }

  lemma {:induction false} NoOtherBits(flags: seq<bv8>)
    ensures OnlyFlags(flags, 4) ==> Union(flags) & 0xF0 == 0
    ensures OnlyFlags(flags, 7) ==> Union(flags) & 0x80 == 0
    decreases |flags|
  {
    if flags != [] {
      NoOtherBits(flags[..|flags| - 1]);
      var u, f := Union(flags[..|flags| - 1]), flags[|flags| - 1];
      assert IsFlag(f, 4) && u & 0xF0 == 0 ==> (u | f) & 0xF0 == 0;
      assert IsFlag(f, 7) && u & 0x80 == 0 ==> (u | f) & 0x80 == 0;
    }
  }

  lemma FourBits(u: bv8)
    requires u & 0xF0 == 0
    ensures u == 0x0F <==> u & 0x01 != 0 && u & 0x02 != 0 && u & 0x04 != 0 && u & 0x08 != 0
    ensures u != 0xFF
  {
  }

  lemma SevenBits(u: bv8)
    requires u & 0x80 == 0
    ensures u == 0x7F <==> u & 0x01 != 0 && u & 0x02 != 0 && u & 0x04 != 0 && u & 0x08 != 0
                           && u & 0x10 != 0 && u & 0x20 != 0 && u & 0x40 != 0
  {
  }

  /**
   Reports of four flags, in any order and with repetitions and retries in between: the status
   is the announce stage's FULL value 0x0F exactly when each was reported, and it is never the
   FULL value 0xFF of the subscribe stage.
   */
  lemma FourFlagStage(w: bv32, pre: seq<Op>, stage: bv8, post: seq<Op>)
    requires StaysInStage(post) && OnlyFlags(Reports(post), 4)
    ensures
      var status := StatusOf(Run(w, pre + [SetStage(stage)] + post));
      && (status == 0x0F <==> forall f :: IsFlag(f, 4) ==> f in Reports(post))
      && status != 0xFF
  {
    WordRefinesRecord(w, pre, stage, post);
    var flags := Reports(post);
    NoOtherBits(flags);
    FourBits(Union(flags));
    FlagIsReported(flags, 0x01);
    FlagIsReported(flags, 0x02);
    FlagIsReported(flags, 0x04);
    FlagIsReported(flags, 0x08);
    assert IsFlag(0x01, 4) && IsFlag(0x02, 4) && IsFlag(0x04, 4) && IsFlag(0x08, 4);
  }

  /** The seven flags of the utility stage make up its FULL value 0x7F exactly together. */
  lemma SevenFlagStage(w: bv32, pre: seq<Op>, stage: bv8, post: seq<Op>)
    requires StaysInStage(post) && OnlyFlags(Reports(post), 7)
    ensures
      var status := StatusOf(Run(w, pre + [SetStage(stage)] + post));
      status == 0x7F <==> forall f :: IsFlag(f, 7) ==> f in Reports(post)
  {
    WordRefinesRecord(w, pre, stage, post);
    var flags := Reports(post);
    NoOtherBits(flags);
    SevenBits(Union(flags));
    FlagIsReported(flags, 0x01);
    FlagIsReported(flags, 0x02);
    FlagIsReported(flags, 0x04);
    FlagIsReported(flags, 0x08);
    FlagIsReported(flags, 0x10);
    FlagIsReported(flags, 0x20);
    FlagIsReported(flags, 0x40);
    assert IsFlag(0x01, 7) && IsFlag(0x02, 7) && IsFlag(0x04, 7) && IsFlag(0x08, 7);
    assert IsFlag(0x10, 7) && IsFlag(0x20, 7) && IsFlag(0x40, 7);
  }
}
