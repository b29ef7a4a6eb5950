/**
 The attribute headers of libubox/blob.h and the loops that walk a run of attributes.

 An attribute is a four byte header, a payload and padding up to a multiple of four. The
 header is a big-endian word: bit 31 the extended flag, bits 24-30 the id, bits 0-23 the
 length of header and payload together.
 `BlobAccessors` ties the arithmetic accessors to the mask and shift expressions.
 */
module Blob {
  import opened Basics

  type Octet = x: int | 0 <= x < 256
  type Bytes = seq<Octet>

  const HEADER_LEN := 4

  // Header accessors, for the attribute at position `at` of a buffer

  function Id(b: Bytes, at: nat): (id: nat)
    requires at + HEADER_LEN <= |b|
  {
    b[at] % 128
  }

  predicate Extended(b: Bytes, at: nat)
    requires at + HEADER_LEN <= |b|
  {
    b[at] >= 128
  }

  function LenField(b: Bytes, at: nat): (n: nat)
    requires at + HEADER_LEN <= |b|
    ensures n < 0x100_0000
  {
    0x10000 * (b[at + 1] as int) + 0x100 * (b[at + 2] as int) + b[at + 3] as int
  }

  /** blob_len: an unsigned subtraction, which wraps when the length field is below four. */
  function PayloadLen(b: Bytes, at: nat): (n: nat)
    requires at + HEADER_LEN <= |b|
  {
    var n := LenField(b, at) - HEADER_LEN;
    if n >= 0 then n else n + UINT32
  }

  /** blob_raw_len: adding the header length back undoes any wrap in `PayloadLen`. */
  function RawLen(b: Bytes, at: nat): (n: nat)
    requires at + HEADER_LEN <= |b|
    ensures n == LenField(b, at)
  {
    var n := PayloadLen(b, at) + HEADER_LEN;
    if n < UINT32 then n else n - UINT32
  }

  function Pad4(n: nat): (m: nat)
    ensures n <= m < n + 4
  {
    (n + 3) / 4 * 4
  }

  lemma Pad4IsLeast(n: nat, m: nat)
    ensures Pad4(n) % 4 == 0
    ensures m >= n && m % 4 == 0 ==> Pad4(n) <= m
  {
  }

  /** blob_pad_len */
  function PadLen(b: Bytes, at: nat): (n: nat)
    requires at + HEADER_LEN <= |b|
  {
    Pad4(RawLen(b, at))
  }

  // Walking a run of attributes

  /** The guard of the for_each macros: at `at`, with `stop - at` bytes remaining. */
  predicate Continues(b: Bytes, at: nat, stop: nat)
    requires at <= stop <= |b|
  {
    stop - at >= HEADER_LEN && PadLen(b, at) <= stop - at && PadLen(b, at) >= HEADER_LEN
  }

  /** Where the attributes of the run b[at..stop] start. */
  function Starts(b: Bytes, at: nat, stop: nat): (r: seq<nat>)
    requires at <= stop <= |b|
    decreases stop - at
  {
    if Continues(b, at, stop) then [at] + Starts(b, at + PadLen(b, at), stop) else []
  }

  /** Where a walk of the run b[at..stop] ends. */
  function End(b: Bytes, at: nat, stop: nat): (r: nat)
    requires at <= stop <= |b|
    ensures at <= r <= stop
    decreases stop - at
  {
    if Continues(b, at, stop) then End(b, at + PadLen(b, at), stop) else at
  }

  /** The attribute at `at` lies inside b[start..stop] with header and padding, and ends at `next`. */
  ghost predicate Tile(b: Bytes, start: nat, stop: nat, at: nat, next: nat)
    requires stop <= |b|
  {
    && start <= at && at + HEADER_LEN <= next <= stop
    && PadLen(b, at) == next - at
  }

  /**
   `starts` are the attributes of b[start..stop]: each lies inside the run with its header
   and its padding, they follow each other without gap or overlap from `start` to `end`,
   and what is left at `end` is not an attribute.
   */
  ghost predicate Tiles(b: Bytes, start: nat, stop: nat, starts: seq<nat>, end: nat)
    requires start <= stop <= |b|
  {
    && start <= end <= stop
    && (starts + [end])[0] == start
    && (forall i :: 0 <= i < |starts| ==> Tile(b, start, stop, starts[i], (starts + [end])[i + 1]))
    && !Continues(b, end, stop)
  }

  ghost predicate Aligned(starts: seq<nat>, base: nat) {
    forall i :: 0 <= i < |starts| ==> (starts[i] - base) % 4 == 0
  }

  lemma SumOfMultiples(a: int, b: int)
    requires a % 4 == 0 && b % 4 == 0
    ensures (a + b) % 4 == 0
  {
  }

  lemma {:induction false} WalkAligned(b: Bytes, at: nat, stop: nat)
    requires at <= stop <= |b|
    ensures Aligned(Starts(b, at, stop), at)
    decreases stop - at
  {
    if Continues(b, at, stop) {
      var n := PadLen(b, at);
      var rest := Starts(b, at + n, stop);
      WalkAligned(b, at + n, stop);
      forall i | 0 <= i < |rest|
        ensures (rest[i] - at) % 4 == 0
      {
        SumOfMultiples(rest[i] - (at + n), n);
      }
    }
  }

  lemma {:induction false} WalkTiles(b: Bytes, start: nat, stop: nat)
    requires start <= stop <= |b|
    ensures Tiles(b, start, stop, Starts(b, start, stop), End(b, start, stop))
    decreases stop - start
  {
    if Continues(b, start, stop) {
      var next := start + PadLen(b, start);
      WalkTiles(b, next, stop);
      var rest, starts, end := Starts(b, next, stop), Starts(b, start, stop), End(b, start, stop);
      assert starts + [end] == [start] + (rest + [end]);
      forall i | 0 <= i < |starts|
        ensures Tile(b, start, stop, starts[i], (starts + [end])[i + 1])
      {
        if i > 0 {
          assert Tile(b, next, stop, rest[i - 1], (rest + [end])[i]);
        }
      }
    }
  }

  /**
   A visited attribute has its whole payload inside its extent exactly when its length field
   is at least the header's; for the others the payload length has wrapped around.
   */
  lemma VisitedPayloadContained(b: Bytes, at: nat, stop: nat)
    requires at <= stop <= |b| && Continues(b, at, stop)
    ensures HEADER_LEN + PayloadLen(b, at) <= PadLen(b, at) <==> RawLen(b, at) >= HEADER_LEN
    ensures RawLen(b, at) < HEADER_LEN ==> PayloadLen(b, at) >= UINT32 - 3
  {
  }

  /** Four bytes are enough for a visited attribute whose payload length is 2^32 - 3. */
  lemma WrappedPayloadIsVisited()
    ensures
      var b: Bytes := [0, 0, 0, 1];
      Starts(b, 0, 4) == [0] && PayloadLen(b, 0) == 0xffff_fffd && HEADER_LEN + PayloadLen(b, 0) > PadLen(b, 0)
  {
    var b: Bytes := [0, 0, 0, 1];
    assert Starts(b, 0, 4) == [0] + Starts(b, 4, 4);
  }

  // How far a walk reaches

  /**
   A loop at `at` with `rem` bytes to go keeps in front of `limit`: every header it reads and
   every attribute it visits ends there or earlier. `rem` may be more than the buffer has.
   */
  ghost predicate StaysWithin(b: Bytes, at: nat, rem: nat, limit: nat)
    requires limit <= |b|
    decreases rem
  {
    rem >= HEADER_LEN ==>
      && at + HEADER_LEN <= limit
      && (HEADER_LEN <= PadLen(b, at) <= rem ==>
            at + PadLen(b, at) <= limit && StaysWithin(b, at + PadLen(b, at), rem - PadLen(b, at), limit))
  }

  /** A walk of a run keeps inside the run. */
  lemma {:induction false} StaysWithinRun(b: Bytes, at: nat, rem: nat, limit: nat)
    requires at + rem <= limit <= |b|
    ensures StaysWithin(b, at, rem, limit)
    decreases rem
  {
    if rem >= HEADER_LEN && HEADER_LEN <= PadLen(b, at) <= rem {
      StaysWithinRun(b, at + PadLen(b, at), rem - PadLen(b, at), limit);
    }
  }

  /** How far a walk reaches is decided where it ends. */
  lemma {:induction false} StaysWithinIff(b: Bytes, at: nat, stop: nat, limit: nat)
    requires at <= stop <= |b| && limit <= |b|
    ensures
      var end := End(b, at, stop);
      StaysWithin(b, at, stop - at, limit) <==>
      (at < end ==> end <= limit) && (stop - end >= HEADER_LEN ==> end + HEADER_LEN <= limit)
    decreases stop - at
  {
    if Continues(b, at, stop) {
      StaysWithinIff(b, at + PadLen(b, at), stop, limit);
    }
  }

  lemma {:induction false} EndAligned(b: Bytes, at: nat, stop: nat)
    requires at <= stop <= |b|
    ensures (End(b, at, stop) - at) % 4 == 0
    decreases stop - at
  {
    if Continues(b, at, stop) {
      var n := PadLen(b, at);
      EndAligned(b, at + n, stop);
      SumOfMultiples(End(b, at, stop) - (at + n), n);
    }
  }

  /**
   __blob_for_each_attr over the run of `len` bytes at `start`: whatever the bytes are, the
   loop ends and reads headers only inside the run. What it visits tiles the run
   (`WalkTiles`) at multiples of four (`WalkAligned`).
   */
  method ForEachAttr(b: Bytes, start: nat, len: nat) returns (visited: seq<nat>, rem: nat)
    requires start + len <= |b|
    ensures visited == Starts(b, start, start + len)
    ensures start + len - rem == End(b, start, start + len)
  {
    var pos := start;
    visited, rem := [], len;
    ghost var stop := start + len;
    while rem >= HEADER_LEN && PadLen(b, pos) <= rem && PadLen(b, pos) >= HEADER_LEN
      invariant pos + rem == stop
      invariant visited + Starts(b, pos, stop) == Starts(b, start, stop)
      invariant End(b, pos, stop) == End(b, start, stop)
      decreases rem
    {
      assert Starts(b, pos, stop) == [pos] + Starts(b, pos + PadLen(b, pos), stop);
      visited := visited + [pos];
      rem, pos := rem - PadLen(b, pos), pos + PadLen(b, pos);
    }
  }

  datatype AttrPtr = Null | At(pos: nat)

  /**
   The buffer holds the header of `attr` and, unless the length test keeps the loop from
   reading it, the payload.
   */
  predicate Readable(b: Bytes, attr: AttrPtr, attrLen: nat) {
    attr.At? ==>
      && attr.pos + HEADER_LEN <= |b|
      && (PayloadLen(b, attr.pos) < attrLen ==> attr.pos + HEADER_LEN + PayloadLen(b, attr.pos) <= |b|)
  }

  /** The attributes nested directly in the one at `pos`. */
  function Members(b: Bytes, pos: nat): (r: seq<nat>)
    requires pos + HEADER_LEN <= |b| && pos + HEADER_LEN + PayloadLen(b, pos) <= |b|
  {
    var data := pos + HEADER_LEN;
    Starts(b, data, data + PayloadLen(b, pos))
  }

  /**
   The members tile the payload, which goes from behind the header to where the length field
   says; a length field below four makes that 2^32 bytes later.
   */
  lemma MembersTile(b: Bytes, pos: nat, stop: nat)
    requires pos + 4 <= |b| && stop <= |b|
    requires stop == pos + LenField(b, pos) + if LenField(b, pos) < 4 then 0x1_0000_0000 else 0
    ensures pos + 4 + PayloadLen(b, pos) == stop
    ensures Tiles(b, pos + 4, stop, Members(b, pos), End(b, pos + 4, stop))
  {
    PayloadEnd(b, pos);
    MembersAreStarts(b, pos, stop);
    WalkTiles(b, pos + 4, stop);
  }

  lemma MembersAreStarts(b: Bytes, pos: nat, stop: nat)
    requires pos + HEADER_LEN <= |b| && pos + HEADER_LEN + PayloadLen(b, pos) == stop <= |b|
    ensures Members(b, pos) == Starts(b, pos + HEADER_LEN, stop)
  {
  }

  lemma PayloadEnd(b: Bytes, pos: nat)
    requires pos + 4 <= |b|
    ensures pos + 4 + PayloadLen(b, pos)
            == pos + LenField(b, pos) + if LenField(b, pos) < 4 then 0x1_0000_0000 else 0
  {
  }

  /**
   blob_for_each_attr_len tests `rem < attr_len` on every round. The remainder only shrinks,
   so the first test decides: all the members are visited, or none.
   */
  method ForEachAttrLen(b: Bytes, attr: AttrPtr, attrLen: nat) returns (visited: seq<nat>)
    requires Readable(b, attr, attrLen)
    ensures visited ==
            if attr.At? && PayloadLen(b, attr.pos) < attrLen then Members(b, attr.pos) else []
  {
    var rem: nat, pos: nat := 0, 0;
    if attr.At? {
      rem, pos := PayloadLen(b, attr.pos), attr.pos + HEADER_LEN;
    }
    NothingInEmptyRun(b);
    visited := TestedRounds(b, pos, rem, attrLen);
  }

  lemma NothingInEmptyRun(b: Bytes)
    ensures Starts(b, 0, 0) == []
  {
  }

  /** The loop proper, from `start` with `len` bytes to go. */
  method TestedRounds(b: Bytes, start: nat, len: nat, attrLen: nat) returns (visited: seq<nat>)
    requires len < attrLen ==> start + len <= |b|
    ensures visited == if len < attrLen then Starts(b, start, start + len) else []
  {
    var rem: nat, pos: nat := len, start;
    visited := [];
    ghost var stop := start + len;
    while rem >= HEADER_LEN && rem < attrLen
          && PadLen(b, pos) <= rem && PadLen(b, pos) >= HEADER_LEN
      invariant pos + rem == stop && (len < attrLen <==> rem < attrLen)
      invariant if len < attrLen then visited + Starts(b, pos, stop) == Starts(b, start, stop) else visited == []
      decreases rem
    {
      assert Starts(b, pos, stop) == [pos] + Starts(b, pos + PadLen(b, pos), stop);
      visited := visited + [pos];
      rem, pos := rem - PadLen(b, pos), pos + PadLen(b, pos);
    }
  }

  // What the length test is worth when `attrLen` is the number of bytes available at `attr`

  /** The end of the last four byte slot of the payload, counted from the attribute. */
  function LastSlot(payload: nat): (n: nat)
    ensures payload <= n <= payload + HEADER_LEN && (n - HEADER_LEN) % 4 == 0
  {
    HEADER_LEN + (payload - payload % 4)
  }

  lemma EndBySlot(payload: nat, attrLen: nat, end: nat)
    requires end <= payload < attrLen && end % 4 == 0
    ensures
      || payload < HEADER_LEN || LastSlot(payload) <= attrLen || end + 2 * HEADER_LEN < LastSlot(payload)
      <==> (0 < end ==> HEADER_LEN + end <= attrLen)
           && (payload - end >= HEADER_LEN ==> end + 2 * HEADER_LEN <= attrLen)
    ensures LastSlot(payload) <= attrLen + 3
  {
  }

  /**
   The test lets a payload through that ends up to three bytes behind what is available. The
   loop then keeps to what is available exactly when the last slot of the payload does, or
   the walk breaks off in front of it.
   */
  lemma LengthTestKeepsIff(b: Bytes, pos: nat, attrLen: nat)
    requires pos + HEADER_LEN <= |b| && pos + attrLen <= |b|
    requires PayloadLen(b, pos) < attrLen && pos + HEADER_LEN + PayloadLen(b, pos) <= |b|
    ensures
      var data, payload := pos + HEADER_LEN, PayloadLen(b, pos);
      StaysWithin(b, data, payload, pos + attrLen) <==>
      || payload < HEADER_LEN || LastSlot(payload) <= attrLen
      || End(b, data, data + payload) < pos + LastSlot(payload) - HEADER_LEN
    ensures LastSlot(PayloadLen(b, pos)) <= attrLen + 3
  {
    var data, payload := pos + HEADER_LEN, PayloadLen(b, pos);
    var end := End(b, data, data + payload);
    StaysWithinIff(b, data, data + payload, pos + attrLen);
    EndAligned(b, data, data + payload);
    EndBySlot(payload, attrLen, end - data);
  }

  /** Attributes without payload, as many as fit. */
  function Empties(n: nat): (b: Bytes)
    ensures |b| == n
  {
    if n < HEADER_LEN then seq(n, _ => 0) else [0, 0, 0, 4] + Empties(n - HEADER_LEN)
  }

  lemma SameRemainder(n: nat)
    requires n >= HEADER_LEN
    ensures (n - HEADER_LEN) % 4 == n % 4
  {
  }

  lemma {:induction false} EmptiesWalk(b: Bytes, at: nat, stop: nat)
    requires at <= stop <= |b| && b[at..stop] == Empties(stop - at)
    ensures End(b, at, stop) == stop - (stop - at) % 4
    decreases stop - at
  {
    if stop - at >= HEADER_LEN {
      var rest := Empties(stop - at - HEADER_LEN);
      assert b[at..stop] == [0, 0, 0, 4] + rest;
      assert forall i :: 0 <= i < 4 ==> b[at + i] == b[at..stop][i];
      assert b[at + HEADER_LEN..stop] == b[at..stop][HEADER_LEN..] == rest;
      assert PadLen(b, at) == HEADER_LEN;
      EmptiesWalk(b, at + HEADER_LEN, stop);
      SameRemainder(stop - at);
    }
  }

  ghost predicate SameHeader(b: Bytes, c: Bytes, pos: nat)
    requires pos + HEADER_LEN <= |b|
  {
    |c| == |b| && c[..pos + HEADER_LEN] == b[..pos + HEADER_LEN]
  }

  /**
   What a caller can tell from the header: whatever follows it, a loop that passes the test
   keeps to the available bytes exactly when the last slot of the payload does.
   */
  lemma LengthTestSafeIff(b: Bytes, pos: nat, attrLen: nat)
    requires pos + HEADER_LEN <= |b| && pos + attrLen <= |b|
    requires PayloadLen(b, pos) < attrLen && pos + HEADER_LEN + PayloadLen(b, pos) <= |b|
    ensures
      var data, payload := pos + HEADER_LEN, PayloadLen(b, pos);
      (forall c :: SameHeader(b, c, pos) ==> StaysWithin(c, data, payload, pos + attrLen)) <==>
      payload < HEADER_LEN || LastSlot(payload) <= attrLen
  {
    var data, payload := pos + HEADER_LEN, PayloadLen(b, pos);
    if payload < HEADER_LEN || LastSlot(payload) <= attrLen {
      forall c | SameHeader(b, c, pos)
        ensures StaysWithin(c, data, payload, pos + attrLen)
      {
        SameHeaderFields(b, c, pos);
        LengthTestKeepsIff(c, pos, attrLen);
      }
    } else {
      var c := OverrunBehind(b, pos, attrLen);
      assert SameHeader(b, c, pos) && !StaysWithin(c, data, payload, pos + attrLen);
    }
  }

  lemma OverrunBehind(b: Bytes, pos: nat, attrLen: nat) returns (c: Bytes)
    requires pos + HEADER_LEN <= |b| && pos + attrLen <= |b|
    requires PayloadLen(b, pos) < attrLen && pos + HEADER_LEN + PayloadLen(b, pos) <= |b|
    requires PayloadLen(b, pos) >= HEADER_LEN && LastSlot(PayloadLen(b, pos)) > attrLen
    ensures SameHeader(b, c, pos) && !StaysWithin(c, pos + HEADER_LEN, PayloadLen(b, pos), pos + attrLen)
  {
    var data, payload := pos + HEADER_LEN, PayloadLen(b, pos);
    var stop := data + payload;
    c := b[..data] + Empties(payload) + b[stop..];
    assert c[..data] == b[..data] && c[data..stop] == Empties(payload);
    SameHeaderFields(b, c, pos);
    EmptiesWalk(c, data, stop);
    assert stop - data == payload && End(c, data, stop) == pos + LastSlot(payload);
    LengthTestKeepsIff(c, pos, attrLen);
  }

  lemma SameHeaderFields(b: Bytes, c: Bytes, pos: nat)
    requires pos + HEADER_LEN <= |b| && SameHeader(b, c, pos)
    ensures PayloadLen(c, pos) == PayloadLen(b, pos)
  {
    assert forall i :: pos <= i < pos + HEADER_LEN ==> c[i] == c[..pos + HEADER_LEN][i] == b[..pos + HEADER_LEN][i];
  }

  /** Nine bytes are available, and a header is read from the eighth to the twelfth. */
  lemma LengthTestOverrun(x: Octet, y: Octet, z: Octet)
    ensures
      var b: Bytes := [2, 0, 0, 12, 1, 0, 0, 4, 1, x, y, z];
      PayloadLen(b, 0) == 8 && !StaysWithin(b, HEADER_LEN, 8, 9)
  {
    var b: Bytes := [2, 0, 0, 12, 1, 0, 0, 4, 1, x, y, z];
    assert PadLen(b, 4) == 4;
    assert !StaysWithin(b, 8, 4, 9);
  }
}
