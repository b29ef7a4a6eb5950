/**
 Named and nested attributes, libubox/blobmsg.h: an extended attribute carries a name
 header (two length bytes, the name, a NUL, padding) before its data, and the data of an
 array or a table is again a run of attributes.

 The functions that build messages are only declared in the headers, so `EncodeFields` is
 the layout the accessors expect. `Decode*` is what a reader sees who walks a message with
 blobmsg_data, blobmsg_data_len and blobmsg_for_each_attr.
 */
module BlobMsg {
  import opened Basics
  import opened Blob

  const TYPE_ARRAY := 1
  const TYPE_TABLE := 2
  const NAME_HEADER_LEN := 2

  /** `Broken` is the body of an attribute whose data would start after its own end. */
  datatype Body = Leaf(payload: Bytes) | Nest(fields: seq<Field>) | Broken
  datatype Field = Field(named: bool, id: nat, name: Bytes, body: Body)

  predicate IsContainer(id: nat) {
    id == TYPE_ARRAY || id == TYPE_TABLE
  }

  // Reading

  function HdrLen(nameLen: nat): (n: nat) {
    Pad4(NAME_HEADER_LEN + nameLen + 1)
  }

  function NameLen(b: Bytes, at: nat): (n: nat)
    requires at + HEADER_LEN + NAME_HEADER_LEN <= |b|
  {
    0x100 * (b[at + 4] as int) + b[at + 5] as int
  }

  predicate HasNameHeader(b: Bytes, at: nat) {
    at + HEADER_LEN + NAME_HEADER_LEN <= |b|
  }

  /** blobmsg_data */
  function DataStart(b: Bytes, at: nat): (p: nat)
    requires at + HEADER_LEN <= |b|
    requires Extended(b, at) ==> HasNameHeader(b, at)
    ensures p >= at + HEADER_LEN
  {
    at + HEADER_LEN + if Extended(b, at) then HdrLen(NameLen(b, at)) else 0
  }

  /** blobmsg_data_len; negative when the name header does not fit the attribute. */
  function DataLen(b: Bytes, at: nat): (n: int)
    requires at + HEADER_LEN <= |b|
    requires Extended(b, at) ==> HasNameHeader(b, at)
  {
    PayloadLen(b, at) - (DataStart(b, at) - (at + HEADER_LEN))
  }

  /** The attribute's data lies between its header and the end its length field gives. */
  predicate Intact(b: Bytes, at: nat)
    requires at + HEADER_LEN <= |b|
  {
    && HEADER_LEN <= RawLen(b, at) <= |b| - at
    && (Extended(b, at) ==> HasNameHeader(b, at))
    && DataLen(b, at) >= 0
  }

  /** The C string at `at`, not read beyond `stop`. */
  function CString(b: Bytes, at: nat, stop: nat): (s: Bytes)
    requires at <= stop <= |b|
    decreases stop - at
  {
    if at == stop || b[at] == 0 then [] else [b[at]] + CString(b, at + 1, stop)
  }

  function DecodeField(b: Bytes, at: nat): (f: Field)
    requires at + HEADER_LEN <= |b|
    decreases RawLen(b, at), 0
  {
    if !Intact(b, at) then Field(Extended(b, at), Id(b, at), [], Broken)
    else
      var data, end := DataStart(b, at), DataStart(b, at) + DataLen(b, at);
      Field(Extended(b, at), Id(b, at), DecodeName(b, at, Extended(b, at), data),
            DecodeBody(b, Id(b, at), data, end))
  }

  function DecodeName(b: Bytes, at: nat, named: bool, data: nat): (name: Bytes)
    requires data <= |b| && (named ==> at + HEADER_LEN + NAME_HEADER_LEN <= data)
  {
    if named then CString(b, at + HEADER_LEN + NAME_HEADER_LEN, data) else []
  }

  function DecodeBody(b: Bytes, id: nat, data: nat, end: nat): (body: Body)
    requires data <= end <= |b|
    decreases end - data, 2
  {
    if IsContainer(id) then Nest(DecodeFields(b, data, end)) else Leaf(b[data..end])
  }

  function DecodeFields(b: Bytes, at: nat, stop: nat): (fs: seq<Field>)
    requires at <= stop <= |b|
    decreases stop - at, 1
  {
    if Continues(b, at, stop) then
      [DecodeField(b, at)] + DecodeFields(b, at + PadLen(b, at), stop)
    else []
  }

  /** What makes the recursion into containers end, for any bytes. */
  lemma NestedDataIsShorter(b: Bytes, at: nat)
    requires at + HEADER_LEN <= |b| && Intact(b, at)
    ensures DataLen(b, at) + HEADER_LEN <= RawLen(b, at)
    ensures at + HEADER_LEN <= DataStart(b, at)
    ensures DataStart(b, at) + DataLen(b, at) == at + RawLen(b, at) <= |b|
  {
  }

  /** What blobmsg_for_each_attr counts down from: the length as an unsigned number. */
  function UnsignedLen(n: int): (rem: nat)
    requires -UINT32 <= n < UINT32
  {
    if n < 0 then n + UINT32 else n
  }

  /**
   The loop over a container reads headers and visits attributes only inside it exactly when
   its own header fits and, if it is named, its name header too. Otherwise the length it
   counts down from has wrapped around, and the first header it reads is already outside.
   */
  lemma WalkContainedIff(b: Bytes, at: nat)
    requires at + HEADER_LEN <= |b| && (Extended(b, at) ==> HasNameHeader(b, at))
    requires at + RawLen(b, at) <= |b|
    ensures
      StaysWithin(b, DataStart(b, at), UnsignedLen(DataLen(b, at)), at + RawLen(b, at)) <==>
      && HEADER_LEN <= RawLen(b, at)
      && (Extended(b, at) ==> HdrLen(NameLen(b, at)) <= RawLen(b, at) - HEADER_LEN)
  {
    if HEADER_LEN <= RawLen(b, at) && DataLen(b, at) >= 0 {
      StaysWithinRun(b, DataStart(b, at), DataLen(b, at), at + RawLen(b, at));
    }
  }

  /** A container of eight bytes that announces a name of a hundred. */
  lemma NameHeaderOverrun()
    ensures
      var b: Bytes := [130, 0, 0, 8, 0, 100, 0, 0];
      && DataStart(b, 0) == 108 && DataLen(b, 0) == -100
      && !StaysWithin(b, DataStart(b, 0), UnsignedLen(DataLen(b, 0)), 8)
  {
    var b: Bytes := [130, 0, 0, 8, 0, 100, 0, 0];
    WalkContainedIff(b, 0);
  }

  // Reading a whole message

  /**
   Reading the attribute at `at` itself, without what is nested in it, keeps inside it: the
   name header, the data, or for a container the loop over it.
   */
  ghost predicate ReadsInside(b: Bytes, at: nat)
    requires at + HEADER_LEN <= |b|
  {
    && at + RawLen(b, at) <= |b|
    && (Extended(b, at) ==> HEADER_LEN + NAME_HEADER_LEN <= RawLen(b, at))
    && if IsContainer(Id(b, at))
       then StaysWithin(b, DataStart(b, at), UnsignedLen(DataLen(b, at)), at + RawLen(b, at))
       else DataStart(b, at) + UnsignedLen(DataLen(b, at)) <= at + RawLen(b, at)
  }

  lemma ReadsInsideIff(b: Bytes, at: nat)
    requires at + HEADER_LEN <= |b|
    ensures ReadsInside(b, at) <==> Intact(b, at)
  {
    if at + RawLen(b, at) <= |b| && (Extended(b, at) ==> HEADER_LEN + NAME_HEADER_LEN <= RawLen(b, at)) {
      WalkContainedIff(b, at);
    }
  }

  /** The same with everything nested in it, at every level. */
  ghost predicate AllInside(b: Bytes, at: nat)
    requires at + HEADER_LEN <= |b|
    decreases RawLen(b, at), 0
  {
    ReadsInsideIff(b, at);
    && ReadsInside(b, at)
    && (IsContainer(Id(b, at)) ==> RunInside(b, DataStart(b, at), DataStart(b, at) + DataLen(b, at)))
  }

  /** Every attribute that a walk of b[at..stop] visits is read inside its own extent. */
  ghost predicate RunInside(b: Bytes, at: nat, stop: nat)
    requires at <= stop <= |b|
    decreases stop - at, 1
  {
    Continues(b, at, stop) ==> AllInside(b, at) && RunInside(b, at + PadLen(b, at), stop)
  }

  predicate Unbroken(f: Field) {
    match f.body
    case Leaf(_) => true
    case Nest(fields) => AllUnbroken(fields)
    case Broken => false
  }

  predicate AllUnbroken(fs: seq<Field>) {
    forall i :: 0 <= i < |fs| ==> Unbroken(fs[i])
  }

  lemma {:induction false} FieldInsideIff(b: Bytes, at: nat)
    requires at + HEADER_LEN <= |b|
    ensures AllInside(b, at) <==> Unbroken(DecodeField(b, at))
    decreases RawLen(b, at), 0
  {
    ReadsInsideIff(b, at);
    if Intact(b, at) && IsContainer(Id(b, at)) {
      ReadInsideIff(b, DataStart(b, at), DataStart(b, at) + DataLen(b, at));
    }
  }

  lemma UnbrokenPrepend(f: Field, fs: seq<Field>)
    ensures AllUnbroken([f] + fs) <==> Unbroken(f) && AllUnbroken(fs)
  {
    var all := [f] + fs;
    assert all[0] == f && forall i :: 0 <= i < |fs| ==> fs[i] == all[i + 1];
  }

  /**
   Reading any bytes as a message, containers recursively, keeps inside the attributes at
   every level exactly when the tree that is read has no broken field in it.
   */
  lemma {:induction false} ReadInsideIff(b: Bytes, at: nat, stop: nat)
    requires at <= stop <= |b|
    ensures RunInside(b, at, stop) <==> AllUnbroken(DecodeFields(b, at, stop))
    decreases stop - at, 1
  {
    if Continues(b, at, stop) {
      FieldInsideIff(b, at);
      ReadInsideIff(b, at + PadLen(b, at), stop);
      UnbrokenPrepend(DecodeField(b, at), DecodeFields(b, at + PadLen(b, at), stop));
    }
  }

  // Writing

  function Zeros(n: nat): (b: Bytes)
    ensures |b| == n && forall i :: 0 <= i < n ==> b[i] == 0
  {
    seq(n, _ => 0)
  }

  function Header(extended: bool, id: nat, rawLen: nat): (b: Bytes)
    ensures |b| == HEADER_LEN
  {
    [(if extended then 128 else 0) + id % 128, rawLen / 0x10000 % 256, rawLen / 0x100 % 256, rawLen % 256]
  }

  /** The arguments of blobmsg_add_field: type, optional name and the bytes of the data. */
  datatype Frame = Frame(named: bool, id: nat, name: Bytes, data: Bytes)

  function EncodeName(named: bool, name: Bytes): (b: Bytes)
    ensures |b| == if named then HdrLen(|name|) else 0
  {
    if named then
      [|name| / 0x100 % 256, |name| % 256] + name + Zeros(HdrLen(|name|) - NAME_HEADER_LEN - |name|)
    else []
  }

  function RawSize(fr: Frame): (n: nat) {
    HEADER_LEN + |EncodeName(fr.named, fr.name)| + |fr.data|
  }

  function EncodeFrame(fr: Frame): (b: Bytes)
    ensures |b| == Pad4(RawSize(fr))
  {
    var n := RawSize(fr);
    Header(fr.named, fr.id, n) + EncodeName(fr.named, fr.name) + fr.data + Zeros(Pad4(n) - n)
  }

  /** Id and length fit the header, and the name is a C string. */
  predicate Fits(fr: Frame) {
    && fr.id < 128
    && RawSize(fr) < 0x100_0000
    && (if fr.named then |fr.name| < 0x1_0000 && 0 !in fr.name else fr.name == [])
  }

  function ToFrame(f: Field): (fr: Frame)
    decreases f, 0
  {
    Frame(f.named, f.id, f.name, EncodeBody(f.body))
  }

  function EncodeBody(body: Body): (b: Bytes) {
    match body
    case Leaf(payload) => payload
    case Nest(fields) => EncodeFields(fields)
    case Broken => []
  }

  function EncodeField(f: Field): (b: Bytes)
    ensures |b| >= HEADER_LEN
    decreases f, 1
  {
    EncodeFrame(ToFrame(f))
  }

  function EncodeFields(fs: seq<Field>): (b: Bytes) {
    if fs == [] then [] else EncodeField(fs[0]) + EncodeFields(fs[1..])
  }

  /** Every frame fits, and exactly the containers hold fields. */
  predicate WellFormed(f: Field) {
    && Fits(ToFrame(f))
    && !f.body.Broken?
    && (IsContainer(f.id) <==> f.body.Nest?)
    && (f.body.Nest? ==> AllWellFormed(f.body.fields))
  }

  predicate AllWellFormed(fs: seq<Field>) {
    forall i :: 0 <= i < |fs| ==> WellFormed(fs[i])
  }

  // Reading back what was written

  ghost predicate Holds(b: Bytes, at: nat, part: Bytes) {
    at + |part| <= |b| && b[at..at + |part|] == part
  }

  lemma HoldsParts(b: Bytes, at: nat, x: Bytes, y: Bytes)
    requires Holds(b, at, x + y)
    ensures Holds(b, at, x) && Holds(b, at + |x|, y)
  {
    var whole := b[at..at + |x + y|];
    assert b[at..at + |x|] == whole[..|x|];
    assert b[at + |x|..at + |x| + |y|] == whole[|x|..];
  }

  lemma HeaderReadsBack(b: Bytes, at: nat, extended: bool, id: nat, rawLen: nat)
    requires id < 128 && rawLen < 0x100_0000
    requires Holds(b, at, Header(extended, id, rawLen))
    ensures Extended(b, at) == extended && Id(b, at) == id && LenField(b, at) == rawLen
  {
    var h := Header(extended, id, rawLen);
    assert forall i :: 0 <= i < HEADER_LEN ==> b[at + i] == b[at..at + HEADER_LEN][i] == h[i];
    assert b[at] == h[0] && b[at + 1] == h[1] && b[at + 2] == h[2] && b[at + 3] == h[3];
  }

  lemma {:induction false} CStringReadsBack(b: Bytes, at: nat, stop: nat, s: Bytes)
    requires 0 !in s && at + |s| < stop <= |b|
    requires Holds(b, at, s) && b[at + |s|] == 0
    ensures CString(b, at, stop) == s
    decreases |s|
  {
    if s != [] {
      assert s == [s[0]] + s[1..];
      HoldsParts(b, at, [s[0]], s[1..]);
      assert b[at] == b[at..at + 1][0];
      CStringReadsBack(b, at + 1, stop, s[1..]);
    }
  }

  lemma CountReadsBack(b: Bytes, at: nat, n: nat)
    requires n < 0x1_0000
    requires Holds(b, at + HEADER_LEN, [n / 0x100 % 256, n % 256])
    ensures HasNameHeader(b, at) && NameLen(b, at) == n
  {
    var p := at + HEADER_LEN;
    assert b[p] == b[p..p + 2][0] && b[p + 1] == b[p..p + 2][1];
  }

  lemma NamePartsReadBack(b: Bytes, p: nat, count: Bytes, name: Bytes, zeros: Bytes)
    requires Holds(b, p, count + name + zeros)
    requires 0 !in name && |zeros| > 0 && zeros[0] == 0
    ensures Holds(b, p, count)
    ensures p + |count + name + zeros| <= |b|
    ensures CString(b, p + |count|, p + |count + name + zeros|) == name
  {
    HoldsParts(b, p, count + name, zeros);
    HoldsParts(b, p, count, name);
    var q := p + |count + name|;
    assert b[q] == b[q..q + |zeros|][0];
    CStringReadsBack(b, p + |count|, q + |zeros|, name);
  }

  lemma NameReadsBack(b: Bytes, at: nat, name: Bytes)
    requires |name| < 0x1_0000 && 0 !in name
    requires Holds(b, at + HEADER_LEN, EncodeName(true, name))
    ensures HasNameHeader(b, at) && NameLen(b, at) == |name|
    ensures at + HEADER_LEN + HdrLen(|name|) <= |b|
    ensures CString(b, at + HEADER_LEN + NAME_HEADER_LEN, at + HEADER_LEN + HdrLen(|name|)) == name
  {
    var n := |name|;
    var count, zeros: Bytes := [n / 0x100 % 256, n % 256], Zeros(HdrLen(n) - NAME_HEADER_LEN - n);
    NamePartsReadBack(b, at + HEADER_LEN, count, name, zeros);
    CountReadsBack(b, at, n);
  }

  lemma HoldsFourParts(b: Bytes, at: nat, w: Bytes, x: Bytes, y: Bytes, z: Bytes)
    requires Holds(b, at, w + x + y + z)
    ensures Holds(b, at, w) && Holds(b, at + |w|, x) && Holds(b, at + |w| + |x|, y)
  {
    HoldsParts(b, at, w + x + y, z);
    HoldsParts(b, at, w + x, y);
    HoldsParts(b, at, w, x);
  }

  lemma FrameParts(b: Bytes, at: nat, fr: Frame)
    requires Holds(b, at, EncodeFrame(fr))
    ensures Holds(b, at, Header(fr.named, fr.id, RawSize(fr)))
    ensures Holds(b, at + HEADER_LEN, EncodeName(fr.named, fr.name))
    ensures Holds(b, at + HEADER_LEN + |EncodeName(fr.named, fr.name)|, fr.data)
  {
    var header, name := Header(fr.named, fr.id, RawSize(fr)), EncodeName(fr.named, fr.name);
    var zeros := Zeros(Pad4(RawSize(fr)) - RawSize(fr));
    assert EncodeFrame(fr) == header + name + fr.data + zeros;
    HoldsFourParts(b, at, header, name, fr.data, zeros);
  }

  lemma DataStartReadsBack(b: Bytes, at: nat, fr: Frame)
    requires Fits(fr) && at + HEADER_LEN <= |b| && Extended(b, at) == fr.named
    requires Holds(b, at + HEADER_LEN, EncodeName(fr.named, fr.name))
    ensures fr.named ==> HasNameHeader(b, at)
    ensures DataStart(b, at) == at + HEADER_LEN + |EncodeName(fr.named, fr.name)| <= |b|
    ensures fr.named ==> CString(b, at + HEADER_LEN + NAME_HEADER_LEN, DataStart(b, at)) == fr.name
  {
    if fr.named {
      NameReadsBack(b, at, fr.name);
    }
  }

  /** The accessors see the length, the data and the name that were laid out. */
  lemma FrameReadsBack(b: Bytes, at: nat, fr: Frame) returns (data: nat, end: nat)
    requires Fits(fr) && Holds(b, at, EncodeFrame(fr))
    ensures PadLen(b, at) == |EncodeFrame(fr)|
    ensures Extended(b, at) == fr.named && Id(b, at) == fr.id && Intact(b, at)
    ensures data == DataStart(b, at) <= end == data + DataLen(b, at) <= |b|
    ensures b[data..end] == fr.data
    ensures fr.named ==> CString(b, at + HEADER_LEN + NAME_HEADER_LEN, data) == fr.name
  {
    FrameParts(b, at, fr);
    HeaderReadsBack(b, at, fr.named, fr.id, RawSize(fr));
    DataStartReadsBack(b, at, fr);
    data, end := at + HEADER_LEN + |EncodeName(fr.named, fr.name)|, at + RawSize(fr);
  }

  /** `m` bytes of data are the body `body`. */
  ghost predicate Contains(b: Bytes, at: nat, m: nat, body: Body) {
    && at + m <= |b|
    && match body
       case Leaf(payload) => b[at..at + m] == payload
       case Nest(fields) => DecodeFields(b, at, at + m) == fields
       case Broken => false
  }

  lemma AssembleField(b: Bytes, at: nat, data: nat, end: nat, f: Field)
    requires at + HEADER_LEN <= |b| && Intact(b, at)
    requires Extended(b, at) == f.named && Id(b, at) == f.id && (IsContainer(f.id) <==> f.body.Nest?)
    requires data == DataStart(b, at) <= end == data + DataLen(b, at) && Contains(b, data, end - data, f.body)
    requires if f.named then CString(b, at + HEADER_LEN + NAME_HEADER_LEN, data) == f.name else f.name == []
    ensures DecodeField(b, at) == f
  {
  }

  lemma PrependField(b: Bytes, at: nat, mid: nat, stop: nat, f: Field, rest: seq<Field>)
    requires at + HEADER_LEN <= mid <= stop <= |b|
    requires at + PadLen(b, at) == mid && DecodeField(b, at) == f
    requires DecodeFields(b, mid, stop) == rest
    ensures DecodeFields(b, at, stop) == [f] + rest
  {
  }

  lemma {:induction false} FieldReadsBack(b: Bytes, at: nat, f: Field)
    requires WellFormed(f) && Holds(b, at, EncodeField(f))
    ensures PadLen(b, at) == |EncodeField(f)|
    ensures DecodeField(b, at) == f
    decreases f, 1
  {
    var data, end := FrameReadsBack(b, at, ToFrame(f));
    assert b[data..end] == EncodeBody(f.body);
    if f.body.Nest? {
      FieldsReadBack(b, data, end, f.body.fields);
    }
    AssembleField(b, at, data, end, f);
  }

  lemma {:induction false} FieldsReadBack(b: Bytes, at: nat, stop: nat, fs: seq<Field>)
    requires at <= stop <= |b| && b[at..stop] == EncodeFields(fs)
    requires AllWellFormed(fs)
    ensures DecodeFields(b, at, stop) == fs
    decreases fs, 0
  {
    if fs != [] {
      var f, rest := fs[0], fs[1..];
      var mid := at + |EncodeField(f)|;
      SplitFirst(b, at, stop, fs);
      FieldReadsBack(b, at, f);
      FieldsReadBack(b, mid, stop, rest);
      PrependField(b, at, mid, stop, f, rest);
    }
  }

  lemma SplitFirst(b: Bytes, at: nat, stop: nat, fs: seq<Field>)
    requires fs != [] && at <= stop <= |b| && b[at..stop] == EncodeFields(fs)
    ensures Holds(b, at, EncodeField(fs[0]))
    ensures
      var mid := at + |EncodeField(fs[0])|;
      at + HEADER_LEN <= mid <= stop && b[mid..stop] == EncodeFields(fs[1..])
    ensures fs == [fs[0]] + fs[1..]
  {
    HoldsParts(b, at, EncodeField(fs[0]), EncodeFields(fs[1..]));
  }

  /** Laying a message out and walking it again gives back exactly the same tree. */
  lemma MessageRoundTrip(fs: seq<Field>)
    requires AllWellFormed(fs)
    ensures DecodeFields(EncodeFields(fs), 0, |EncodeFields(fs)|) == fs
  {
    var b := EncodeFields(fs);
    assert b[0..|b|] == b;
    FieldsReadBack(b, 0, |b|, fs);
  }

  /** Different well-formed messages have different bytes. */
  lemma EncodingIsInjective(fs: seq<Field>, gs: seq<Field>)
    requires AllWellFormed(fs) && AllWellFormed(gs)
    requires EncodeFields(fs) == EncodeFields(gs)
    ensures fs == gs
  {
    MessageRoundTrip(fs);
    MessageRoundTrip(gs);
  }

  // The format in numbers, apart from the functions above

  /**
   What an intact attribute is read as: bit 7 of its first byte says whether it is named, the
   others are its id, 1 and 2 are containers, and a name takes two length bytes, its own bytes
   and a NUL, rounded up to a multiple of four.
   */
  lemma AttributeByNumbers(b: Bytes, at: nat)
    requires at + 4 <= |b| && Intact(b, at)
    ensures
      var f, end := DecodeField(b, at), at + 0x1_0000 * (b[at + 1] as int) + 0x100 * (b[at + 2] as int) + b[at + 3] as int;
      var data := at + 4 + if b[at] < 128 then 0 else (0x100 * (b[at + 4] as int) + b[at + 5] as int + 6) / 4 * 4;
      && data <= end <= |b| && (f.named <==> b[at] >= 128) && f.id == b[at] % 128
      && f.body == if b[at] % 128 == 1 || b[at] % 128 == 2 then Nest(DecodeFields(b, data, end)) else Leaf(b[data..end])
  {
  }

  /** A string "hi" named "c", and an unnamed number. */
  const SAMPLE_STRING: Bytes := [131, 0, 0, 10] + [0, 1, 99, 0] + [104, 105] + [0, 0]
  const SAMPLE_NUMBER: Bytes := [5, 0, 0, 8] + [0, 0, 0, 7]

  /** Both in a table named "ab". */
  const SAMPLE_BYTES: Bytes := [130, 0, 0, 32] + [0, 2, 97, 98, 0, 0, 0, 0] + (SAMPLE_STRING + SAMPLE_NUMBER)

  const SAMPLE_MEMBERS: seq<Field> := [Field(true, 3, [99], Leaf([104, 105])), Field(false, 5, [], Leaf([0, 0, 0, 7]))]
  const SAMPLE: seq<Field> := [Field(true, 2, [97, 98], Nest(SAMPLE_MEMBERS))]

  lemma SampleString()
    ensures EncodeField(SAMPLE_MEMBERS[0]) == SAMPLE_STRING
  {
    assert EncodeName(true, [99]) == [0, 1, 99, 0];
    assert Header(true, 3, 10) == [131, 0, 0, 10] && Zeros(2) == [0, 0];
  }

  lemma SampleNumber()
    ensures EncodeField(SAMPLE_MEMBERS[1]) == SAMPLE_NUMBER
  {
    assert Header(false, 5, 8) == [5, 0, 0, 8] && Zeros(0) == [];
  }

  lemma SampleMembers()
    ensures EncodeFields(SAMPLE_MEMBERS) == SAMPLE_STRING + SAMPLE_NUMBER
  {
    SampleString();
    SampleNumber();
    var g := SAMPLE_MEMBERS[1];
    assert SAMPLE_MEMBERS[1..] == [g] && [g][1..] == [];
    assert EncodeFields([g]) == EncodeField(g) + EncodeFields([]);
  }

  lemma SampleName()
    ensures EncodeName(true, [97, 98]) == [0, 2, 97, 98, 0, 0, 0, 0]
  {
  }

  lemma SampleFrame(data: Bytes)
    requires |data| == 20
    ensures EncodeFrame(Frame(true, 2, [97, 98], data)) == [130, 0, 0, 32] + [0, 2, 97, 98, 0, 0, 0, 0] + data
  {
    SampleName();
    assert Zeros(0) == [] && Header(true, 2, 32) == [130, 0, 0, 32];
  }

  lemma SampleEncodes()
    ensures EncodeFields(SAMPLE) == SAMPLE_BYTES
  {
    SampleMembers();
    SampleFrame(EncodeFields(SAMPLE_MEMBERS));
    assert SAMPLE[1..] == [];
    assert EncodeFields(SAMPLE) == EncodeField(SAMPLE[0]) + EncodeFields([]);
  }

  lemma SampleIsWellFormed()
    ensures AllWellFormed(SAMPLE)
  {
    SampleMembers();
    assert WellFormed(SAMPLE_MEMBERS[0]) && WellFormed(SAMPLE_MEMBERS[1]);
    assert AllWellFormed(SAMPLE_MEMBERS);
  }

  /** The sample is laid out as these bytes, and these bytes are read as the sample. */
  lemma SampleLayout()
    ensures EncodeFields(SAMPLE) == SAMPLE_BYTES
    ensures DecodeFields(SAMPLE_BYTES, 0, 32) == SAMPLE
  {
    SampleEncodes();
    SampleIsWellFormed();
    MessageRoundTrip(SAMPLE);
  }

  // Copying an attribute, blobmsg_add_blob

  /** `n` bytes at `at` in `b` and at `p` in `c` agree. */
  ghost predicate SameBytes(b: Bytes, at: nat, c: Bytes, p: nat, n: nat) {
    && at + n <= |b| && p + n <= |c|
    && forall i :: at <= i < at + n ==> b[i] == c[i + (p - at)]
  }

  lemma SameSlice(b: Bytes, at: nat, c: Bytes, p: nat, n: nat)
    requires SameBytes(b, at, c, p, n)
    ensures b[at..at + n] == c[p..p + n]
  {
  }

  lemma SameSlices(b: Bytes, at: nat, c: Bytes, p: nat, n: nat)
    requires at + n <= |b| && p + n <= |c| && b[at..at + n] == c[p..p + n]
    ensures SameBytes(b, at, c, p, n)
  {
    forall i | at <= i < at + n
      ensures b[i] == c[i + (p - at)]
    {
      assert b[i] == b[at..at + n][i - at] == c[p..p + n][i - at];
    }
  }

  lemma {:induction false} SameCString(b: Bytes, at: nat, c: Bytes, p: nat, n: nat)
    requires SameBytes(b, at, c, p, n)
    ensures CString(b, at, at + n) == CString(c, p, p + n)
    decreases n
  {
    if n > 0 {
      SameCString(b, at + 1, c, p + 1, n - 1);
    }
  }

  lemma SameFrame(b: Bytes, at: nat, c: Bytes, p: nat, n: nat)
    requires SameBytes(b, at, c, p, n) && HEADER_LEN <= n && RawLen(b, at) <= n
    ensures Extended(b, at) == Extended(c, p) && Id(b, at) == Id(c, p) && RawLen(b, at) == RawLen(c, p)
    ensures Intact(b, at) <==> Intact(c, p)
    ensures Intact(b, at) ==> DataStart(b, at) - at == DataStart(c, p) - p && DataLen(b, at) == DataLen(c, p)
  {
  }

  /** The parts `AssembleField` needs, taken from a field that was read. */
  lemma FieldParts(b: Bytes, at: nat, data: nat, end: nat) returns (f: Field)
    requires at + HEADER_LEN <= |b| && Intact(b, at)
    requires data == DataStart(b, at) && end == data + DataLen(b, at)
    ensures f == DecodeField(b, at)
    ensures Extended(b, at) == f.named && Id(b, at) == f.id && (IsContainer(f.id) <==> f.body.Nest?)
    ensures data <= end <= |b| && Contains(b, data, end - data, f.body)
    ensures if f.named then CString(b, at + HEADER_LEN + NAME_HEADER_LEN, data) == f.name else f.name == []
  {
    f := DecodeField(b, at);
  }

  lemma SubBytes(b: Bytes, at: nat, c: Bytes, p: nat, n: nat, i: nat, m: nat)
    requires SameBytes(b, at, c, p, n) && i + m <= n
    ensures SameBytes(b, at + i, c, p + i, m)
  {
  }

  /** Where the data of two equal attributes lies. */
  lemma SameDataRange(b: Bytes, at: nat, c: Bytes, p: nat, n: nat) returns (i: nat, m: nat)
    requires SameBytes(b, at, c, p, n) && HEADER_LEN <= n && RawLen(b, at) <= n && Intact(b, at)
    ensures Intact(c, p) && HEADER_LEN <= i && i + m <= n
    ensures DataStart(b, at) == at + i && DataStart(c, p) == p + i
    ensures DataLen(b, at) == m && DataLen(c, p) == m
    ensures Extended(b, at) ==> HEADER_LEN + NAME_HEADER_LEN <= i
  {
    SameFrame(b, at, c, p, n);
    i, m := DataStart(b, at) - at, DataLen(b, at);
  }

  lemma SameName(b: Bytes, at: nat, c: Bytes, p: nat, n: nat, i: nat)
    requires SameBytes(b, at, c, p, n) && HEADER_LEN + NAME_HEADER_LEN <= i <= n
    ensures CString(b, at + HEADER_LEN + NAME_HEADER_LEN, at + i) == CString(c, p + HEADER_LEN + NAME_HEADER_LEN, p + i)
  {
    var j := HEADER_LEN + NAME_HEADER_LEN;
    SubBytes(b, at, c, p, n, j, i - j);
    SameCString(b, at + j, c, p + j, i - j);
  }

  lemma {:induction false} SameBody(b: Bytes, at: nat, c: Bytes, p: nat, m: nat, id: nat)
    requires SameBytes(b, at, c, p, m)
    ensures DecodeBody(b, id, at, at + m) == DecodeBody(c, id, p, p + m)
    decreases m, 2
  {
    SameSlice(b, at, c, p, m);
    SameFields(b, at, c, p, m);
  }

  lemma {:induction false} SameField(b: Bytes, at: nat, c: Bytes, p: nat, n: nat)
    requires SameBytes(b, at, c, p, n) && HEADER_LEN <= n && RawLen(b, at) <= n
    ensures DecodeField(b, at) == DecodeField(c, p)
    decreases n, 0
  {
    SameFrame(b, at, c, p, n);
    if Intact(b, at) {
      var i, m := SameDataRange(b, at, c, p, n);
      SubBytes(b, at, c, p, n, i, m);
      SameBody(b, at + i, c, p + i, m, Id(b, at));
      if Extended(b, at) {
        SameName(b, at, c, p, n, i);
      }
    }
  }

  lemma SameExtent(b: Bytes, at: nat, c: Bytes, p: nat, n: nat)
    requires SameBytes(b, at, c, p, n)
    ensures Continues(b, at, at + n) <==> Continues(c, p, p + n)
    ensures Continues(b, at, at + n) ==> PadLen(b, at) == PadLen(c, p) && RawLen(b, at) <= n
  {
  }

  lemma SamePrepended(b: Bytes, at: nat, c: Bytes, p: nat, n: nat, k: nat)
    requires HEADER_LEN <= k <= n && at + n <= |b| && p + n <= |c|
    requires PadLen(b, at) == k && PadLen(c, p) == k && DecodeField(b, at) == DecodeField(c, p)
    requires DecodeFields(b, at + k, at + n) == DecodeFields(c, p + k, p + n)
    ensures DecodeFields(b, at, at + n) == DecodeFields(c, p, p + n)
  {
    var f, rest := DecodeField(c, p), DecodeFields(c, p + k, p + n);
    PrependField(b, at, at + k, at + n, f, rest);
    PrependField(c, p, p + k, p + n, f, rest);
  }

  lemma NoFields(b: Bytes, at: nat, stop: nat)
    requires at <= stop <= |b| && !Continues(b, at, stop)
    ensures DecodeFields(b, at, stop) == []
  {
  }

  /** What a run of attributes means depends on its bytes, not on where they are. */
  lemma {:induction false} SameFields(b: Bytes, at: nat, c: Bytes, p: nat, n: nat)
    requires SameBytes(b, at, c, p, n)
    ensures DecodeFields(b, at, at + n) == DecodeFields(c, p, p + n)
    decreases n, 1
  {
    SameExtent(b, at, c, p, n);
    if Continues(b, at, at + n) {
      var k := PadLen(b, at);
      SameField(b, at, c, p, n);
      SameFields(b, at + k, c, p + k, n - k);
      SamePrepended(b, at, c, p, n, k);
    } else {
      NoFields(b, at, at + n);
      NoFields(c, p, p + n);
    }
  }

  /** What blobmsg_add_blob passes on: type, name and data of the attribute. */
  function CopyOf(b: Bytes, at: nat): (fr: Frame)
    requires at + HEADER_LEN <= |b| && Intact(b, at) && Extended(b, at)
  {
    var data := DataStart(b, at);
    Frame(true, Id(b, at), CString(b, at + HEADER_LEN + NAME_HEADER_LEN, data), b[data..data + DataLen(b, at)])
  }

  lemma {:induction false} CStringHasNoNul(b: Bytes, at: nat, stop: nat)
    requires at <= stop <= |b|
    ensures 0 !in CString(b, at, stop)
    decreases stop - at
  {
    if at < stop && b[at] != 0 {
      CStringHasNoNul(b, at + 1, stop);
    }
  }

  /** A NUL ends the name in front of the data, be it in the padding. */
  predicate Terminated(b: Bytes, at: nat)
    requires at + HEADER_LEN <= |b| && Intact(b, at) && Extended(b, at)
  {
    0 in b[at + HEADER_LEN + NAME_HEADER_LEN..DataStart(b, at)]
  }

  lemma {:induction false} TerminatedCString(b: Bytes, at: nat, stop: nat)
    requires at <= stop <= |b| && 0 in b[at..stop]
    ensures |CString(b, at, stop)| < stop - at
    decreases stop - at
  {
    if b[at] != 0 {
      assert b[at..stop] == [b[at]] + b[at + 1..stop];
      TerminatedCString(b, at + 1, stop);
    }
  }

  lemma HdrLenOfName(name: nat, nameLen: nat)
    requires NAME_HEADER_LEN + name < HdrLen(nameLen)
    ensures HdrLen(name) <= HdrLen(nameLen)
  {
  }

  /** The copy fits a header again exactly when the length of its name fits two bytes. */
  lemma CopyFits(b: Bytes, at: nat)
    requires at + HEADER_LEN <= |b| && Intact(b, at) && Extended(b, at) && Terminated(b, at)
    ensures Fits(CopyOf(b, at)) <==> |CopyOf(b, at).name| < 0x1_0000
    ensures RawSize(CopyOf(b, at)) <= RawLen(b, at)
  {
    var start := at + HEADER_LEN + NAME_HEADER_LEN;
    CStringHasNoNul(b, start, DataStart(b, at));
    TerminatedCString(b, start, DataStart(b, at));
    HdrLenOfName(|CopyOf(b, at).name|, NameLen(b, at));
  }

  /** Data moved out of `b` into a frame of its own keeps its meaning. */
  lemma MovedFrameReadsAs(c: Bytes, q: nat, fr: Frame, b: Bytes, start: nat, stop: nat, f: Field)
    requires Fits(fr) && Holds(c, q, EncodeFrame(fr))
    requires fr.named == f.named && fr.id == f.id && fr.name == f.name && (IsContainer(f.id) <==> f.body.Nest?)
    requires start <= stop <= |b| && fr.data == b[start..stop] && Contains(b, start, stop - start, f.body)
    ensures DecodeField(c, q) == f
  {
    var data, end := FrameReadsBack(c, q, fr);
    MovedFields(c, data, end, b, start, stop);
    AssembleField(c, q, data, end, f);
  }

  lemma MovedFields(c: Bytes, data: nat, end: nat, b: Bytes, start: nat, stop: nat)
    requires data <= end <= |c| && start <= stop <= |b| && c[data..end] == b[start..stop]
    ensures DecodeFields(c, data, end) == DecodeFields(b, start, stop)
  {
    assert end - data == |c[data..end]| == |b[start..stop]| == stop - start;
    SameSlices(c, data, b, start, end - data);
    SameFields(c, data, b, start, end - data);
  }

  lemma CopyReadsSame(b: Bytes, at: nat)
    requires at + HEADER_LEN <= |b| && Intact(b, at) && Extended(b, at) && Fits(CopyOf(b, at))
    ensures DecodeField(EncodeFrame(CopyOf(b, at)), 0) == DecodeField(b, at)
  {
    var start, stop := DataStart(b, at), DataStart(b, at) + DataLen(b, at);
    var f := FieldParts(b, at, start, stop);
    var c := EncodeFrame(CopyOf(b, at));
    assert c[0..|c|] == c;
    MovedFrameReadsAs(c, 0, CopyOf(b, at), b, start, stop, f);
  }

  /** A name of 2^16 bytes or a few more is announced as a name of a few bytes. */
  lemma LongNameIsLost(fr: Frame)
    requires fr.named && 0x1_0000 <= |fr.name| < 0x1_0004
    ensures |DecodeField(EncodeFrame(fr), 0).name| < 0x1_0000
  {
    var c := EncodeFrame(fr);
    assert c[4] == |fr.name| / 0x100 % 256 && c[5] == |fr.name| % 256;
    if Intact(c, 0) && Extended(c, 0) {
      assert NameLen(c, 0) < 4;
      CStringLength(c, HEADER_LEN + NAME_HEADER_LEN, DataStart(c, 0));
    }
  }

  lemma {:induction false} CStringLength(b: Bytes, at: nat, stop: nat)
    requires at <= stop <= |b|
    ensures |CString(b, at, stop)| <= stop - at
    decreases stop - at
  {
    if at < stop && b[at] != 0 {
      CStringLength(b, at + 1, stop);
    }
  }

  /**
   An intact attribute whose name ends in front of its data, nested or not and whoever wrote
   it, reads the same after being copied into another message exactly when the length of its
   name fits the two bytes for it; a name that ends in the padding can be longer than announced.
   */
  lemma CopyPreservesMeaning(b: Bytes, at: nat)
    requires at + HEADER_LEN <= |b| && Intact(b, at) && Extended(b, at) && Terminated(b, at)
    ensures DecodeField(EncodeFrame(CopyOf(b, at)), 0) == DecodeField(b, at) <==>
            |CopyOf(b, at).name| < 0x1_0000
  {
    CopyFits(b, at);
    if |CopyOf(b, at).name| < 0x1_0000 {
      CopyReadsSame(b, at);
    } else {
      TerminatedCString(b, at + HEADER_LEN + NAME_HEADER_LEN, DataStart(b, at));
      assert |DecodeField(b, at).name| == |CopyOf(b, at).name| < 0x1_0004;
      LongNameIsLost(CopyOf(b, at));
    }
  }

  lemma {:induction false} CStringOfRun(b: Bytes, at: nat, n: nat, stop: nat)
    requires at + n < stop <= |b| && b[at + n] == 0 && forall i :: at <= i < at + n ==> b[i] != 0
    ensures |CString(b, at, stop)| == n
    decreases n
  {
    if n > 0 {
      CStringOfRun(b, at + 1, n - 1, stop);
    }
  }

  /** A name of 2^16 bytes in the name header of one announced as a byte shorter. */
  function LongNamed(): (b: Bytes) {
    Header(true, 3, 0x1_0008) + ([255, 255] + seq(0x1_0000, _ => 97) + [0, 0])
  }

  lemma LongNameWitness()
    ensures
      var b := LongNamed();
      && HEADER_LEN <= |b| && Intact(b, 0) && Extended(b, 0) && Terminated(b, 0)
      && DecodeField(EncodeFrame(CopyOf(b, 0)), 0) != DecodeField(b, 0)
  {
    var b := LongNamed();
    assert RawLen(b, 0) == |b| == 0x1_0008 && NameLen(b, 0) == 0xffff && DataStart(b, 0) == |b|;
    CStringOfRun(b, 6, 0x1_0000, |b|);
    assert b[6..|b|][0x1_0000] == 0;
    CopyPreservesMeaning(b, 0);
  }

  // The readers as loops

  method ReadName(b: Bytes, at: nat, stop: nat) returns (s: Bytes)
    requires at <= stop <= |b|
    ensures s == CString(b, at, stop)
  {
    var p := at;
    s := [];
    while p < stop && b[p] != 0
      invariant at <= p <= stop
      invariant s + CString(b, p, stop) == CString(b, at, stop)
    {
      s := s + [b[p]];
      p := p + 1;
    }
  }

  method ReadField(b: Bytes, at: nat) returns (f: Field)
    requires at + HEADER_LEN <= |b|
    ensures f == DecodeField(b, at)
    decreases RawLen(b, at), 0
  {
    if !Intact(b, at) {
      return Field(Extended(b, at), Id(b, at), [], Broken);
    }
    var data := DataStart(b, at);
    var name: Bytes := [];
    if Extended(b, at) {
      name := ReadName(b, at + HEADER_LEN + NAME_HEADER_LEN, data);
    }
    var body;
    if IsContainer(Id(b, at)) {
      var fields := ReadFields(b, data, DataLen(b, at));
      body := Nest(fields);
    } else {
      body := Leaf(b[data..data + DataLen(b, at)]);
    }
    f := Field(Extended(b, at), Id(b, at), name, body);
  }

  /** blobmsg_for_each_attr with a body that reads each attribute, containers recursively. */
  method ReadFields(b: Bytes, start: nat, len: nat) returns (fs: seq<Field>)
    requires start + len <= |b|
    ensures fs == DecodeFields(b, start, start + len)
    decreases len, 1
  {
    var pos: nat, rem: nat := start, len;
    fs := [];
    ghost var stop := start + len;
    while rem >= HEADER_LEN && PadLen(b, pos) <= rem && PadLen(b, pos) >= HEADER_LEN
      invariant pos + rem == stop && rem <= len
      invariant fs + DecodeFields(b, pos, stop) == DecodeFields(b, start, stop)
      decreases rem
    {
      var f := ReadField(b, pos);
      assert DecodeFields(b, pos, stop) == [f] + DecodeFields(b, pos + PadLen(b, pos), stop);
      fs := fs + [f];
      rem, pos := rem - PadLen(b, pos), pos + PadLen(b, pos);
    }
  }
}
