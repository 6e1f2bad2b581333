/** What src/messages/data_messages.c does over every run, spills included: which fields a reader still
    reaches, field by field, with no condition on what the fields were copied from. */
module SpillRuns {
  import opened Bytes
  import opened Records
  import opened DataMessages
  import opened MessageRuns

  datatype RawSlot = Slot(code: byte, payload: bytes, term: byte)

  /** A field as it lies in the buffer; its terminator may have been spilled on. */
  type Slot = s: RawSlot | |s.payload| < 256 witness RawSlot.Slot(0, [], 0)

  function EncodeSlot(s: Slot): (e: bytes)
    ensures |e| == 3 + |s.payload|
  {
    [|s.payload|, s.code] + s.payload + [s.term]
  }

  /** Where the i-th field starts. */
  function StartsAt(slots: seq<Slot>, i: nat): (at: nat)
    requires i <= |slots|
    ensures at >= DATA_HEADER_SIZE
  {
    if i == 0 then DATA_HEADER_SIZE else StartsAt(slots, i - 1) + 3 + |slots[i - 1].payload|
  }

  lemma {:induction false} StartsAtPrefix(slots: seq<Slot>, more: seq<Slot>, i: nat)
    requires slots <= more && i <= |slots|
    ensures StartsAt(slots, i) == StartsAt(more, i)
  {
    if i > 0 {
      StartsAtPrefix(slots, more, i - 1);
    }
  }

  lemma {:induction false} StartsAtMonotone(slots: seq<Slot>, i: nat, j: nat)
    requires i <= j <= |slots|
    ensures StartsAt(slots, i) <= StartsAt(slots, j)
  {
    if i < j {
      StartsAtMonotone(slots, i, j - 1);
    }
  }

  ghost predicate SlotAt(wire: bytes, slots: seq<Slot>, i: nat)
    requires i < |slots|
  {
    Holds(wire, StartsAt(slots, i), EncodeSlot(slots[i]))
  }

  /** The invariant of every buffer whatsoever: its fields lie one behind the other, and the header never
      announces more of them than there are. */
  ghost predicate LaidOut(b: Buffer, slots: seq<Slot>) {
    && b.Valid()
    && b.byteLength == StartsAt(slots, |slots|) < |b.data|
    && b.fields == |slots| % 0x1_0000
    && FieldCount(b.data) <= |slots|
    && forall i :: 0 <= i < |slots| ==> SlotAt(b.data, slots, i)
  }

  /** What an accepted append leaves where its field is: what it copied, and what it did not overwrite. */
  function Written(b: Buffer, src: Pointer, n: byte, code: byte): (s: Slot)
    requires b.Valid() && HasRoom(b, src, n, code) && Accepts(b, src, n)
  {
    var data := Serialized(b, src, n, code).data;
    RawSlot.Slot(code, data[b.byteLength + 2..b.byteLength + 2 + n], data[b.byteLength + 2 + n])
  }

  /** The field and its terminator in terms of what was copied: a copy of exactly the declared size ends in
      a zero, a longer one leaves its own next byte there, a shorter one what was there before. */
  lemma WrittenIs(b: Buffer, src: Pointer, n: byte, code: byte)
    requires b.Valid() && HasRoom(b, src, n, code) && Accepts(b, src, n)
    ensures var e, s := WriteExtent(b, src.mem, n, code), Written(b, src, n, code);
            && s.term == (if e == n then 0 else if e > n then src.mem[n] else b.data[b.byteLength + 2 + n])
            && (e >= n ==> s.payload == src.mem[..n])
            && (e < n ==> src.mem[..e] <= s.payload)
  {
    WrittenBytes(b.data, b.byteLength, n, code, src.mem, WriteExtent(b, src.mem, n, code));
  }

  lemma WrittenBytes(was: bytes, at: nat, n: byte, code: byte, src: bytes, e: nat)
    requires e <= |src| && at + 3 + e <= |was| && at + 3 + n <= |was|
    ensures var data := Splice(was, at, [n, code] + src[..e] + [0]);
            var payload := data[at + 2..at + 2 + n];
            && data[at + 2 + n] == (if e == n then 0 else if e > n then src[n] else was[at + 2 + n])
            && (e >= n ==> payload == src[..n])
            && (e < n ==> src[..e] <= payload)
  {
    var added := [n, code] + src[..e] + [0];
    var data := Splice(was, at, added);
    assert forall j :: 0 <= j < e ==> added[2 + j] == src[j];
    assert added[2 + e] == 0;
    var payload := data[at + 2..at + 2 + n];
    assert forall j :: 0 <= j < n && j < e ==> payload[j] == data[at + (2 + j)] == src[j];
  }

  function SlotsAfter(b: Buffer, slots: seq<Slot>, op: Op): (r: seq<Slot>)
    requires RoomFor(b, op)
    ensures slots <= r
  {
    if op.Append? && Accepts(b, op.src, op.n) then slots + [Written(b, op.src, op.n, op.code)] else slots
  }

  function SlotRun(b: Buffer, slots: seq<Slot>, ops: seq<Op>): (r: seq<Slot>)
    requires Runnable(b, ops)
    ensures slots <= r
    decreases |ops|
  {
    if ops == [] then slots else SlotRun(Apply(b, ops[0]), SlotsAfter(b, slots, ops[0]), ops[1..])
  }

  lemma CreatedLaidOut(size: nat)
    requires DATA_HEADER_SIZE < size < 0x8000_0000
    ensures LaidOut(Created(size), [])
  {
    HeaderLoads(Buffer(PROTOCOL_VERSION, DATA_PACKET, 0, 0, DATA_HEADER_SIZE, 0, Zeros(size)));
  }

  lemma PublishLaidOut(b: Buffer, slots: seq<Slot>)
    requires LaidOut(b, slots)
    ensures LaidOut(Published(b), slots)
  {
    HeaderLoads(b);
    forall i | 0 <= i < |slots|
      ensures SlotAt(Published(b).data, slots, i)
    {
      assert SlotAt(b.data, slots, i);
    }
  }

  lemma AppendLaidOut(b: Buffer, slots: seq<Slot>, src: Pointer, n: byte, code: byte)
    requires LaidOut(b, slots) && HasRoom(b, src, n, code) && Accepts(b, src, n)
    ensures LaidOut(Serialized(b, src, n, code), slots + [Written(b, src, n, code)])
  {
    var s := Written(b, src, n, code);
    var after, more := Serialized(b, src, n, code), slots + [s];
    StartsAtPrefix(slots, more, |slots|);
    assert |s.payload| == n;
    var added := [n, code] + src.mem[..WriteExtent(b, src.mem, n, code)] + [0];
    SpliceOutside(b.data, b.byteLength, added, FLDPOS, FLDPOS + 2);
    NewSlotHeld(b, src, n, code);
    forall i | 0 <= i < |slots|
      ensures SlotAt(after.data, more, i)
    {
      assert SlotAt(b.data, slots, i);
      StartsAtPrefix(slots, more, i);
      StartsAtMonotone(slots, i + 1, |slots|);
      HeldBelow(b.data, b.byteLength, added, StartsAt(slots, i), EncodeSlot(slots[i]));
    }
    assert SlotAt(after.data, more, |slots|);
  }

  lemma NewSlotHeld(b: Buffer, src: Pointer, n: byte, code: byte)
    requires b.Valid() && HasRoom(b, src, n, code) && Accepts(b, src, n)
    ensures Holds(Serialized(b, src, n, code).data, b.byteLength, EncodeSlot(Written(b, src, n, code)))
  {
    var data := Serialized(b, src, n, code).data;
    var added := [n, code] + src.mem[..WriteExtent(b, src.mem, n, code)] + [0];
    var at: nat := b.byteLength;
    assert data[at] == added[0] && data[at + 1] == added[1];
    InPlace(data, at, n, code);
  }

  lemma InPlace(data: bytes, at: nat, n: byte, code: byte)
    requires at + 3 + n <= |data| && data[at] == n && data[at + 1] == code
    ensures Holds(data, at, [n, code] + data[at + 2..at + 2 + n] + [data[at + 2 + n]])
  {
  }

  lemma StepLaidOut(b: Buffer, slots: seq<Slot>, op: Op)
    requires LaidOut(b, slots) && RoomFor(b, op)
    ensures LaidOut(Apply(b, op), SlotsAfter(b, slots, op))
  {
    match op
    case Publish => PublishLaidOut(b, slots);
    case Append(src, n, code) =>
      if Accepts(b, src, n) {
        AppendLaidOut(b, slots, src, n, code);
      }
  }

  lemma {:induction false} RunLaidOut(b: Buffer, slots: seq<Slot>, ops: seq<Op>)
    requires LaidOut(b, slots) && Runnable(b, ops)
    ensures LaidOut(Run(b, ops), SlotRun(b, slots, ops))
    decreases |ops|
  {
    if ops != [] {
      StepLaidOut(b, slots, ops[0]);
      RunLaidOut(Apply(b, ops[0]), SlotsAfter(b, slots, ops[0]), ops[1..]);
    }
  }

  // ---------------------------------------------------------------- what the reader reaches

  predicate Intact(slots: seq<Slot>, j: nat, k: nat)
    requires k <= |slots|
  {
    forall i :: j <= i < k ==> slots[i].term == 0
  }

  /** The walk reaches a field exactly when every terminator before it is intact. */
  lemma {:induction false} WalkSlots(wire: bytes, slots: seq<Slot>, j: nat, k: nat)
    requires j <= k < |slots| && forall i :: 0 <= i < |slots| ==> SlotAt(wire, slots, i)
    ensures Walk(wire, StartsAt(slots, j), k - j)
            == if Intact(slots, j, k) then Here(StartsAt(slots, k)) else BadTerminator
    decreases k - j
  {
    var s, at := slots[j], StartsAt(slots, j);
    assert SlotAt(wire, slots, j);
    var e := EncodeSlot(s);
    assert wire[at + 0] == e[0] && wire[at + (2 + |s.payload|)] == e[2 + |s.payload|];
    if j < k {
      WalkSlots(wire, slots, j + 1, k);
      assert StartsAt(slots, j + 1) == at + 3 + |s.payload|;
    }
  }

  /** The result for a field that lies in its place: found if every terminator before it is intact. */
  function Reached(wire: bytes, slots: seq<Slot>, dst: bytes, index: nat): Element
    requires index < |slots|
  {
    var s, at := slots[index], StartsAt(slots, index) + 2;
    if !Intact(slots, 0, index) then Ebadmsg
    else if at + Extent(s.code, dst, 0, wire, at, |s.payload|) <= |wire| then Found(|s.payload|, s.code, at)
    else Overrun
  }

  ghost predicate PayloadInPlace(wire: bytes, slots: seq<Slot>, index: nat)
    requires index < |slots|
  {
    Holds(wire, StartsAt(slots, index) + 2, slots[index].payload)
  }

  /** What get_data finds for a published index of any buffer. */
  lemma LaidOutLookup(b: Buffer, slots: seq<Slot>, dst: bytes, index: nat, maxFields: nat)
    requires LaidOut(b, slots) && index < FieldCount(b.data) < maxFields
    ensures Lookup(b.data, dst, index, maxFields) == Reached(b.data, slots, dst, index)
    ensures PayloadInPlace(b.data, slots, index)
  {
    WalkSlots(b.data, slots, 0, index);
    assert SlotAt(b.data, slots, index);
    var s, at := slots[index], StartsAt(slots, index);
    var e := EncodeSlot(s);
    assert b.data[at + 0] == e[0] && b.data[at + 1] == e[1];
    HoldsThree(b.data, at, [|s.payload|, s.code], s.payload, [s.term]);
  }

  /** Over every run from create_buffer, spills and all: a published field is found in its place, with its
      size, type and bytes, if every terminator before it is intact, and is a bad message otherwise. */
  lemma AnyRunLookup(size: nat, ops: seq<Op>, dst: bytes, index: nat, maxFields: nat)
    requires DATA_HEADER_SIZE < size < 0x8000_0000 && Runnable(Created(size), ops)
    requires index < FieldCount(Run(Created(size), ops).data) < maxFields
    ensures var slots, wire := SlotRun(Created(size), [], ops), Run(Created(size), ops).data;
            && index < |slots| && PayloadInPlace(wire, slots, index)
            && Lookup(wire, dst, index, maxFields) == Reached(wire, slots, dst, index)
  {
    CreatedLaidOut(size);
    RunLaidOut(Created(size), [], ops);
    LaidOutLookup(Run(Created(size), ops), SlotRun(Created(size), [], ops), dst, index, maxFields);
  }

  // ---------------------------------------------------------------- after a spill

  /** A spill and whatever comes after it, appends and publishes in any order. If the byte that fell on the
      terminator is not zero, every later published field is a bad message. If it is zero, a later field is
      reached, in its place behind the declared size, exactly if the terminators between are intact; the same
      spill may have broken one of them, as SpillCauses shows. */
  lemma AfterSpill(b: Buffer, slots: seq<Slot>, src: Pointer, n: byte, code: byte, ops: seq<Op>,
                   dst: bytes, k: nat, maxFields: nat)
    requires LaidOut(b, slots) && Intact(slots, 0, |slots|)
    requires HasRoom(b, src, n, code) && Accepts(b, src, n) && n < WriteExtent(b, src.mem, n, code)
    requires Runnable(Serialized(b, src, n, code), ops)
    requires |slots| < k < FieldCount(Run(Serialized(b, src, n, code), ops).data) < maxFields
    ensures var wire := Run(Serialized(b, src, n, code), ops).data;
            var all := SlotRun(Serialized(b, src, n, code), slots + [Written(b, src, n, code)], ops);
            && k < |all|
            && (src.mem[n] != 0 ==> Lookup(wire, dst, k, maxFields) == Ebadmsg)
            && (src.mem[n] == 0 ==>
                  && (Intact(all, 0, k) <==> Intact(all, |slots| + 1, k))
                  && Lookup(wire, dst, k, maxFields) == Reached(wire, all, dst, k))
  {
    var after, more := Serialized(b, src, n, code), slots + [Written(b, src, n, code)];
    WrittenIs(b, src, n, code);
    AppendLaidOut(b, slots, src, n, code);
    RunLaidOut(after, more, ops);
    LaidOutLookup(Run(after, ops), SlotRun(after, more, ops), dst, k, maxFields);
    IntactAround(slots, more, SlotRun(after, more, ops), k);
  }

  lemma IntactAround(slots: seq<Slot>, more: seq<Slot>, all: seq<Slot>, k: nat)
    requires Intact(slots, 0, |slots|) && |more| == |slots| + 1 && slots <= more <= all && |slots| < k <= |all|
    ensures Intact(all, 0, k) <==> more[|slots|].term == 0 && Intact(all, |slots| + 1, k)
  {
    assert forall i :: 0 <= i < |slots| ==> all[i] == slots[i];
    assert all[|slots|] == more[|slots|];
  }

  /** A framed buffer is laid out with every terminator intact. */
  lemma FramesLaidOut(b: Buffer, recs: seq<Record>)
    requires Frames(b, recs) && FieldCount(b.data) <= |recs|
    ensures var slots := AsSlots(recs); LaidOut(b, slots) && Intact(slots, 0, |slots|)
  {
    var slots := AsSlots(recs);
    SameStarts(recs, |recs|);
    assert recs[..|recs|] == recs;
    forall i | 0 <= i < |slots|
      ensures SlotAt(b.data, slots, i)
    {
      SameStarts(recs, i);
      WalkFinds(b.data, DATA_HEADER_SIZE, recs, i);
    }
  }

  function AsSlots(recs: seq<Record>): (slots: seq<Slot>)
    ensures |slots| == |recs|
  {
    seq(|recs|, i requires 0 <= i < |recs| => RawSlot.Slot(recs[i].code, recs[i].payload, 0))
  }

  lemma {:induction false} SameStarts(recs: seq<Record>, i: nat)
    requires i <= |recs|
    ensures StartsAt(AsSlots(recs), i) == DATA_HEADER_SIZE + StartOf(recs, i)
  {
    if i > 0 {
      SameStarts(recs, i - 1);
      SplitAround(recs, i - 1);
      EncodeSnoc(recs[..i - 1], recs[i - 1]);
    }
  }

  /** From create_buffer on: after any spill-free run, one append whose copy drops a nonzero byte on its own
      terminator, and any appends and publishes after that, get_data rejects every published field behind
      the spilled one. */
  lemma SpilledTerminator(size: nat, ops: seq<Op>, src: Pointer, n: byte, code: byte, later: seq<Op>,
                          dst: bytes, k: nat, maxFields: nat)
    requires DATA_HEADER_SIZE < size < 0x8000_0000 && Legal(Created(size), ops)
    requires var b := Run(Created(size), ops);
             && RoomFor(b, Append(src, n, code)) && Accepts(b, src, n)
             && Runnable(Serialized(b, src, n, code), later)
    requires n < CallerExtent(src.mem, n, code) <= |src.mem| && src.mem[n] != 0
    requires var wire := Run(Serialized(Run(Created(size), ops), src, n, code), later).data;
             |LogRun(size, Log([], 0), ops).recs| < k < FieldCount(wire) < maxFields
    ensures var wire := Run(Serialized(Run(Created(size), ops), src, n, code), later).data;
            Lookup(wire, dst, k, maxFields) == Ebadmsg
  {
    CreatedReflects(size);
    RunReflects(Created(size), Log([], 0), ops);
    FramedSpill(Run(Created(size), ops), LogRun(size, Log([], 0), ops), src, n, code, later, dst, k, maxFields);
  }

  lemma ReflectsLaidOut(b: Buffer, log: Log, src: bytes, n: byte, code: byte)
    requires Reflects(b, log)
    ensures LaidOut(b, AsSlots(log.recs)) && Intact(AsSlots(log.recs), 0, |log.recs|)
    ensures WriteExtent(b, src, n, code) == CallerExtent(src, n, code)
  {
    ExtentIsCallers(b, log.recs, src, n, code);
    FramesLaidOut(b, log.recs);
  }

  lemma FramedSpill(b: Buffer, log: Log, src: Pointer, n: byte, code: byte, later: seq<Op>,
                    dst: bytes, k: nat, maxFields: nat)
    requires Reflects(b, log)
    requires HasRoom(b, src, n, code) && Accepts(b, src, n) && Runnable(Serialized(b, src, n, code), later)
    requires n < CallerExtent(src.mem, n, code) <= |src.mem| && src.mem[n] != 0
    requires |log.recs| < k < FieldCount(Run(Serialized(b, src, n, code), later).data) < maxFields
    ensures Lookup(Run(Serialized(b, src, n, code), later).data, dst, k, maxFields) == Ebadmsg
  {
    ReflectsLaidOut(b, log, src.mem, n, code);
    AfterSpill(b, AsSlots(log.recs), src, n, code, later, dst, k, maxFields);
  }
}
