/** What the writer and the reader of data_messages.c promise together, over whole runs. */
module MessageRuns {
  import opened Bytes
  import opened Records
  import opened DataMessages

  // ---------------------------------------------------------------- the framing invariant

  /** The buffer holds exactly these records after its header, and nothing but zeros after them. */
  ghost predicate Frames(b: Buffer, recs: seq<Record>) {
    && b.Valid()
    && b.byteLength == DATA_HEADER_SIZE + |Encode(recs)| < |b.data|
    && b.fields == |recs| % 0x1_0000
    && b.data[12] == 0
    && Holds(b.data, DATA_HEADER_SIZE, Encode(recs))
    && forall i :: b.byteLength <= i < |b.data| ==> b.data[i] == 0
  }

  /** The field that an append means: a fixed-width type declared wider than it is gets zero padding. */
  function FieldOf(src: bytes, n: byte, code: byte): (r: Record)
    requires (if NativeWidth(code) == 0 then n else NativeWidth(code)) <= |src|
    ensures |r.payload| == n && r.code == code
  {
    var w := if NativeWidth(code) == 0 then n else NativeWidth(code);
    Rec(code, seq(n, j requires 0 <= j < n => if j < w then src[j] else 0))
  }

  /** Whatever the copy moves beyond the declared size is zero. */
  predicate NoSpill(src: bytes, n: nat, e: nat)
    requires e <= |src|
  {
    forall j :: n <= j < e ==> src[j] == 0
  }

  lemma CreatedFrames(size: nat)
    requires DATA_HEADER_SIZE < size < 0x8000_0000
    ensures Frames(Created(size), [])
  {
  }

  lemma PublishedFrames(b: Buffer, recs: seq<Record>)
    requires Frames(b, recs)
    ensures Frames(Published(b), recs)
  {
  }

  /** An append that spills nothing appends its record. */
  lemma AppendKeepsFrames(b: Buffer, recs: seq<Record>, src: Pointer, n: byte, code: byte)
    requires Frames(b, recs) && HasRoom(b, src, n, code) && Accepts(b, src, n)
    requires NoSpill(src.mem, n, WriteExtent(b, src.mem, n, code))
    ensures Frames(Serialized(b, src, n, code), recs + [FieldOf(src.mem, n, code)])
  {
    var after := Serialized(b, src, n, code);
    var r := FieldOf(src.mem, n, code);
    EncodeSnoc(recs, r);
    var added := [n, code] + src.mem[..WriteExtent(b, src.mem, n, code)] + [0];
    HeldBelow(b.data, b.byteLength, added, DATA_HEADER_SIZE, Encode(recs));
    RecordWritten(b, recs, src, n, code);
    HoldsConcat(after.data, DATA_HEADER_SIZE, Encode(recs), EncodeRecord(r));
  }

  lemma RecordWritten(b: Buffer, recs: seq<Record>, src: Pointer, n: byte, code: byte)
    requires Frames(b, recs) && HasRoom(b, src, n, code) && Accepts(b, src, n)
    requires NoSpill(src.mem, n, WriteExtent(b, src.mem, n, code))
    ensures Holds(Serialized(b, src, n, code).data, b.byteLength, EncodeRecord(FieldOf(src.mem, n, code)))
  {
    var e := WriteExtent(b, src.mem, n, code);
    var added := [n, code] + src.mem[..e] + [0];
    var data := Serialized(b, src, n, code).data;
    var want := EncodeRecord(FieldOf(src.mem, n, code));
    forall i | 0 <= i < |want|
      ensures data[b.byteLength + i] == want[i]
    {
      if i < |added| {
        assert data[b.byteLength + i] == added[i];
      } else {
        assert data[b.byteLength + i] == b.data[b.byteLength + i] == 0;
      }
    }
  }

  /** An append after which the buffer is framed spilled nothing. */
  lemma FramedSpillsNothing(b: Buffer, recs: seq<Record>, src: Pointer, n: byte, code: byte, r: Record)
    requires Frames(b, recs) && HasRoom(b, src, n, code) && Accepts(b, src, n)
    requires Frames(Serialized(b, src, n, code), recs + [r])
    ensures NoSpill(src.mem, n, WriteExtent(b, src.mem, n, code))
  {
    var e := WriteExtent(b, src.mem, n, code);
    var added := [n, code] + src.mem[..e] + [0];
    var data := Serialized(b, src, n, code).data;
    EncodeSnoc(recs, r);
    assert |r.payload| == n;
    HoldsConcat(data, DATA_HEADER_SIZE, Encode(recs), EncodeRecord(r));
    assert EncodeRecord(r)[2 + n] == 0;
    forall j | n <= j < e
      ensures src.mem[j] == 0
    {
      assert data[b.byteLength + (2 + j)] == added[2 + j] == src.mem[j];
    }
  }

  /** What the copy moves, from what the caller passes alone. */
  function CallerExtent(src: bytes, n: byte, code: byte): nat {
    if NativeWidth(code) != 0 then NativeWidth(code)
    else if SmallWord(src, 0) then WordExtent(n)
    else n
  }

  /** The destination half of the word test always passes: the tail of a framed buffer is zero. */
  lemma ExtentIsCallers(b: Buffer, recs: seq<Record>, src: bytes, n: byte, code: byte)
    requires Frames(b, recs)
    ensures WriteExtent(b, src, n, code) == CallerExtent(src, n, code)
  {
    assert SmallWord(b.data, b.byteLength + 2);
  }

  /** One append, exactly: the buffer is framed afterwards if and only if the bytes that the copy
      moves beyond the declared size are zero. */
  lemma AppendFramesIff(b: Buffer, recs: seq<Record>, src: Pointer, n: byte, code: byte)
    requires Frames(b, recs) && HasRoom(b, src, n, code) && Accepts(b, src, n)
    ensures CallerExtent(src.mem, n, code) <= |src.mem|
    ensures (exists r: Record :: Frames(Serialized(b, src, n, code), recs + [r]))
            <==> NoSpill(src.mem, n, CallerExtent(src.mem, n, code))
  {
    ExtentIsCallers(b, recs, src.mem, n, code);
    if NoSpill(src.mem, n, WriteExtent(b, src.mem, n, code)) {
      AppendKeepsFrames(b, recs, src, n, code);
    }
    if r: Record :| Frames(Serialized(b, src, n, code), recs + [r]) {
      FramedSpillsNothing(b, recs, src, n, code, r);
    }
  }

  // ---------------------------------------------------------------- reading

  /** The walk steps over one record. */
  lemma WalkOne(wire: bytes, pos: nat, r: Record, k: nat)
    requires Holds(wire, pos, EncodeRecord(r)) && k > 0
    ensures Walk(wire, pos, k) == Walk(wire, pos + 3 + |r.payload|, k - 1)
  {
    var e := EncodeRecord(r);
    assert wire[pos + 0] == e[0] && wire[pos + (2 + |r.payload|)] == e[2 + |r.payload|];
  }

  /** The walk steps over a list of records. */
  lemma {:induction false} WalkPast(wire: bytes, pos: nat, recs: seq<Record>, k: nat)
    requires Holds(wire, pos, Encode(recs)) && k >= |recs|
    ensures Walk(wire, pos, k) == Walk(wire, pos + |Encode(recs)|, k - |recs|)
    decreases |recs|
  {
    if recs != [] {
      HoldsConcat(wire, pos, EncodeRecord(recs[0]), Encode(recs[1..]));
      WalkOne(wire, pos, recs[0], k);
      WalkPast(wire, pos + 3 + |recs[0].payload|, recs[1..], k - 1);
    }
  }

  /** The walk by index lands on the record of that index, whatever follows the records. */
  lemma WalkFinds(wire: bytes, pos: nat, recs: seq<Record>, k: nat)
    requires Holds(wire, pos, Encode(recs)) && k < |recs|
    ensures Walk(wire, pos, k) == Here(pos + StartOf(recs, k))
    ensures Holds(wire, pos + StartOf(recs, k), EncodeRecord(recs[k]))
  {
    SplitAround(recs, k);
    HeldAround(wire, pos, recs[..k], recs[k], recs[k + 1..]);
    WalkTo(wire, pos, recs[..k], recs[k]);
  }

  lemma HeldAround(wire: bytes, pos: nat, a: seq<Record>, r: Record, z: seq<Record>)
    requires Holds(wire, pos, Encode(a + [r] + z))
    ensures Holds(wire, pos, Encode(a)) && Holds(wire, pos + |Encode(a)|, EncodeRecord(r))
  {
    EncodeAround(a, r, z);
    HoldsThree(wire, pos, Encode(a), EncodeRecord(r), Encode(z));
  }

  lemma WalkTo(wire: bytes, pos: nat, a: seq<Record>, r: Record)
    requires Holds(wire, pos, Encode(a)) && Holds(wire, pos + |Encode(a)|, EncodeRecord(r))
    ensures Walk(wire, pos, |a|) == Here(pos + |Encode(a)|)
  {
    WalkPast(wire, pos, a, |a|);
  }

  /** Where get_data finds the payload of record k. */
  function PayloadAt(recs: seq<Record>, k: nat): nat
    requires k <= |recs|
  {
    DATA_HEADER_SIZE + StartOf(recs, k) + 2
  }

  /** Memory that starts with a message of these records, `count` of which its header announces. */
  ghost predicate Shows(wire: bytes, recs: seq<Record>, count: nat) {
    && |wire| >= DATA_HEADER_SIZE
    && Holds(wire, DATA_HEADER_SIZE, Encode(recs))
    && FieldCount(wire) == count <= |recs|
  }

  /** A field read back without the word loop, and not narrower than its type. */
  predicate PlainField(r: Record) {
    if NativeWidth(r.code) != 0 then NativeWidth(r.code) <= |r.payload|
    else |r.payload| < 4 || !SmallWord(r.payload, 0)
  }

  lemma RecordParts(wire: bytes, at: nat, r: Record)
    requires Holds(wire, at, EncodeRecord(r))
    ensures wire[at] == |r.payload| && wire[at + 1] == r.code && wire[at + 2 + |r.payload|] == 0
    ensures wire[at + 2..at + 2 + |r.payload|] == r.payload
  {
    var e := EncodeRecord(r);
    assert wire[at + 0] == e[0] && wire[at + 1] == e[1] && wire[at + (2 + |r.payload|)] == e[2 + |r.payload|];
    HoldsConcat(wire, at, [|r.payload|, r.code], r.payload + [0]);
    assert [|r.payload|, r.code] + (r.payload + [0]) == e;
    HoldsConcat(wire, at + 2, r.payload, [0]);
    HoldsSlice(wire, at + 2, r.payload);
  }

  /** The round trip at the reader's end: for any memory that starts with the message, every published
      index gives exactly its record's size, type and payload, every other index is rejected, and a
      message that claims MAX_FIELDS fields or more is rejected at every index. */
  lemma ReaderInverts(wire: bytes, recs: seq<Record>, dst: bytes, count: nat, index: nat, maxFields: nat)
    requires Shows(wire, recs, count)
    ensures count >= maxFields || index >= count ==> Lookup(wire, dst, index, maxFields) == Erange
    ensures index < count < maxFields ==>
              var r := recs[index];
              var at := PayloadAt(recs, index);
              && at + |r.payload| < |wire|
              && wire[at..at + |r.payload|] == r.payload
              && Lookup(wire, dst, index, maxFields)
                 == (if at + Extent(r.code, dst, 0, wire, at, |r.payload|) <= |wire|
                     then Found(|r.payload|, r.code, at) else Overrun)
  {
    if index < count < maxFields {
      var r := recs[index];
      WalkFinds(wire, DATA_HEADER_SIZE, recs, index);
      var at := PayloadAt(recs, index);
      RecordParts(wire, at - 2, r);
    }
  }

  /** What get_data copies of a plain field: the native width, or everything. */
  function Value(r: Record): bytes
    requires PlainField(r)
  {
    if NativeWidth(r.code) != 0 then r.payload[..NativeWidth(r.code)] else r.payload
  }

  /** A plain field always fits, and its value is what lands in the destination. */
  lemma PlainFieldFetched(wire: bytes, dst: bytes, at: nat, r: Record)
    requires at + |r.payload| <= |wire| && wire[at..at + |r.payload|] == r.payload && PlainField(r)
    ensures var e := Extent(r.code, dst, 0, wire, at, |r.payload|);
            e == |Value(r)| <= |r.payload| && wire[at..at + e] == Value(r)
  {
    var n := |r.payload|;
    if NativeWidth(r.code) == 0 && n >= 4 {
      assert !SmallWord(wire, at) by {
        forall j | 0 <= j < 4
          ensures wire[at + j] == r.payload[j]
        {
          assert wire[at..at + n][j] == r.payload[j];
        }
      }
    }
    var e := Extent(r.code, dst, 0, wire, at, n);
    assert wire[at..at + e] == wire[at..at + n][..e];
  }

  /** A published plain field is read back whole. */
  lemma PlainFieldReadBack(wire: bytes, recs: seq<Record>, dst: bytes, count: nat, index: nat, maxFields: nat)
    requires Shows(wire, recs, count) && index < count < maxFields && PlainField(recs[index])
    ensures var r, l := recs[index], Lookup(wire, dst, index, maxFields);
            l == Found(|r.payload|, r.code, PayloadAt(recs, index)) && Fetched(wire, dst, l) == Value(r)
  {
    ReaderInverts(wire, recs, dst, count, index, maxFields);
    PlainFieldFetched(wire, dst, PayloadAt(recs, index), recs[index]);
  }

  /** Exactly what get_data copies of a field it finds, and when that is more than the field. A copied-by-size
      field arrives whole, and alone unless both its own first word and the destination's are small; a
      fixed-width one arrives as its first bytes, or, declared too narrow, with bytes from behind it. */
  lemma ReadBackExactly(wire: bytes, recs: seq<Record>, dst: bytes, count: nat, index: nat, maxFields: nat)
    requires Shows(wire, recs, count) && index < count < maxFields
    requires Lookup(wire, dst, index, maxFields).Found?
    ensures var r, got := recs[index], Fetched(wire, dst, Lookup(wire, dst, index, maxFields));
            var n, w := |r.payload|, NativeWidth(r.code);
            && (w == 0 ==>
                  && r.payload <= got
                  && (got == r.payload <==> n < 4 || !SmallWord(r.payload, 0) || !SmallWord(dst, 0)))
            && (w != 0 ==>
                  && |got| == w
                  && (w <= n ==> got == r.payload[..w])
                  && (n < w ==> r.payload < got))
            && (|got| > n <==> if w != 0 then n < w else n >= 4 && SmallWord(r.payload, 0) && SmallWord(dst, 0))
  {
    ReaderInverts(wire, recs, dst, count, index, maxFields);
    FetchedExactly(wire, dst, PayloadAt(recs, index), recs[index]);
  }

  lemma FetchedExactly(wire: bytes, dst: bytes, at: nat, r: Record)
    requires at + |r.payload| <= |wire| && wire[at..at + |r.payload|] == r.payload
    requires at + Extent(r.code, dst, 0, wire, at, |r.payload|) <= |wire|
    ensures var e := Extent(r.code, dst, 0, wire, at, |r.payload|);
            var n, w, got := |r.payload|, NativeWidth(r.code), wire[at..at + e];
            && (w == 0 ==>
                  && r.payload <= got
                  && (got == r.payload <==> n < 4 || !SmallWord(r.payload, 0) || !SmallWord(dst, 0))
                  && (e > n <==> n >= 4 && SmallWord(r.payload, 0) && SmallWord(dst, 0)))
            && (w != 0 ==> e == w && (w <= n ==> got == r.payload[..w]) && (n < w ==> r.payload < got))
  {
    var n := |r.payload|;
    var e := Extent(r.code, dst, 0, wire, at, n);
    assert forall j :: 0 <= j < n ==> wire[at..at + n][j] == wire[at + j] == r.payload[j];
    if n >= 4 {
      SameFirstWord(wire, at, r.payload);
    }
    if e <= n {
      assert wire[at..at + e] == wire[at..at + n][..e];
    } else {
      assert wire[at..at + e][..n] == wire[at..at + n];
    }
  }

  lemma SameFirstWord(wire: bytes, at: nat, p: bytes)
    requires |p| >= 4 && at + |p| <= |wire| && wire[at..at + |p|] == p
    ensures SmallWord(wire, at) == SmallWord(p, 0)
  {
    assert wire[at + 0] == p[0] && wire[at + 1] == p[1] && wire[at + 2] == p[2] && wire[at + 3] == p[3];
  }

  /** The rule for callers: give fixed-width types at least their width, and do not send a copied-by-size
      field of four bytes or more that starts with a small word. */
  predicate WellDeclared(src: bytes, n: byte, code: byte) {
    if NativeWidth(code) != 0 then NativeWidth(code) <= n else n < 4 || !SmallWord(src, 0)
  }

  /** The writer moves no more than the declared size exactly when the rule is followed; a field that
      follows it spills nothing, and its value is what the caller passed. */
  lemma WellDeclaredField(src: bytes, n: byte, code: byte)
    requires CallerExtent(src, n, code) <= |src|
    ensures CallerExtent(src, n, code) <= n <==> WellDeclared(src, n, code)
    ensures PlainField(FieldOf(src, n, code)) <==> WellDeclared(src, n, code)
    ensures WellDeclared(src, n, code) ==>
              NoSpill(src, n, CallerExtent(src, n, code))
              && Value(FieldOf(src, n, code)) == src[..CallerExtent(src, n, code)]
  {
    var r := FieldOf(src, n, code);
    if NativeWidth(code) == 0 && n >= 4 {
      assert forall j :: 0 <= j < 4 ==> r.payload[j] == src[j];
    }
    if WellDeclared(src, n, code) {
      assert Value(r) == src[..CallerExtent(src, n, code)];
    }
  }

  // ---------------------------------------------------------------- whole runs

  datatype Op = Append(src: Pointer, n: byte, code: byte) | Publish

  /** What a program has written so far: its accepted fields, and how many of them it has published. */
  datatype Log = Log(recs: seq<Record>, published: nat)

  /** What the C code asks of its caller at each call. */
  predicate RoomFor(b: Buffer, op: Op) {
    b.Valid() && (op.Append? ==> HasRoom(b, op.src, op.n, op.code))
  }

  function Apply(b: Buffer, op: Op): Buffer
    requires RoomFor(b, op)
  {
    match op
    case Publish => Published(b)
    case Append(src, n, code) => Serialized(b, src, n, code)
  }

  predicate Runnable(b: Buffer, ops: seq<Op>)
    decreases |ops|
  {
    ops == [] || (RoomFor(b, ops[0]) && Runnable(Apply(b, ops[0]), ops[1..]))
  }

  function Run(b: Buffer, ops: seq<Op>): (r: Buffer)
    requires Runnable(b, ops)
    ensures |r.data| == |b.data|
    decreases |ops|
  {
    if ops == [] then b else Run(Apply(b, ops[0]), ops[1..])
  }

  /** The call spills nothing beyond the field it declares. */
  predicate SpillsNothing(b: Buffer, op: Op)
    requires RoomFor(b, op)
  {
    op.Append? && Accepts(b, op.src, op.n) ==> NoSpill(op.src.mem, op.n, WriteExtent(b, op.src.mem, op.n, op.code))
  }

  predicate SpillFree(b: Buffer, ops: seq<Op>)
    requires Runnable(b, ops)
    decreases |ops|
  {
    ops == [] || (SpillsNothing(b, ops[0]) && SpillFree(Apply(b, ops[0]), ops[1..]))
  }

  predicate LegalOp(b: Buffer, op: Op) {
    RoomFor(b, op) && SpillsNothing(b, op)
  }

  predicate Legal(b: Buffer, ops: seq<Op>) {
    Runnable(b, ops) && SpillFree(b, ops)
  }

  /** The size guard in terms of the fields accepted so far. */
  predicate Fits(size: nat, recs: seq<Record>, op: Op)
    requires op.Append?
  {
    op.src.At? && 3 + op.n + DATA_HEADER_SIZE + |Encode(recs)| < size
    && (if NativeWidth(op.code) == 0 then op.n else NativeWidth(op.code)) <= |op.src.mem|
  }

  function LogStep(size: nat, log: Log, op: Op): Log {
    if op.Publish? then log.(published := |log.recs|)
    else if Fits(size, log.recs, op) then log.(recs := log.recs + [FieldOf(op.src.mem, op.n, op.code)])
    else log
  }

  function LogRun(size: nat, log: Log, ops: seq<Op>): (r: Log)
    ensures log.recs <= r.recs
    ensures log.published <= |log.recs| ==> r.published <= |r.recs|
    decreases |ops|
  {
    if ops == [] then log else LogRun(size, LogStep(size, log, ops[0]), ops[1..])
  }

  /** The invariant of every reachable buffer: framed, with a header that tells of the last to_wire. */
  ghost predicate Reflects(b: Buffer, log: Log) {
    && Frames(b, log.recs)
    && log.published <= |log.recs|
    && b.prot == b.data[0] == PROTOCOL_VERSION
    && FieldCount(b.data) == log.published % 0x1_0000
    && Val(b.data[BYTEPOS..BYTEPOS + 4]) == DATA_HEADER_SIZE + |Encode(log.recs[..log.published])|
  }

  lemma HeaderLoads(b: Buffer)
    requires b.Valid()
    ensures var p := Published(b).data;
            p[0] == b.prot && FieldCount(p) == b.fields && Val(p[BYTEPOS..BYTEPOS + 4]) == b.byteLength
  {
    var p := Published(b).data;
    Pow256Values();
    LoadStored(b.fields, 2);
    LoadStored(b.byteLength, 4);
    HeaderParts(b);
    assert p[FLDPOS..FLDPOS + 2] == b.Header()[FLDPOS..FLDPOS + 2];
    assert p[BYTEPOS..BYTEPOS + 4] == b.Header()[BYTEPOS..BYTEPOS + 4];
  }

  lemma CreatedReflects(size: nat)
    requires DATA_HEADER_SIZE < size < 0x8000_0000
    ensures Reflects(Created(size), Log([], 0))
  {
    CreatedFrames(size);
    HeaderLoads(Buffer(PROTOCOL_VERSION, DATA_PACKET, 0, 0, DATA_HEADER_SIZE, 0, Zeros(size)));
  }

  lemma StepReflects(b: Buffer, log: Log, op: Op)
    requires Reflects(b, log) && LegalOp(b, op)
    ensures Reflects(Apply(b, op), LogStep(|b.data|, log, op))
  {
    match op
    case Publish => PublishReflects(b, log);
    case Append(src, n, code) =>
      if Accepts(b, src, n) {
        AppendReflects(b, log, src, n, code);
      }
  }

  lemma PublishReflects(b: Buffer, log: Log)
    requires Reflects(b, log)
    ensures Reflects(Published(b), log.(published := |log.recs|))
  {
    PublishedFrames(b, log.recs);
    HeaderLoads(b);
    assert log.recs[..|log.recs|] == log.recs;
  }

  lemma AppendReflects(b: Buffer, log: Log, src: Pointer, n: byte, code: byte)
    requires Reflects(b, log) && LegalOp(b, Append(src, n, code)) && Accepts(b, src, n)
    ensures Reflects(Serialized(b, src, n, code), log.(recs := log.recs + [FieldOf(src.mem, n, code)]))
  {
    AppendKeepsFrames(b, log.recs, src, n, code);
    var added := [n, code] + src.mem[..WriteExtent(b, src.mem, n, code)] + [0];
    SpliceOutside(b.data, b.byteLength, added, FLDPOS, FLDPOS + 2);
    SpliceOutside(b.data, b.byteLength, added, BYTEPOS, BYTEPOS + 4);
    assert (log.recs + [FieldOf(src.mem, n, code)])[..log.published] == log.recs[..log.published];
  }

  /** Every run of appends and publishes leaves a framed buffer whose header is that of the last publish. */
  lemma {:induction false} RunReflects(b: Buffer, log: Log, ops: seq<Op>)
    requires Reflects(b, log) && Legal(b, ops)
    ensures Reflects(Run(b, ops), LogRun(|b.data|, log, ops)) && |Run(b, ops).data| == |b.data|
    decreases |ops|
  {
    if ops != [] {
      StepReflects(b, log, ops[0]);
      RunReflects(Apply(b, ops[0]), LogStep(|b.data|, log, ops[0]), ops[1..]);
    }
  }

  lemma ReflectsShows(b: Buffer, log: Log)
    requires Reflects(b, log)
    ensures Shows(b.data, log.recs, log.published % 0x1_0000)
  {
  }

  lemma RunShows(size: nat, ops: seq<Op>)
    requires DATA_HEADER_SIZE < size < 0x8000_0000 && Legal(Created(size), ops)
    ensures var log := LogRun(size, Log([], 0), ops);
            Shows(Run(Created(size), ops).data, log.recs, log.published % 0x1_0000)
  {
    CreatedReflects(size);
    RunReflects(Created(size), Log([], 0), ops);
    ReflectsShows(Run(Created(size), ops), LogRun(size, Log([], 0), ops));
  }

  /** The round trip over runs: after any run from create_buffer, get_data(i) gives exactly the i-th
      published field, and rejects every other index. */
  lemma RunRoundTrip(size: nat, ops: seq<Op>, dst: bytes, index: nat, maxFields: nat)
    requires DATA_HEADER_SIZE < size < 0x8000_0000 && Legal(Created(size), ops)
    ensures var log := LogRun(size, Log([], 0), ops);
            var wire := Run(Created(size), ops).data;
            var published := log.published % 0x1_0000;
            var l := Lookup(wire, dst, index, maxFields);
            && (published >= maxFields || index >= published ==> l == Erange)
            && (index < published < maxFields && PlainField(log.recs[index]) ==>
                  var r := log.recs[index];
                  && l == Found(|r.payload|, r.code, PayloadAt(log.recs, index))
                  && Fetched(wire, dst, l) == Value(r))
            && (l.Found? && NativeWidth(l.code) == 0 ==>
                  index < |log.recs| && log.recs[index].payload <= Fetched(wire, dst, l))
  {
    RunShows(size, ops);
    PublishedReadBack(Run(Created(size), ops).data, LogRun(size, Log([], 0), ops).recs, dst,
                      LogRun(size, Log([], 0), ops).published % 0x1_0000, index, maxFields);
  }

  lemma PublishedReadBack(wire: bytes, recs: seq<Record>, dst: bytes, count: nat, index: nat, maxFields: nat)
    requires Shows(wire, recs, count)
    ensures var l := Lookup(wire, dst, index, maxFields);
            && (count >= maxFields || index >= count ==> l == Erange)
            && (index < count < maxFields && PlainField(recs[index]) ==>
                  var r := recs[index];
                  l == Found(|r.payload|, r.code, PayloadAt(recs, index)) && Fetched(wire, dst, l) == Value(r))
            && (l.Found? && NativeWidth(l.code) == 0 ==>
                  index < |recs| && recs[index].payload <= Fetched(wire, dst, l))
  {
    ReaderInverts(wire, recs, dst, count, index, maxFields);
    if index < count < maxFields {
      if PlainField(recs[index]) {
        PlainFieldReadBack(wire, recs, dst, count, index, maxFields);
      }
      var n, at := |recs[index].payload|, PayloadAt(recs, index);
      var l := Lookup(wire, dst, index, maxFields);
      if l.Found? && NativeWidth(l.code) == 0 {
        assert Fetched(wire, dst, l)[..n] == wire[at..at + n];
      }
    }
  }

  /** Appending, without publishing, changes nothing that a reader sees: the fields already published
      keep their values and places, and the new ones stay out of reach. */
  lemma AppendStability(b: Buffer, log: Log, ops: seq<Op>, dst: bytes, index: nat, maxFields: nat)
    requires Reflects(b, log) && Legal(b, ops)
    requires forall op :: op in ops ==> op.Append?
    requires index < log.published % 0x1_0000 ==> PlainField(log.recs[index])
    ensures var before, after := b.data, Run(b, ops).data;
            var l := Lookup(before, dst, index, maxFields);
            && Lookup(after, dst, index, maxFields) == l
            && (l.Found? ==> Fetched(after, dst, l) == Fetched(before, dst, l))
  {
    RunReflects(b, log, ops);
    AppendsPublishNothing(|b.data|, log, ops);
    ReflectsShows(b, log);
    ReflectsShows(Run(b, ops), LogRun(|b.data|, log, ops));
    SamePublished(b.data, Run(b, ops).data, log.recs, LogRun(|b.data|, log, ops).recs, dst,
                  log.published % 0x1_0000, index, maxFields);
  }

  lemma SamePublished(before: bytes, after: bytes, recs: seq<Record>, later: seq<Record>,
                      dst: bytes, count: nat, index: nat, maxFields: nat)
    requires Shows(before, recs, count) && Shows(after, later, count) && recs <= later
    requires index < count ==> PlainField(recs[index])
    ensures var l := Lookup(before, dst, index, maxFields);
            && Lookup(after, dst, index, maxFields) == l
            && (l.Found? ==> Fetched(after, dst, l) == Fetched(before, dst, l))
  {
    PublishedReadBack(before, recs, dst, count, index, maxFields);
    PublishedReadBack(after, later, dst, count, index, maxFields);
    if index < count {
      assert recs[..index] == later[..index];
    }
  }

  lemma {:induction false} AppendsPublishNothing(size: nat, log: Log, ops: seq<Op>)
    requires forall op :: op in ops ==> op.Append?
    ensures LogRun(size, log, ops).published == log.published
    decreases |ops|
  {
    if ops != [] {
      assert ops[0] in ops;
      AppendsPublishNothing(size, LogStep(size, log, ops[0]), ops[1..]);
    }
  }

  /** The header getters believe the wire: they give the length and the field count of the last
      to_wire, which are the struct's own when nothing was appended since. */
  lemma HeaderReadBack(b: Buffer, log: Log)
    requires Reflects(b, log)
    ensures GetByteLength(b.data, b.data[0], |b.data|) == DATA_HEADER_SIZE + |Encode(log.recs[..log.published])|
    ensures GetNumberFields(b.data, b.data[0]) == log.published % 0x1_0000
    ensures log.published == |log.recs| ==>
              && GetByteLength(b.data, b.data[0], |b.data|) == b.byteLength
              && GetNumberFields(b.data, b.data[0]) == b.fields
  {
    assert log.recs == log.recs[..log.published] + log.recs[log.published..];
    EncodeConcat(log.recs[..log.published], log.recs[log.published..]);
    if log.published == |log.recs| {
      assert log.recs[..log.published] == log.recs;
    }
  }

  /** A framed buffer holds one list of records only. */
  lemma FramesUnique(b: Buffer, r1: seq<Record>, r2: seq<Record>)
    requires Frames(b, r1) && Frames(b, r2)
    ensures r1 == r2
  {
    HoldsSlice(b.data, DATA_HEADER_SIZE, Encode(r1));
    HoldsSlice(b.data, DATA_HEADER_SIZE, Encode(r2));
    ParseEncode(r1);
    ParseEncode(r2);
  }

  // ---------------------------------------------------------------- a rule for callers

  /** What a caller can check of one call before making it: the declaration follows the rule, and what
      will be copied is readable. */
  predicate WellCalled(op: Op) {
    op.Append? && op.src.At? ==>
      WellDeclared(op.src.mem, op.n, op.code) && CallerExtent(op.src.mem, op.n, op.code) <= |op.src.mem|
  }

  /** The accepted appends of a run, in order. */
  function AcceptedCalls(size: nat, log: Log, calls: seq<Op>, ops: seq<Op>): (r: seq<Op>)
    decreases |ops|
  {
    if ops == [] then calls
    else AcceptedCalls(size, LogStep(size, log, ops[0]),
                       if ops[0].Append? && Fits(size, log.recs, ops[0]) then calls + [ops[0]] else calls, ops[1..])
  }

  predicate IsFieldOf(r: Record, op: Op) {
    op.Append? && op.src.At? && WellCalled(op) && r == FieldOf(op.src.mem, op.n, op.code)
  }

  ghost predicate FieldsOf(recs: seq<Record>, calls: seq<Op>) {
    |recs| == |calls| && forall i :: 0 <= i < |recs| ==> IsFieldOf(recs[i], calls[i])
  }

  /** A well-called append is legal on every framed buffer. */
  lemma WellCalledIsLegal(b: Buffer, log: Log, op: Op)
    requires Reflects(b, log) && WellCalled(op)
    ensures LegalOp(b, op)
  {
    if op.Append? && op.src.At? {
      ExtentIsCallers(b, log.recs, op.src.mem, op.n, op.code);
      WellDeclaredField(op.src.mem, op.n, op.code);
    }
  }

  /** Calls that follow the rule make a legal run, and its fields are those of the accepted calls. */
  lemma {:induction false} WellCalledRun(b: Buffer, log: Log, calls: seq<Op>, ops: seq<Op>)
    requires Reflects(b, log) && FieldsOf(log.recs, calls) && forall op :: op in ops ==> WellCalled(op)
    ensures Legal(b, ops)
    ensures FieldsOf(LogRun(|b.data|, log, ops).recs, AcceptedCalls(|b.data|, log, calls, ops))
    decreases |ops|
  {
    if ops != [] {
      var op := ops[0];
      assert WellCalled(op);
      WellCalledIsLegal(b, log, op);
      StepReflects(b, log, op);
      WellCalledRun(Apply(b, op), LogStep(|b.data|, log, op),
                    if op.Append? && Fits(|b.data|, log.recs, op) then calls + [op] else calls, ops[1..]);
    }
  }

  /** A reader gets `count` fields, each with the size and type of its call and exactly the bytes that the
      call copied, and nothing else. */
  predicate ReadsBack(wire: bytes, recs: seq<Record>, calls: seq<Op>, dst: bytes, count: nat, index: nat,
                      maxFields: nat)
  {
    var l := Lookup(wire, dst, index, maxFields);
    && (count >= maxFields || index >= count ==> l == Erange)
    && (index < count < maxFields ==>
          && index < |calls| == |recs| && calls[index].Append? && calls[index].src.At?
          && var src, n, code := calls[index].src.mem, calls[index].n, calls[index].code;
             && CallerExtent(src, n, code) <= |src|
             && l == Found(n, code, PayloadAt(recs, index))
             && Fetched(wire, dst, l) == src[..CallerExtent(src, n, code)])
  }

  /** The round trip for callers that follow the rule, with no condition on any state: the i-th accepted
      append, once published, is found with the size and type it declared and gives back exactly the bytes
      it passed; every other index is rejected. */
  lemma WellCalledRoundTrip(size: nat, ops: seq<Op>, dst: bytes, index: nat, maxFields: nat)
    requires DATA_HEADER_SIZE < size < 0x8000_0000 && forall op :: op in ops ==> WellCalled(op)
    ensures Legal(Created(size), ops)
    ensures var log, calls := LogRun(size, Log([], 0), ops), AcceptedCalls(size, Log([], 0), [], ops);
            ReadsBack(Run(Created(size), ops).data, log.recs, calls, dst, log.published % 0x1_0000, index, maxFields)
  {
    CreatedReflects(size);
    WellCalledRun(Created(size), Log([], 0), [], ops);
    RunShows(size, ops);
    CalledReadBack(Run(Created(size), ops).data, LogRun(size, Log([], 0), ops).recs,
                   AcceptedCalls(size, Log([], 0), [], ops), dst,
                   LogRun(size, Log([], 0), ops).published % 0x1_0000, index, maxFields);
  }

  lemma CalledReadBack(wire: bytes, recs: seq<Record>, calls: seq<Op>, dst: bytes, count: nat, index: nat,
                       maxFields: nat)
    requires Shows(wire, recs, count) && FieldsOf(recs, calls)
    ensures ReadsBack(wire, recs, calls, dst, count, index, maxFields)
  {
    PublishedReadBack(wire, recs, dst, count, index, maxFields);
    if index < count < maxFields {
      assert IsFieldOf(recs[index], calls[index]);
      WellDeclaredField(calls[index].src.mem, calls[index].n, calls[index].code);
    }
  }

  // ---------------------------------------------------------------- the size guard

  /** When the guard keeps an append inside the array: on every framed buffer that accepts it, exactly if the
      copy moves at most one byte more than the declared size. A well-declared field moves no more than that. */
  lemma StaysInsideIff(src: bytes, n: byte, code: byte)
    requires CallerExtent(src, n, code) <= |src|
    ensures (forall b: Buffer, recs: seq<Record> :: Frames(b, recs) && Accepts(b, At(src), n) ==>
               HasRoom(b, At(src), n, code))
            <==> CallerExtent(src, n, code) <= n + 1
    ensures WellDeclared(src, n, code) ==> CallerExtent(src, n, code) <= n
  {
    if CallerExtent(src, n, code) <= n + 1 {
      forall b: Buffer, recs: seq<Record> | Frames(b, recs) && Accepts(b, At(src), n)
        ensures HasRoom(b, At(src), n, code)
      {
        ExtentIsCallers(b, recs, src, n, code);
      }
    } else {
      var tight := Created(17 + n);
      CreatedFrames(17 + n);
      ExtentIsCallers(tight, [], src, n, code);
      assert Frames(tight, []) && Accepts(tight, At(src), n) && !HasRoom(tight, At(src), n, code);
    }
  }

  /** The concrete case: forty bytes that start with the number 1, read from eighty, pass the guard of a
      64-byte buffer and are copied past its end. */
  lemma GuardLetsThrough()
    ensures var src: bytes := [1] + Zeros(79);
            && Accepts(Created(64), At(src), 40)
            && WriteExtent(Created(64), src, 40, UINT64) == |src|
            && !HasRoom(Created(64), At(src), 40, UINT64)
  {
    var src: bytes := [1] + Zeros(79);
    CreatedFrames(64);
    ExtentIsCallers(Created(64), [], src, 40, UINT64);
    assert SmallWord(src, 0);
  }

  // ---------------------------------------------------------------- what a spill does

  const ONE: bytes := [1, 0, 0, 0, 0, 0, 0, 0]

  /** The concrete case: the 64-bit number 1, with anything nonzero after it in memory. */
  lemma SmallNumberSpills(b: Buffer, recs: seq<Record>)
    requires Frames(b, recs) && b.byteLength + 2 + 16 < |b.data|
    ensures var src := At(ONE + [7, 0, 0, 0, 0, 0, 0, 0]);
            && HasRoom(b, src, 8, UINT64) && Accepts(b, src, 8)
            && forall r: Record :: !Frames(Serialized(b, src, 8, UINT64), recs + [r])
  {
    var src := At(ONE + [7, 0, 0, 0, 0, 0, 0, 0]);
    ExtentIsCallers(b, recs, src.mem, 8, UINT64);
    assert CallerExtent(src.mem, 8, UINT64) == 16;
    assert src.mem[8] == 7;
    AppendFramesIff(b, recs, src, 8, UINT64);
  }

  lemma OneFieldRun(src: Pointer)
    requires src == At(ONE + Zeros(8))
    ensures var ops := [Append(src, 8, UINT64), Publish];
            && Legal(Created(64), ops) && LogRun(64, Log([], 0), ops) == Log([Rec(UINT64, ONE)], 1)
  {
    var ops, log := [Append(src, 8, UINT64), Publish], Log([], 0);
    CreatedReflects(64);
    ExtentIsCallers(Created(64), [], src.mem, 8, UINT64);
    assert LegalOp(Created(64), ops[0]);
    assert ops[1..] == [Publish] && [Publish][1..] == [];
    assert Legal(Apply(Created(64), ops[0]), [Publish]);
    assert FieldOf(src.mem, 8, UINT64) == Rec(UINT64, ONE);
    assert LogStep(64, log, ops[0]) == Log([] + [Rec(UINT64, ONE)], 0);
    assert LogRun(64, Log([Rec(UINT64, ONE)], 0), [Publish]) == Log([Rec(UINT64, ONE)], 1);
  }

  /** A field that is read back with bytes that are not its own: the 64-bit number 1, followed by zeros,
      published alone and read into zeroed memory. */
  lemma SmallNumberReadsOn()
    ensures var ops, dst := [Append(At(ONE + Zeros(8)), 8, UINT64), Publish], Zeros(16);
            && Legal(Created(64), ops)
            && var wire := Run(Created(64), ops).data;
               var l := Lookup(wire, dst, 0, 32);
               l == Found(8, UINT64, 15) && |Fetched(wire, dst, l)| == 16
  {
    var ops := [Append(At(ONE + Zeros(8)), 8, UINT64), Publish];
    OneFieldRun(At(ONE + Zeros(8)));
    RunShows(64, ops);
    OneFieldRead(Run(Created(64), ops).data, Zeros(16));
  }

  lemma OneFieldRead(wire: bytes, dst: bytes)
    requires |wire| == 64 && dst == Zeros(16) && Shows(wire, [Rec(UINT64, ONE)], 1)
    ensures var l := Lookup(wire, dst, 0, 32); l == Found(8, UINT64, 15) && |Fetched(wire, dst, l)| == 16
  {
    ReaderInverts(wire, [Rec(UINT64, ONE)], dst, 1, 0, 32);
    SameFirstWord(wire, 15, ONE);
  }

  // ---------------------------------------------------------------- more fields than the reader admits

  function OneByteFields(m: nat): seq<Op> {
    seq(m, _ => Append(At([7]), 1, UINT8))
  }

  lemma {:induction false} OneByteFieldsRun(b: Buffer, log: Log, m: nat)
    requires Reflects(b, log) && b.byteLength + 4 * m < |b.data|
    ensures Legal(b, OneByteFields(m) + [Publish])
    ensures var after := LogRun(|b.data|, log, OneByteFields(m) + [Publish]);
            after.published == |log.recs| + m
    decreases m
  {
    var ops := OneByteFields(m) + [Publish];
    if m == 0 {
      assert ops == [Publish] && ops[1..] == [];
      assert Runnable(b, ops) && SpillFree(b, ops);
    } else {
      var op := Append(At([7]), 1, UINT8);
      assert ops[0] == op && ops[1..] == OneByteFields(m - 1) + [Publish];
      StepReflects(b, log, op);
      OneByteFieldsRun(Apply(b, op), LogStep(|b.data|, log, op), m - 1);
    }
  }

  /** The writer can go past what the reader admits: wherever the buffer has room for them, MAX_FIELDS
      one-byte fields are all accepted and published, and then every index is rejected, the first included. */
  lemma MaxFieldsReached(size: nat, dst: bytes, index: nat, maxFields: nat)
    requires DATA_HEADER_SIZE + 4 * maxFields < size < 0x8000_0000 && maxFields < 0x1_0000
    ensures var ops := OneByteFields(maxFields) + [Publish];
            && Legal(Created(size), ops)
            && LogRun(size, Log([], 0), ops).published == maxFields
            && Lookup(Run(Created(size), ops).data, dst, index, maxFields) == Erange
  {
    CreatedReflects(size);
    OneByteFieldsRun(Created(size), Log([], 0), maxFields);
    RunRoundTrip(size, OneByteFields(maxFields) + [Publish], dst, index, maxFields);
  }
}
