/** src/messages/data_messages.c: everything a reader sees, computed from the calls alone. No buffer occurs in
    the definitions here, so a caller can evaluate them before the calls. */
module SpillCauses {
  import opened Bytes
  import opened Records
  import opened DataMessages
  import opened MessageRuns
  import opened SpillRuns

  // ---------------------------------------------------------------- what the calls copied

  /** An accepted append: where its field starts, what it declares, and the bytes that were copied. */
  datatype Copy = Copy(start: nat, n: byte, code: byte, mem: bytes)
  {
    /** What it writes from `start` on. */
    function Image(): (e: bytes)
      ensures |e| == 3 + |mem|
    {
      [n, code] + mem + [0]
    }

    /** Where a reader looks for the terminator. */
    function Terminator(): nat {
      start + 2 + n
    }

    /** The last byte it writes. */
    function Last(): nat {
      start + 2 + |mem|
    }
  }

  /** The accepted appends, and how many of them the last to_wire announced. */
  datatype Trace = Trace(copies: seq<Copy>, published: nat)

  /** Where the next field starts. */
  function End(copies: seq<Copy>): nat {
    if copies == [] then DATA_HEADER_SIZE
    else var c := copies[|copies| - 1]; c.start + 3 + c.n
  }

  /** The byte at p: what the latest copy that reached it put there. */
  function Left(copies: seq<Copy>, p: nat): byte {
    if copies == [] then 0
    else
      var c := copies[|copies| - 1];
      if c.start <= p <= c.Last() then c.Image()[p - c.start] else Left(copies[..|copies| - 1], p)
  }

  /** The destination half of the word test. */
  predicate SmallLeft(size: nat, copies: seq<Copy>, off: nat) {
    forall p :: off <= p < off + 4 && p < size ==> Left(copies, p) < if p == off then 4 else 1
  }

  /** How many bytes the next append copies. */
  function NextExtent(size: nat, copies: seq<Copy>, src: bytes, n: byte, code: byte): nat {
    if NativeWidth(code) != 0 then NativeWidth(code)
    else if SmallWord(src, 0) && SmallLeft(size, copies, End(copies) + 2) then WordExtent(n)
    else n
  }

  predicate Taken(size: nat, copies: seq<Copy>, op: Op) {
    op.Append? && op.src.At? && 3 + op.n + End(copies) < size
  }

  /** The copy stays inside the source and the array. */
  predicate Stays(size: nat, copies: seq<Copy>, op: Op) {
    Taken(size, copies, op) ==>
      var e := NextExtent(size, copies, op.src.mem, op.n, op.code);
      e <= |op.src.mem| && End(copies) + 2 + e < size
  }

  function Traced(size: nat, tr: Trace, op: Op): Trace
    requires Stays(size, tr.copies, op)
  {
    if op.Publish? then tr.(published := |tr.copies|)
    else if !Taken(size, tr.copies, op) then tr
    else
      var e := NextExtent(size, tr.copies, op.src.mem, op.n, op.code);
      tr.(copies := tr.copies + [Copy(End(tr.copies), op.n, op.code, op.src.mem[..e])])
  }

  predicate AllStay(size: nat, tr: Trace, ops: seq<Op>)
    decreases |ops|
  {
    ops == [] || (Stays(size, tr.copies, ops[0]) && AllStay(size, Traced(size, tr, ops[0]), ops[1..]))
  }

  function TraceOf(size: nat, tr: Trace, ops: seq<Op>): (r: Trace)
    requires AllStay(size, tr, ops)
    decreases |ops|
  {
    if ops == [] then tr else TraceOf(size, Traced(size, tr, ops[0]), ops[1..])
  }

  // ---------------------------------------------------------------- the buffer mirrors the calls

  ghost predicate Mirrors(b: Buffer, tr: Trace) {
    && b.Valid()
    && b.byteLength == End(tr.copies) < |b.data|
    && b.fields == |tr.copies| % 0x1_0000
    && FieldCount(b.data) == tr.published % 0x1_0000
    && tr.published <= |tr.copies|
    && forall p :: DATA_HEADER_SIZE <= p < |b.data| ==> b.data[p] == Left(tr.copies, p)
  }

  lemma CreatedMirrors(size: nat)
    requires DATA_HEADER_SIZE < size < 0x8000_0000
    ensures Mirrors(Created(size), Trace([], 0))
  {
    HeaderLoads(Buffer(PROTOCOL_VERSION, DATA_PACKET, 0, 0, DATA_HEADER_SIZE, 0, Zeros(size)));
  }

  lemma MirroredExtent(b: Buffer, tr: Trace, src: bytes, n: byte, code: byte)
    requires Mirrors(b, tr)
    ensures WriteExtent(b, src, n, code) == NextExtent(|b.data|, tr.copies, src, n, code)
  {
    var off: nat := b.byteLength + 2;
    assert forall p :: off <= p < |b.data| ==> b.data[p] == Left(tr.copies, p);
  }

  lemma MirroredRoom(b: Buffer, tr: Trace, op: Op)
    requires Mirrors(b, tr)
    ensures RoomFor(b, op) <==> Stays(|b.data|, tr.copies, op)
    ensures op.Append? ==> (Accepts(b, op.src, op.n) <==> Taken(|b.data|, tr.copies, op))
  {
    if op.Append? && op.src.At? {
      MirroredExtent(b, tr, op.src.mem, op.n, op.code);
    }
  }

  lemma AppendMirrors(b: Buffer, tr: Trace, src: Pointer, n: byte, code: byte)
    requires Mirrors(b, tr) && HasRoom(b, src, n, code) && Accepts(b, src, n)
    ensures var c := Copy(b.byteLength, n, code, src.mem[..WriteExtent(b, src.mem, n, code)]);
            Mirrors(Serialized(b, src, n, code), tr.(copies := tr.copies + [c]))
  {
    var c := Copy(b.byteLength, n, code, src.mem[..WriteExtent(b, src.mem, n, code)]);
    SpliceOutside(b.data, b.byteLength, c.Image(), FLDPOS, FLDPOS + 2);
    assert (tr.copies + [c])[..|tr.copies|] == tr.copies;
  }

  lemma StepMirrors(b: Buffer, tr: Trace, op: Op)
    requires Mirrors(b, tr) && RoomFor(b, op)
    ensures Stays(|b.data|, tr.copies, op) && Mirrors(Apply(b, op), Traced(|b.data|, tr, op))
  {
    MirroredRoom(b, tr, op);
    match op
    case Publish => HeaderLoads(b);
    case Append(src, n, code) =>
      if Accepts(b, src, n) {
        MirroredExtent(b, tr, src.mem, n, code);
        AppendMirrors(b, tr, src, n, code);
      }
  }

  /** The caller's obligation over a whole run, from the calls alone; and the buffer it leaves. */
  lemma {:induction false} RunMirrors(b: Buffer, tr: Trace, ops: seq<Op>)
    requires Mirrors(b, tr)
    ensures Runnable(b, ops) <==> AllStay(|b.data|, tr, ops)
    ensures Runnable(b, ops) ==> Mirrors(Run(b, ops), TraceOf(|b.data|, tr, ops))
    decreases |ops|
  {
    if ops != [] {
      MirroredRoom(b, tr, ops[0]);
      if RoomFor(b, ops[0]) {
        StepMirrors(b, tr, ops[0]);
        RunMirrors(Apply(b, ops[0]), Traced(|b.data|, tr, ops[0]), ops[1..]);
      }
    }
  }

  /** A run from create_buffer stays inside its objects exactly when the calls say so, and then every byte
      behind the header is what the calls say. */
  lemma RunnableIff(size: nat, ops: seq<Op>)
    requires DATA_HEADER_SIZE < size < 0x8000_0000
    ensures Runnable(Created(size), ops) <==> AllStay(size, Trace([], 0), ops)
    ensures Runnable(Created(size), ops) ==>
              var wire, tr := Run(Created(size), ops).data, TraceOf(size, Trace([], 0), ops);
              && |wire| == size && FieldCount(wire) == tr.published % 0x1_0000
              && forall p :: DATA_HEADER_SIZE <= p < size ==> wire[p] == Left(tr.copies, p)
  {
    CreatedMirrors(size);
    RunMirrors(Created(size), Trace([], 0), ops);
  }

  // ---------------------------------------------------------------- slots and copies side by side

  ghost predicate PairAt(slots: seq<Slot>, copies: seq<Copy>, i: nat)
    requires i < |slots| == |copies|
  {
    copies[i].start == StartsAt(slots, i) && copies[i].n == |slots[i].payload| && copies[i].code == slots[i].code
  }

  ghost predicate Paired(slots: seq<Slot>, copies: seq<Copy>) {
    |slots| == |copies| && forall i :: 0 <= i < |slots| ==> PairAt(slots, copies, i)
  }

  lemma {:induction false} PairedEnd(slots: seq<Slot>, copies: seq<Copy>)
    requires Paired(slots, copies)
    ensures End(copies) == StartsAt(slots, |slots|)
  {
    if copies != [] {
      var last: nat := |copies| - 1;
      assert PairAt(slots, copies, last);
    }
  }

  lemma {:induction false} PairedGrows(slots: seq<Slot>, copies: seq<Copy>, s: Slot, c: Copy)
    requires Paired(slots, copies) && c.start == End(copies) && c.n == |s.payload| && c.code == s.code
    ensures Paired(slots + [s], copies + [c])
  {
    PairedEnd(slots, copies);
    forall i | 0 <= i <= |slots|
      ensures PairAt(slots + [s], copies + [c], i)
    {
      StartsAtPrefix(slots, slots + [s], i);
      assert i < |slots| ==> PairAt(slots, copies, i);
    }
  }

  lemma {:induction false} StepPaired(b: Buffer, slots: seq<Slot>, tr: Trace, op: Op)
    requires Mirrors(b, tr) && Paired(slots, tr.copies) && RoomFor(b, op)
    ensures Stays(|b.data|, tr.copies, op)
    ensures Paired(SlotsAfter(b, slots, op), Traced(|b.data|, tr, op).copies)
  {
    MirroredRoom(b, tr, op);
    if op.Append? && Accepts(b, op.src, op.n) {
      var e := NextExtent(|b.data|, tr.copies, op.src.mem, op.n, op.code);
      PairedGrows(slots, tr.copies, Written(b, op.src, op.n, op.code),
                  Copy(End(tr.copies), op.n, op.code, op.src.mem[..e]));
    }
  }

  lemma {:induction false} RunPaired(b: Buffer, slots: seq<Slot>, tr: Trace, ops: seq<Op>)
    requires Mirrors(b, tr) && Paired(slots, tr.copies) && Runnable(b, ops)
    ensures AllStay(|b.data|, tr, ops)
    ensures Paired(SlotRun(b, slots, ops), TraceOf(|b.data|, tr, ops).copies)
    decreases |ops|
  {
    if ops != [] {
      StepMirrors(b, tr, ops[0]);
      StepPaired(b, slots, tr, ops[0]);
      RunPaired(Apply(b, ops[0]), SlotsAfter(b, slots, ops[0]), Traced(|b.data|, tr, ops[0]), ops[1..]);
    }
  }

  // ---------------------------------------------------------------- which copy breaks which terminator

  /** Each field lies behind the declared size of the one before. */
  ghost predicate InOrder(copies: seq<Copy>) {
    forall j, i :: 0 <= j < i < |copies| ==> copies[j].Terminator() < copies[i].start
  }

  lemma {:induction false} PairedInOrder(slots: seq<Slot>, copies: seq<Copy>)
    requires Paired(slots, copies)
    ensures InOrder(copies)
  {
    forall j, i | 0 <= j < i < |copies|
      ensures copies[j].Terminator() < copies[i].start
    {
      assert PairAt(slots, copies, j) && PairAt(slots, copies, i);
      StartsAtMonotone(slots, j + 1, i);
    }
  }

  /** Copy j leaves a nonzero payload byte at p, and none of the copies after it, up to k, reaches p. */
  predicate Marks(copies: seq<Copy>, j: nat, k: nat, p: nat)
    requires j < k <= |copies|
  {
    && copies[j].start + 2 <= p < copies[j].Last() && copies[j].mem[p - copies[j].start - 2] != 0
    && forall m :: j < m < k ==> copies[m].Last() < p
  }

  /** Copy j leaves a nonzero byte on the terminator of field i, and no copy after it, up to that of field i
      itself, reaches that place. */
  predicate SpillsOn(copies: seq<Copy>, j: nat, i: nat)
    requires j <= i < |copies|
  {
    Marks(copies, j, i + 1, copies[i].Terminator())
  }

  /** Some copy spills on the terminator of field i. */
  predicate Broken(copies: seq<Copy>, i: nat)
    requires i < |copies|
  {
    exists j :: 0 <= j <= i && SpillsOn(copies, j, i)
  }

  /** What the first k copies leave at a place at least two behind the start of each. */
  lemma {:induction false} LeftBy(copies: seq<Copy>, k: nat, p: nat)
    requires k <= |copies| && forall m :: 0 <= m < k ==> copies[m].start + 2 <= p
    ensures Left(copies[..k], p) != 0 <==> exists j :: 0 <= j < k && Marks(copies, j, k, p)
  {
    if k > 0 {
      var c := copies[k - 1];
      assert copies[..k][..k - 1] == copies[..k - 1] && copies[..k][k - 1] == c;
      if p <= c.Last() {
        assert forall j :: 0 <= j < k && Marks(copies, j, k, p) ==> j == k - 1;
        assert p < c.Last() ==> c.Image()[p - c.start] == c.mem[p - c.start - 2];
        assert Left(copies[..k], p) != 0 <==> Marks(copies, k - 1, k, p);
      } else {
        LeftBy(copies, k - 1, p);
        var before: nat := k - 1;
        forall j | 0 <= j < before
          ensures Marks(copies, j, before, p) <==> Marks(copies, j, k, p)
        {
        }
        assert !Marks(copies, before, k, p);
      }
    }
  }

  lemma {:induction false} LaterCopiesPass(copies: seq<Copy>, k: nat, p: nat)
    requires k <= |copies| && forall m :: k <= m < |copies| ==> p < copies[m].start
    ensures Left(copies, p) == Left(copies[..k], p)
    decreases |copies|
  {
    if k == |copies| {
      assert copies[..k] == copies;
    } else {
      LaterCopiesPass(copies[..|copies| - 1], k, p);
      assert copies[..|copies| - 1][..k] == copies[..k];
    }
  }

  /** A terminator is nonzero at the end exactly when some copy spilled on it. */
  lemma BrokenIff(copies: seq<Copy>, i: nat)
    requires InOrder(copies) && i < |copies|
    ensures Left(copies, copies[i].Terminator()) != 0 <==> Broken(copies, i)
  {
    var t := copies[i].Terminator();
    LaterCopiesPass(copies, i + 1, t);
    var k := i + 1;
    LeftBy(copies, k, t);
    assert forall j :: 0 <= j < k ==> (SpillsOn(copies, j, i) <==> Marks(copies, j, k, t));
  }

  /** Field by field: a field copied in exactly its size is safe; one whose copy is longer answers for its
      own terminator alone; one declared wider than its copy depends on what earlier copies left behind
      their own declared sizes. */
  lemma {:induction false} BrokenBy(copies: seq<Copy>, i: nat)
    requires InOrder(copies) && i < |copies|
    ensures var c := copies[i];
            && (|c.mem| == c.n ==> !Broken(copies, i))
            && (|c.mem| > c.n ==> (Broken(copies, i) <==> c.mem[c.n] != 0))
            && (|c.mem| < c.n ==>
                  (Broken(copies, i) <==>
                   exists j :: 0 <= j < i && SpillsOn(copies, j, i)
                               && c.Terminator() >= copies[j].start + 2 + copies[j].n))
  {
    var c := copies[i];
    assert SpillsOn(copies, i, i) <==> |c.mem| > c.n && c.mem[c.n] != 0;
    assert |c.mem| >= c.n ==> forall j :: 0 <= j < i ==> !SpillsOn(copies, j, i);
  }

  // ---------------------------------------------------------------- what the reader finds

  /** The result of get_data in terms of the calls: out of range, a bad message behind a broken
      terminator, or the field in its place, as far as the memory lasts. */
  function FoundBy(wire: bytes, tr: Trace, dst: bytes, index: nat, maxFields: nat): Element
    requires tr.published <= |tr.copies|
  {
    var count := tr.published % 0x1_0000;
    if count >= maxFields || index >= count then Erange
    else if exists i :: 0 <= i < index && Broken(tr.copies, i) then Ebadmsg
    else
      var c := tr.copies[index];
      if c.start + 2 + Extent(c.code, dst, 0, wire, c.start + 2, c.n) <= |wire| then Found(c.n, c.code, c.start + 2)
      else Overrun
  }

  lemma {:induction false} IntactByCauses(wire: bytes, slots: seq<Slot>, copies: seq<Copy>, k: nat)
    requires Paired(slots, copies) && k <= |copies|
    requires forall i :: 0 <= i < |slots| ==> SlotAt(wire, slots, i)
    requires forall p :: DATA_HEADER_SIZE <= p < |wire| ==> wire[p] == Left(copies, p)
    ensures Intact(slots, 0, k) <==> forall i :: 0 <= i < k ==> !Broken(copies, i)
  {
    PairedInOrder(slots, copies);
    forall i | 0 <= i < k
      ensures slots[i].term == 0 <==> !Broken(copies, i)
    {
      assert SlotAt(wire, slots, i) && PairAt(slots, copies, i);
      var e, n := EncodeSlot(slots[i]), |slots[i].payload|;
      assert wire[StartsAt(slots, i) + (2 + n)] == e[2 + n];
      var t := copies[i].Terminator();
      assert t == StartsAt(slots, i) + (2 + n);
      assert wire[t] == Left(copies, t) == slots[i].term;
      BrokenIff(copies, i);
    }
  }

  /** What a reader gets out of one buffer. */
  ghost predicate ReadsFromCalls(wire: bytes, tr: Trace, dst: bytes, index: nat, maxFields: nat) {
    && tr.published <= |tr.copies|
    && var l := Lookup(wire, dst, index, maxFields);
       && l == FoundBy(wire, tr, dst, index, maxFields)
       && (l.Found? ==> var got := Fetched(wire, dst, l);
                        forall k :: 0 <= k < |got| ==> got[k] == Left(tr.copies, l.offset + k))
  }

  lemma {:induction false} MirroredLookup(b: Buffer, slots: seq<Slot>, tr: Trace,
                                          dst: bytes, index: nat, maxFields: nat)
    requires Mirrors(b, tr) && LaidOut(b, slots) && Paired(slots, tr.copies)
    ensures ReadsFromCalls(b.data, tr, dst, index, maxFields)
  {
    if index < FieldCount(b.data) < maxFields {
      assert PairAt(slots, tr.copies, index);
      LaidOutLookup(b, slots, dst, index, maxFields);
      IntactByCauses(b.data, slots, tr.copies, index);
      var l := Lookup(b.data, dst, index, maxFields);
      if l.Found? {
        var got := Fetched(b.data, dst, l);
        forall k | 0 <= k < |got|
          ensures got[k] == Left(tr.copies, l.offset + k)
        {
          assert got[k] == b.data[l.offset + k];
        }
      }
    }
  }

  /** Over every run from create_buffer, whatever it copies and spills: what get_data finds and copies is
      computed from the calls. A published field is a bad message if and only if some copy left a nonzero
      byte on the terminator of a field before it. */
  lemma AnyRunFromCalls(size: nat, ops: seq<Op>, dst: bytes, index: nat, maxFields: nat)
    requires DATA_HEADER_SIZE < size < 0x8000_0000 && Runnable(Created(size), ops)
    ensures AllStay(size, Trace([], 0), ops)
    ensures var wire, tr := Run(Created(size), ops).data, TraceOf(size, Trace([], 0), ops);
            && ReadsFromCalls(wire, tr, dst, index, maxFields)
            && (Lookup(wire, dst, index, maxFields) == Ebadmsg <==>
                  && index < tr.published % 0x1_0000 < maxFields
                  && exists i :: 0 <= i < index && Broken(tr.copies, i))
  {
    CreatedMirrors(size);
    CreatedLaidOut(size);
    RunMirrors(Created(size), Trace([], 0), ops);
    RunLaidOut(Created(size), [], ops);
    RunPaired(Created(size), [], Trace([], 0), ops);
    MirroredLookup(Run(Created(size), ops), SlotRun(Created(size), [], ops), TraceOf(size, Trace([], 0), ops),
                   dst, index, maxFields);
  }

  // ---------------------------------------------------------------- a rule for callers

  /** No fixed-width type is declared wider than it is, and the byte behind the declared size is zero. */
  predicate ZeroBehind(op: Op) {
    op.Append? && op.src.At? ==>
      && (NativeWidth(op.code) != 0 ==> op.n <= NativeWidth(op.code))
      && (|op.src.mem| > op.n ==> op.src.mem[op.n] == 0)
  }

  predicate Covers(c: Copy) {
    |c.mem| >= c.n && (|c.mem| > c.n ==> c.mem[c.n] == 0)
  }

  lemma {:induction false} RuledCopiesCover(size: nat, tr: Trace, ops: seq<Op>)
    requires AllStay(size, tr, ops) && (forall op :: op in ops ==> ZeroBehind(op))
    requires forall c :: c in tr.copies ==> Covers(c)
    ensures forall c :: c in TraceOf(size, tr, ops).copies ==> Covers(c)
    decreases |ops|
  {
    if ops != [] {
      assert ZeroBehind(ops[0]);
      RuledCopiesCover(size, Traced(size, tr, ops[0]), ops[1..]);
    }
  }

  lemma CoveredIsIntact(copies: seq<Copy>, i: nat)
    requires (forall c :: c in copies ==> Covers(c)) && i < |copies|
    ensures !Broken(copies, i)
  {
    assert copies[i] in copies;
  }

  /** If every append follows the rule, every terminator is intact and every published field is reached,
      spills or not. */
  lemma RuledRunReaches(size: nat, ops: seq<Op>, dst: bytes, index: nat, maxFields: nat)
    requires DATA_HEADER_SIZE < size < 0x8000_0000 && Runnable(Created(size), ops)
    requires forall op :: op in ops ==> ZeroBehind(op)
    ensures AllStay(size, Trace([], 0), ops)
    ensures var copies := TraceOf(size, Trace([], 0), ops).copies;
            forall i :: 0 <= i < |copies| ==> !Broken(copies, i)
    ensures Lookup(Run(Created(size), ops).data, dst, index, maxFields) != Ebadmsg
  {
    AnyRunFromCalls(size, ops, dst, index, maxFields);
    RuledCopiesCover(size, Trace([], 0), ops);
    var copies := TraceOf(size, Trace([], 0), ops).copies;
    forall i | 0 <= i < |copies|
      ensures !Broken(copies, i)
    {
      CoveredIsIntact(copies, i);
    }
  }

  // ---------------------------------------------------------------- a spill that skips a field

  const ONE_THEN_SEVENS: bytes := ONE + [0, 7, 7, 7, 7, 7, 7, 7]

  /** The 64-bit number 1 with a zero behind it and sevens behind that; a 16-bit number declared as four
      bytes; one byte. */
  function WideAfterSpill(): seq<Op> {
    [Append(At(ONE_THEN_SEVENS), 8, UINT64), Append(At([5, 0]), 4, INT16), Append(At([9]), 1, UINT8), Publish]
  }

  /** The spill leaves its own terminator zero and breaks that of the next field. */
  lemma ZeroBehindIsNotEnough(dst: bytes)
    ensures Runnable(Created(64), WideAfterSpill())
    ensures var wire := Run(Created(64), WideAfterSpill()).data;
            && Lookup(wire, dst, 1, 32) == Found(4, INT16, 26)
            && Lookup(wire, dst, 2, 32) == Ebadmsg
  {
    var ops := WideAfterSpill();
    var c0, c1, c2 := Copy(13, 8, UINT64, ONE_THEN_SEVENS), Copy(24, 4, INT16, [5, 0]), Copy(31, 1, UINT8, [9]);
    WideTrace(c0, c1, c2);
    RunnableIff(64, ops);
    AnyRunFromCalls(64, ops, dst, 1, 32);
    AnyRunFromCalls(64, ops, dst, 2, 32);
    WideReads(Run(Created(64), ops).data, c0, c1, c2, dst);
  }

  lemma WideReads(wire: bytes, c0: Copy, c1: Copy, c2: Copy, dst: bytes)
    requires c0 == Copy(13, 8, UINT64, ONE_THEN_SEVENS) && c1 == Copy(24, 4, INT16, [5, 0])
    requires |wire| == 64 && c2 == Copy(31, 1, UINT8, [9])
    requires ReadsFromCalls(wire, Trace([c0, c1, c2], 3), dst, 1, 32)
    requires ReadsFromCalls(wire, Trace([c0, c1, c2], 3), dst, 2, 32)
    ensures Lookup(wire, dst, 1, 32) == Found(4, INT16, 26) && Lookup(wire, dst, 2, 32) == Ebadmsg
  {
    assert ONE_THEN_SEVENS[8] == 0 && ONE_THEN_SEVENS[15] == 7;
    assert SpillsOn([c0, c1, c2], 0, 1);
    assert Broken([c0, c1, c2], 1);
    assert !Broken([c0, c1, c2], 0);
  }

  lemma WideTrace(c0: Copy, c1: Copy, c2: Copy)
    requires c0 == Copy(13, 8, UINT64, ONE_THEN_SEVENS) && c1 == Copy(24, 4, INT16, [5, 0])
    requires c2 == Copy(31, 1, UINT8, [9])
    ensures AllStay(64, Trace([], 0), WideAfterSpill())
    ensures TraceOf(64, Trace([], 0), WideAfterSpill()) == Trace([c0, c1, c2], 3)
  {
    var ops := WideAfterSpill();
    assert NextExtent(64, [], ONE_THEN_SEVENS, 8, UINT64) == 16;
    assert ONE_THEN_SEVENS[..16] == ONE_THEN_SEVENS;
    assert Traced(64, Trace([], 0), ops[0]) == Trace([] + [c0], 0);
    assert [5, 0][..2] == [5, 0];
    assert Traced(64, Trace([c0], 0), ops[1]) == Trace([c0] + [c1], 0);
    assert [9][..1] == [9];
    assert Traced(64, Trace([c0, c1], 0), ops[2]) == Trace([c0, c1] + [c2], 0);
    assert ops[1..][1..] == ops[2..] && ops[2..][1..] == [Publish] && [Publish][1..] == [];
    assert AllStay(64, Trace([c0, c1, c2], 0), [Publish]);
    assert AllStay(64, Trace([c0, c1], 0), ops[2..]);
    assert AllStay(64, Trace([c0], 0), ops[1..]);
  }
}
