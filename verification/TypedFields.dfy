/** src/messages/data_messages.c in the numbers of its callers: type letters, C sizes and byte counts. */
module TypedFields {
  import opened Bytes
  import opened Records
  import opened DataMessages
  import opened MessageRuns

  // ---------------------------------------------------------------- what an append may declare

  const FOUR_BYTES: set<int> := {'i' as int, 'u' as int, 'f' as int}
  const TWO_BYTES: set<int> := {'n' as int, 'b' as int}
  const ONE_BYTE: set<int> := {'c' as int, 'p' as int, 'r' as int, 'y' as int}

  predicate BySize(code: byte) {
    code !in FOUR_BYTES && code !in TWO_BYTES && code !in ONE_BYTE
  }

  /** The source is as long as declared, a fixed type is declared with its C size, and a field of any other
      type that is four bytes or longer does not start with a number below 4. */
  predicate CSized(op: Op) {
    op.Append? && op.src.At? ==>
      var src, n := op.src.mem, op.n;
      && n <= |src|
      && (op.code in FOUR_BYTES ==> n == 4)
      && (op.code in TWO_BYTES ==> n == 2)
      && (op.code in ONE_BYTE ==> n == 1)
      && (BySize(op.code) && n >= 4 ==> Number(src[0], src[1], src[2], src[3]) >= 4)
  }

  lemma {:induction false} SmallWordIs(mem: bytes, off: nat)
    requires off + 4 <= |mem|
    ensures SmallWord(mem, off) <==> Number(mem[off], mem[off + 1], mem[off + 2], mem[off + 3]) < 4
  {
    var b0, b1, b2, b3 := mem[off], mem[off + 1], mem[off + 2], mem[off + 3];
    SmallNumber(b0, b1, b2, b3);
    if SmallWord(mem, off) {
      assert b0 < 4 && b1 < 1 && b2 < 1 && b3 < 1;
    } else {
      var j :| off <= j < off + 4 && !(mem[j] < if j == off then 4 else 1);
      assert j == off || j == off + 1 || j == off + 2 || j == off + 3;
    }
  }

  lemma SmallNumber(b0: nat, b1: nat, b2: nat, b3: nat)
    ensures Number(b0, b1, b2, b3) < 4 <==> b0 < 4 && b1 == b2 == b3 == 0
  {
  }

  lemma CSizedExtent(op: Op)
    requires CSized(op) && op.Append? && op.src.At?
    ensures WellCalled(op) && CallerExtent(op.src.mem, op.n, op.code) == op.n
  {
    if op.n >= 4 {
      SmallWordIs(op.src.mem, 0);
    }
  }

  // ---------------------------------------------------------------- what a run of calls sends

  /** The appends that fitted, and how many of them the last to_wire announced. */
  datatype Sent = Sent(calls: seq<Op>, published: nat)

  /** A 13-byte header, and three bytes around every field. */
  function Total(calls: seq<Op>): nat {
    if calls == [] then 13
    else
      var op := calls[|calls| - 1];
      Total(calls[..|calls| - 1]) + 3 + if op.Append? then op.n else 0
  }

  function Send(size: nat, sent: Sent, op: Op): Sent {
    match op
    case Publish => sent.(published := |sent.calls|)
    case Append(src, n, _) =>
      if src.At? && Total(sent.calls) + 3 + n < size then sent.(calls := sent.calls + [op]) else sent
  }

  function SentBy(size: nat, sent: Sent, ops: seq<Op>): Sent
    decreases |ops|
  {
    if ops == [] then sent else SentBy(size, Send(size, sent, ops[0]), ops[1..])
  }

  lemma {:induction false} TotalIs(recs: seq<Record>, calls: seq<Op>)
    requires FieldsOf(recs, calls)
    ensures Total(calls) == 13 + |Encode(recs)|
    decreases |recs|
  {
    if recs != [] {
      var n := |recs| - 1;
      assert IsFieldOf(recs[n], calls[n]);
      assert FieldsOf(recs[..n], calls[..n]) by {
        assert forall i :: 0 <= i < n ==> IsFieldOf(recs[i], calls[i]);
      }
      TotalIs(recs[..n], calls[..n]);
      EncodeSnoc(recs[..n], recs[n]);
      assert recs[..n] + [recs[n]] == recs;
    }
  }

  ghost predicate Tracks(b: Buffer, log: Log, sent: Sent) {
    Reflects(b, log) && FieldsOf(log.recs, sent.calls) && log.published == sent.published
  }

  lemma {:induction false} StepTracks(b: Buffer, log: Log, sent: Sent, op: Op)
    requires Tracks(b, log, sent) && CSized(op)
    ensures LegalOp(b, op) && Tracks(Apply(b, op), LogStep(|b.data|, log, op), Send(|b.data|, sent, op))
  {
    TotalIs(log.recs, sent.calls);
    if op.Append? && op.src.At? {
      CSizedExtent(op);
    }
    WellCalledIsLegal(b, log, op);
    StepReflects(b, log, op);
  }

  lemma {:induction false} RunTracks(b: Buffer, log: Log, sent: Sent, ops: seq<Op>)
    requires Tracks(b, log, sent) && forall op :: op in ops ==> CSized(op)
    ensures Legal(b, ops)
    ensures Tracks(Run(b, ops), LogRun(|b.data|, log, ops), SentBy(|b.data|, sent, ops))
    decreases |ops|
  {
    if ops != [] {
      assert CSized(ops[0]);
      StepTracks(b, log, sent, ops[0]);
      RunTracks(Apply(b, ops[0]), LogStep(|b.data|, log, ops[0]), Send(|b.data|, sent, ops[0]), ops[1..]);
    }
  }

  /** What a reader gets: field k is the k-th append that fitted, in its place behind those before it, with
      the size and type it declared and all the bytes it passed. */
  predicate Gets(wire: bytes, sent: Sent, dst: bytes, index: nat, maxFields: nat) {
    var count, l := sent.published % 0x1_0000, Lookup(wire, dst, index, maxFields);
    && (count >= maxFields || index >= count ==> l == Erange)
    && (index < count < maxFields ==>
          && index < |sent.calls| && sent.calls[index].Append? && sent.calls[index].src.At?
          && var src, n, code := sent.calls[index].src.mem, sent.calls[index].n, sent.calls[index].code;
             && n <= |src|
             && l == Found(n, code, Total(sent.calls[..index]) + 2)
             && Fetched(wire, dst, l) == src[..n])
  }

  lemma {:induction false} TrackedGets(b: Buffer, log: Log, sent: Sent, dst: bytes, index: nat, maxFields: nat)
    requires Tracks(b, log, sent) && forall op :: op in sent.calls ==> CSized(op)
    ensures Gets(b.data, sent, dst, index, maxFields)
  {
    ReflectsShows(b, log);
    CalledReadBack(b.data, log.recs, sent.calls, dst, log.published % 0x1_0000, index, maxFields);
    if index < log.published % 0x1_0000 < maxFields {
      assert sent.calls[index] in sent.calls;
      CSizedExtent(sent.calls[index]);
      assert FieldsOf(log.recs[..index], sent.calls[..index]) by {
        assert forall i :: 0 <= i < index ==> IsFieldOf(log.recs[i], sent.calls[i]);
      }
      TotalIs(log.recs[..index], sent.calls[..index]);
    }
  }

  lemma {:induction false} OnlyCalls(size: nat, sent: Sent, ops: seq<Op>)
    requires forall op :: op in sent.calls || op in ops ==> CSized(op)
    ensures forall op :: op in SentBy(size, sent, ops).calls ==> CSized(op)
    decreases |ops|
  {
    if ops != [] {
      OnlyCalls(size, Send(size, sent, ops[0]), ops[1..]);
    }
  }

  /** The round trip in C's own sizes: over any run whose appends declare INT32, UINT32 and FLOAT as four
      bytes, INT16 and BOOL as two, CHAR, INT8, UINT8 and BYTE_TYPE as one, and anything else as it likes off
      the word path, every published field comes back entire, and nothing else does. */
  lemma CSizedRoundTrip(size: nat, ops: seq<Op>, dst: bytes, index: nat, maxFields: nat)
    requires DATA_HEADER_SIZE < size < 0x8000_0000 && forall op :: op in ops ==> CSized(op)
    ensures Legal(Created(size), ops)
    ensures Gets(Run(Created(size), ops).data, SentBy(size, Sent([], 0), ops), dst, index, maxFields)
  {
    CreatedReflects(size);
    RunTracks(Created(size), Log([], 0), Sent([], 0), ops);
    OnlyCalls(size, Sent([], 0), ops);
    TrackedGets(Run(Created(size), ops), LogRun(size, Log([], 0), ops), SentBy(size, Sent([], 0), ops),
                dst, index, maxFields);
  }

  // ---------------------------------------------------------------- when an append keeps the framing

  /** The surplus of a field copied by its size. */
  predicate ZeroSurplus(src: bytes, n: nat) {
    8 * (n / 4) + n % 4 <= |src| && forall j :: n <= j < 8 * (n / 4) + n % 4 ==> src[j] == 0
  }

  predicate ZeroFrom(src: bytes, n: nat, size: nat) {
    size <= |src| && forall j :: n <= j < size ==> src[j] == 0
  }

  /** Type by type: a field copied by its size keeps the message framed exactly if it is shorter than four
      bytes, starts with a number of at least 4, or is followed by as many zeros as the word path moves too
      many; a fixed type exactly if the bytes of the C object beyond the declared size are zero. */
  lemma FramesInNumbers(b: Buffer, recs: seq<Record>, src: Pointer, n: byte, code: byte)
    requires Frames(b, recs) && HasRoom(b, src, n, code) && Accepts(b, src, n)
    ensures BySize(code) ==> n <= |src.mem|
    ensures (exists r: Record :: Frames(Serialized(b, src, n, code), recs + [r])) <==>
              if code in FOUR_BYTES then ZeroFrom(src.mem, n, 4)
              else if code in TWO_BYTES then ZeroFrom(src.mem, n, 2)
              else if code in ONE_BYTE then ZeroFrom(src.mem, n, 1)
              else n < 4 || Number(src.mem[0], src.mem[1], src.mem[2], src.mem[3]) >= 4 || ZeroSurplus(src.mem, n)
  {
    AppendFramesIff(b, recs, src, n, code);
    if BySize(code) && n >= 4 {
      SmallWordIs(src.mem, 0);
    }
  }
}
