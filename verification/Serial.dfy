/** src/kernel/serial.c: reading frames from a serial port whose every read may bring a byte, nothing,
    or an error. */
module Serial {
  import opened Bytes

  /** What `read(fd, b, 1)` comes back with: 1, 0 or -1. */
  datatype Outcome = Got(b: byte) | Nothing | Failed

  const TEENSY_REPLY: byte := 'r' as int
  const DRIVE_COM: byte := 'd' as int
  const NEWLINE: byte := 10
  const REPLY_SIZE: nat := 17
  const BUFFER_SIZE: nat := 30

  /** How many of the n reads from `from` on bring nothing. */
  function Gaps(line: nat -> Outcome, from: nat, n: nat): (k: nat)
    ensures k <= n
  {
    if n == 0 then 0 else Gaps(line, from, n - 1) + if line(from + n - 1).Nothing? then 1 else 0
  }

  /** The bytes that the n reads from `from` on bring, in order. */
  function Received(line: nat -> Outcome, from: nat, n: nat): (r: bytes)
    ensures |r| <= n
  {
    if n == 0 then []
    else Received(line, from, n - 1) + if line(from + n - 1).Got? then [line(from + n - 1).b] else []
  }

  predicate NoFailure(line: nat -> Outcome, from: nat, n: nat) {
    forall j: nat :: from <= j < from + n ==> !line(j).Failed?
  }

  predicate NoGap(line: nat -> Outcome, from: nat, n: nat) {
    forall j: nat :: from <= j < from + n ==> line(j).Got?
  }

  /** The read before `to` fails, after fewer than `timeout` reads that brought nothing. */
  predicate FailsAt(line: nat -> Outcome, from: nat, to: nat, timeout: int) {
    && from < to && line(to - 1).Failed? && NoFailure(line, from, to - 1 - from)
    && Gaps(line, from, to - 1 - from) < timeout
  }

  /** The read before `to` is the one that brings nothing for the `timeout`-th time, before any failure. */
  predicate TimesOutAt(line: nat -> Outcome, from: nat, to: nat, timeout: int) {
    && from < to && line(to - 1).Nothing? && NoFailure(line, from, to - from)
    && Gaps(line, from, to - from) == timeout
  }

  class Port {
    const line: nat -> Outcome
    var pos: nat

    constructor (line: nat -> Outcome)
      ensures this.line == line && pos == 0
    {
      this.line, pos := line, 0;
    }

    method Read() returns (o: Outcome)
      modifies this`pos
      ensures o == line(old(pos)) && pos == old(pos) + 1
    {
      o := line(pos);
      pos := pos + 1;
    }

    /** serialport_read. A read that brings nothing still moves on to the next place, so the byte there
        keeps its old value. */
    method SerialportRead(buf: array<byte>, count: nat, timeout: int) returns (ret: int)
      requires count <= buf.Length
      modifies this`pos, buf
      ensures ret in {0, -1, -2} && old(pos) <= pos <= old(pos) + count
      ensures ret == 0 <==>
                timeout <= 0 || (NoFailure(line, old(pos), count) && Gaps(line, old(pos), count) < timeout)
      ensures ret == -1 ==> pos > old(pos) && line(pos - 1) == Failed && FailsAt(line, old(pos), pos, timeout)
      ensures ret == -2 ==> pos > old(pos) && line(pos - 1) == Nothing && TimesOutAt(line, old(pos), pos, timeout)
      ensures timeout <= 0 ==> ret == 0 && pos == old(pos) && buf[..] == old(buf[..])
      ensures ret == 0 && timeout > 0 ==> pos == old(pos) + count
      ensures forall k :: 0 <= k < buf.Length ==>
                buf[k] == if k < pos - old(pos) && line(old(pos) + k).Got? then line(old(pos) + k).b else old(buf[k])
    {
      var i, left := 0, timeout;
      while i < count && left > 0
        invariant i <= count && pos == old(pos) + i
        invariant timeout > 0 ==> left > 0 && left == timeout - Gaps(line, old(pos), i)
        invariant timeout <= 0 ==> i == 0 && left == timeout
        invariant NoFailure(line, old(pos), i)
        invariant forall k :: 0 <= k < buf.Length ==>
                    buf[k] == if k < i && line(old(pos) + k).Got? then line(old(pos) + k).b else old(buf[k])
      {
        var o := Read();
        if o.Failed? {
          return -1;
        }
        if o.Nothing? {
          left := left - 1;
          GapsGrow(line, old(pos), i + 1, count);
          if left == 0 {
            return -2;
          }
        } else {
          buf[i] := o.b;
        }
        i := i + 1;
      }
      ret := 0;
    }

    /** serialport_read_until; `b` starts as whatever the stack held. */
    method SerialportReadUntil(buf: array<byte>, until: byte, bufMax: nat, timeout: int, initial: byte)
      returns (ret: int)
      requires 2 <= buf.Length && bufMax < buf.Length
      modifies this`pos, buf
      ensures var e := ReadUntil(line, old(pos), until, bufMax, timeout, initial, []);
              && pos == e.next && |e.got| < buf.Length
              && match e
                 case Failure(_, got) => ret == -1 && buf[..] == Splice(old(buf[..]), 0, got)
                 case TimedOut(_, got) => ret == -2 && buf[..] == Splice(old(buf[..]), 0, got)
                 case Stopped(_, got) => ret == |got| + 1 && buf[..] == Splice(old(buf[..]), 0, got + [0])
    {
      ghost var was, start, goal := buf[..], pos, ReadUntil(line, pos, until, bufMax, timeout, initial, []);
      ghost var got: bytes := [];
      var b, i, left := initial, 0, timeout;
      var again := true;
      while again
        invariant i == |got| < buf.Length && buf[..] == Splice(was, 0, got) && pos >= start
        invariant again ==> ReadUntil(line, pos, until, bufMax, left, b, got) == goal
        invariant again ==> (pos == start && i == 0) || GoesOn(b, until, i, bufMax, left)
        invariant !again ==> goal == Stopped(pos, got)
        decreases again, Budget(bufMax, left, i)
      {
        var o := Read();
        if o.Failed? {
          return -1;
        }
        if o.Nothing? {
          left := left - 1;
          if left == 0 {
            return -2;
          }
        } else {
          b := o.b;
          StoreBytes(buf, i, [b]);
          SpliceTwice(was, 0, got, [b]);
          got := got + [b];
          i := i + 1;
        }
        again := Signed(b) != until && i < bufMax && left > 0;
      }
      StoreBytes(buf, i, [0]);
      SpliceTwice(was, 0, got, [0]);
      ret := i + 1;
    }
  }

  // ---------------------------------------------------------------- serialport_read_until as a function

  /** A byte in a plain `char`, which is signed. */
  function Signed(b: byte): int {
    if b < 128 then b else b - 256
  }

  /** The loop condition: the delimiter is a uint8_t, the byte it is compared with a char. */
  predicate GoesOn(b: byte, until: byte, stored: nat, bufMax: nat, left: int) {
    Signed(b) != until && stored < bufMax && left > 0
  }

  function Budget(bufMax: nat, left: int, stored: nat): nat {
    (if stored < bufMax then bufMax - stored else 0) + (if left > 0 then left else 0)
  }

  /** How a call ends: the next read on the line, and the bytes it stored. */
  datatype End = Failure(next: nat, got: bytes) | TimedOut(next: nat, got: bytes) | Stopped(next: nat, got: bytes)

  /** The rounds from `pos` on, with `got` stored so far and `b` the latest byte. It ends for every line:
      a round that goes on uses up a place of the buffer or a unit of the timeout. */
  function ReadUntil(line: nat -> Outcome, pos: nat, until: byte, bufMax: nat, left: int, b: byte, got: bytes): (e: End)
    ensures |e.got| <= |got| + 1 || |e.got| <= bufMax
    decreases Budget(bufMax, left, |got|)
  {
    match line(pos)
    case Failed => Failure(pos + 1, got)
    case Nothing =>
      if left - 1 == 0 then TimedOut(pos + 1, got)
      else if GoesOn(b, until, |got|, bufMax, left - 1)
      then ReadUntil(line, pos + 1, until, bufMax, left - 1, b, got)
      else Stopped(pos + 1, got)
    case Got(c) =>
      if GoesOn(c, until, |got| + 1, bufMax, left)
      then ReadUntil(line, pos + 1, until, bufMax, left, c, got + [c])
      else Stopped(pos + 1, got + [c])
  }

  /** What has been stored from `start` on when a round begins at `pos`. */
  predicate Reading(line: nat -> Outcome, start: nat, pos: nat, until: byte, timeout: int, initial: byte,
                    left: int, b: byte, got: bytes)
  {
    && start <= pos && got == Received(line, start, pos - start) && NoFailure(line, start, pos - start)
    && left == timeout - Gaps(line, start, pos - start)
    && b == (if got == [] then initial else got[|got| - 1])
    && forall k :: 0 <= k < |got| ==> Signed(got[k]) != until
  }

  /** How and with what a call ends, in terms of the line alone. */
  predicate EndsWell(line: nat -> Outcome, start: nat, until: byte, bufMax: nat, timeout: int, initial: byte, e: End) {
    && start < e.next && e.got == Received(line, start, e.next - start)
    && (forall k :: 0 <= k < |e.got| - 1 ==> Signed(e.got[k]) != until)
    && match e
       case Failure(next, _) => line(next - 1).Failed?
       case TimedOut(next, _) => line(next - 1).Nothing? && Gaps(line, start, next - start) == timeout
       case Stopped(next, got) =>
         && NoFailure(line, start, next - start)
         && !GoesOn(if got == [] then initial else got[|got| - 1], until, |got|, bufMax,
                    timeout - Gaps(line, start, next - start))
  }

  lemma {:induction false} UntilEnds(line: nat -> Outcome, start: nat, pos: nat, until: byte, bufMax: nat,
                                     timeout: int, initial: byte, left: int, b: byte, got: bytes)
    requires Reading(line, start, pos, until, timeout, initial, left, b, got)
    ensures EndsWell(line, start, until, bufMax, timeout, initial, ReadUntil(line, pos, until, bufMax, left, b, got))
    decreases Budget(bufMax, left, |got|)
  {
    match line(pos)
    case Failed =>
      OneRead(line, start, pos);
    case Nothing =>
      if left - 1 != 0 && GoesOn(b, until, |got|, bufMax, left - 1) {
        ReadingOn(line, start, pos, until, timeout, initial, left, b, got);
        UntilEnds(line, start, pos + 1, until, bufMax, timeout, initial, left - 1, b, got);
      } else {
        OneRead(line, start, pos);
      }
    case Got(c) =>
      if GoesOn(c, until, |got| + 1, bufMax, left) {
        ReadingOn(line, start, pos, until, timeout, initial, left, b, got);
        UntilEnds(line, start, pos + 1, until, bufMax, timeout, initial, left, c, got + [c]);
      } else {
        OneRead(line, start, pos);
      }
  }

  /** One more round. */
  lemma {:induction false} ReadingOn(line: nat -> Outcome, start: nat, pos: nat, until: byte, timeout: int,
                                     initial: byte, left: int, b: byte, got: bytes)
    requires Reading(line, start, pos, until, timeout, initial, left, b, got)
    ensures line(pos).Nothing? ==> Reading(line, start, pos + 1, until, timeout, initial, left - 1, b, got)
    ensures line(pos).Got? && Signed(line(pos).b) != until ==>
              Reading(line, start, pos + 1, until, timeout, initial, left, line(pos).b, got + [line(pos).b])
  {
    OneRead(line, start, pos);
  }

  lemma OneRead(line: nat -> Outcome, start: nat, pos: nat)
    requires start <= pos
    ensures var n := pos - start;
            && Received(line, start, n + 1)
               == Received(line, start, n) + (if line(pos).Got? then [line(pos).b] else [])
            && Gaps(line, start, n + 1) == Gaps(line, start, n) + (if line(pos).Nothing? then 1 else 0)
            && (NoFailure(line, start, n + 1) <==> NoFailure(line, start, n) && !line(pos).Failed?)
  {
  }

  /** The whole call: the stored bytes are what the line brought, without gaps; for a delimiter below 128
      none of them but the last is the delimiter; a delimiter of 128 or more never stops the loop, which
      then runs until the buffer or the timeout is used up. */
  lemma UntilCall(line: nat -> Outcome, pos: nat, until: byte, bufMax: nat, timeout: int, initial: byte)
    ensures var e := ReadUntil(line, pos, until, bufMax, timeout, initial, []);
            && EndsWell(line, pos, until, bufMax, timeout, initial, e)
            && (until < 128 ==> forall k :: 0 <= k < |e.got| - 1 ==> e.got[k] != until)
            && (until >= 128 && e.Stopped? ==>
                  |e.got| >= bufMax || Gaps(line, pos, e.next - pos) >= timeout)
  {
    UntilEnds(line, pos, pos, until, bufMax, timeout, initial, timeout, initial, []);
    var e := ReadUntil(line, pos, until, bufMax, timeout, initial, []);
    forall k | 0 <= k < |e.got| - 1 && until < 128
      ensures e.got[k] != until
    {
      assert Signed(e.got[k]) != until;
    }
  }

  /** What a caller expects of a line that the call returned: the buffer is full or the delimiter ends it,
      and the delimiter is nowhere before its end. */
  predicate AsMeant(e: End, until: byte, bufMax: nat) {
    e.Stopped? ==>
      && (|e.got| >= bufMax || (e.got != [] && e.got[|e.got| - 1] == until))
      && forall k :: 0 <= k < |e.got| - 1 ==> e.got[k] != until
  }

  /** Once a round goes on, a call that stops has stored something. */
  lemma {:induction false} StoresSomething(line: nat -> Outcome, pos: nat, until: byte, bufMax: nat, left: int, b: byte)
    requires GoesOn(b, until, 0, bufMax, left)
    ensures var e := ReadUntil(line, pos, until, bufMax, left, b, []); e.Stopped? ==> e.got != []
    decreases Budget(bufMax, left, 0)
  {
    match line(pos)
    case Failed =>
    case Nothing =>
      if left - 1 != 0 {
        StoresSomething(line, pos + 1, until, bufMax, left - 1, b);
      }
    case Got(c) =>
      if GoesOn(c, until, 1, bufMax, left) {
        GrowsFrom(line, pos + 1, until, bufMax, left, c, [] + [c]);
      }
  }

  lemma {:induction false} GrowsFrom(line: nat -> Outcome, pos: nat, until: byte, bufMax: nat, left: int, b: byte,
                                     got: bytes)
    ensures got <= ReadUntil(line, pos, until, bufMax, left, b, got).got
    decreases Budget(bufMax, left, |got|)
  {
    match line(pos)
    case Failed =>
    case Nothing =>
      if left - 1 != 0 && GoesOn(b, until, |got|, bufMax, left - 1) {
        GrowsFrom(line, pos + 1, until, bufMax, left - 1, b, got);
      }
    case Got(c) =>
      if GoesOn(c, until, |got| + 1, bufMax, left) {
        GrowsFrom(line, pos + 1, until, bufMax, left, c, got + [c]);
      }
  }

  /** The empty line: with room and time, a call stops with nothing stored exactly when its first read
      brings nothing and the stack byte that it then looks at is the delimiter. */
  lemma EmptyLineIff(line: nat -> Outcome, pos: nat, until: byte, bufMax: nat, timeout: int, initial: byte)
    requires bufMax > 0 && timeout > 1
    ensures var e := ReadUntil(line, pos, until, bufMax, timeout, initial, []);
            e.Stopped? && e.got == [] <==> line(pos).Nothing? && Signed(initial) == until
  {
    match line(pos)
    case Failed =>
    case Nothing =>
      if Signed(initial) != until {
        StoresSomething(line, pos + 1, until, bufMax, timeout - 1, initial);
      }
    case Got(c) =>
      if GoesOn(c, until, 1, bufMax, timeout) {
        GrowsFrom(line, pos + 1, until, bufMax, timeout, c, [] + [c]);
      }
  }

  /** A call that fails or times out has stored no byte that it takes for the delimiter. */
  lemma {:induction false} DelimiterStops(line: nat -> Outcome, pos: nat, until: byte, bufMax: nat, left: int, b: byte,
                                          got: bytes)
    requires forall k :: 0 <= k < |got| ==> Signed(got[k]) != until
    ensures var e := ReadUntil(line, pos, until, bufMax, left, b, got);
            !e.Stopped? ==> forall k :: 0 <= k < |e.got| ==> Signed(e.got[k]) != until
    decreases Budget(bufMax, left, |got|)
  {
    match line(pos)
    case Failed =>
    case Nothing =>
      if left - 1 != 0 && GoesOn(b, until, |got|, bufMax, left - 1) {
        DelimiterStops(line, pos + 1, until, bufMax, left - 1, b, got);
      }
    case Got(c) =>
      if GoesOn(c, until, |got| + 1, bufMax, left) {
        DelimiterStops(line, pos + 1, until, bufMax, left, c, got + [c]);
      }
  }

  /** When a call stops, for a delimiter below 128 and a positive timeout: the buffer is full, the delimiter
      is stored last, or nothing at all is stored because the first read brought nothing and the stack byte
      was the delimiter. */
  lemma StopReasons(line: nat -> Outcome, pos: nat, until: byte, bufMax: nat, timeout: int, initial: byte)
    requires until < 128 && timeout > 0
    ensures var e := ReadUntil(line, pos, until, bufMax, timeout, initial, []);
            |e.got| < bufMax ==>
              (e.Stopped? <==> if e.got == [] then initial == until && line(pos).Nothing? && timeout > 1
                               else e.got[|e.got| - 1] == until)
  {
    var e := ReadUntil(line, pos, until, bufMax, timeout, initial, []);
    UntilCall(line, pos, until, bufMax, timeout, initial);
    TimeLeft(line, pos, until, bufMax, timeout, initial, []);
    DelimiterStops(line, pos, until, bufMax, timeout, initial, []);
    if |e.got| < bufMax && e.got == [] {
      if line(pos).Got? {
        FirstByteStays(line, pos, until, bufMax, timeout, initial);
      } else if timeout > 1 {
        EmptyLineIff(line, pos, until, bufMax, timeout, initial);
      }
    }
  }

  lemma FirstByteStays(line: nat -> Outcome, pos: nat, until: byte, bufMax: nat, timeout: int, initial: byte)
    requires line(pos).Got?
    ensures ReadUntil(line, pos, until, bufMax, timeout, initial, []).got != []
  {
    var c := line(pos).b;
    if GoesOn(c, until, 1, bufMax, timeout) {
      GrowsFrom(line, pos + 1, until, bufMax, timeout, c, [] + [c]);
    }
  }

  /** A call that stops has time left: running out of it is the other result. */
  lemma {:induction false} TimeLeft(line: nat -> Outcome, pos: nat, until: byte, bufMax: nat, left: int, b: byte,
                                    got: bytes)
    requires left > 0
    ensures var e := ReadUntil(line, pos, until, bufMax, left, b, got);
            e.Stopped? ==> e.next >= pos && Gaps(line, pos, e.next - pos) < left
    decreases Budget(bufMax, left, |got|)
  {
    match line(pos)
    case Failed =>
    case Nothing =>
      assert Gaps(line, pos, 1) == 1;
      if left - 1 != 0 && GoesOn(b, until, |got|, bufMax, left - 1) {
        TimeLeft(line, pos + 1, until, bufMax, left - 1, b, got);
        var e := ReadUntil(line, pos + 1, until, bufMax, left - 1, b, got);
        if e.Stopped? {
          GapsFront(line, pos, e.next - pos);
        }
      }
    case Got(c) =>
      assert Gaps(line, pos, 1) == 0;
      if GoesOn(c, until, |got| + 1, bufMax, left) {
        TimeLeft(line, pos + 1, until, bufMax, left, c, got + [c]);
        var e := ReadUntil(line, pos + 1, until, bufMax, left, c, got + [c]);
        if e.Stopped? {
          GapsFront(line, pos, e.next - pos);
        }
      }
  }

  lemma {:induction false} GapsFront(line: nat -> Outcome, from: nat, n: nat)
    requires n > 0
    ensures Gaps(line, from, n) == (if line(from).Nothing? then 1 else 0) + Gaps(line, from + 1, n - 1)
  {
    if n > 1 {
      GapsFront(line, from, n - 1);
    }
  }

  /** The delimiter followed by another byte, again and again. */
  function Interrupted(until: byte): nat -> Outcome {
    (k: nat) => if k == 0 then Got(until) else Got(97)
  }

  function Silent(): nat -> Outcome {
    (k: nat) => Nothing
  }

  /** For every delimiter of 128 or more: on the line that brings the delimiter and then 97, a call with room
      for two bytes stores both. Below 128 it stops at the delimiter. */
  lemma DelimiterWorksIff(until: byte, initial: byte)
    ensures var e := ReadUntil(Interrupted(until), 0, until, 2, 1, initial, []);
            && e.Stopped? && (until >= 128 ==> e.got == [until, 97])
            && ((forall k :: 0 <= k < |e.got| - 1 ==> e.got[k] != until) <==> until < 128)
  {
    var line := Interrupted(until);
    assert line(0) == Got(until) && line(1) == Got(97);
    if until >= 128 {
      assert ReadUntil(line, 1, until, 2, 1, until, [until]) == Stopped(2, [until] + [97]);
      assert ReadUntil(line, 0, until, 2, 1, initial, []) == Stopped(2, [until] + [97]) by {
        assert [] + [until] == [until];
      }
      assert ReadUntil(line, 0, until, 2, 1, initial, []).got[0] == until;
    } else {
      assert ReadUntil(line, 0, until, 2, 1, initial, []) == Stopped(1, [] + [until]);
    }
  }

  /** The other failing input: the stack byte is the delimiter and the first read brings nothing. The call
      returns an empty line at once, with room and time left. */
  lemma StaleByteEndsLine(until: byte)
    requires until < 128
    ensures ReadUntil(Silent(), 0, until, 2, 2, until, []) == Stopped(1, [])
  {
    assert Silent()(0) == Nothing;
  }

  predicate WorksFor(until: byte, bufMax: nat, timeout: int, initial: byte, line: nat -> Outcome) {
    AsMeant(ReadUntil(line, 0, until, bufMax, timeout, initial, []), until, bufMax)
  }

  /** serialport_read_until works as meant on every line, with any room and any positive time, exactly when its
      delimiter is below 128 and differs from the byte that the stack happens to hold. */
  lemma WorksIff(until: byte, initial: byte)
    ensures (forall bufMax: nat, timeout: int, line: nat -> Outcome :: bufMax > 0 && timeout > 0 ==>
               WorksFor(until, bufMax, timeout, initial, line))
            <==> until < 128 && initial != until
  {
    if until < 128 && initial != until {
      forall bufMax: nat, timeout: int, line: nat -> Outcome | bufMax > 0 && timeout > 0
        ensures WorksFor(until, bufMax, timeout, initial, line)
      {
        UntilCall(line, 0, until, bufMax, timeout, initial);
        StopReasons(line, 0, until, bufMax, timeout, initial);
      }
    } else if until >= 128 {
      DelimiterWorksIff(until, initial);
      assert !WorksFor(until, 2, 1, initial, Interrupted(until));
    } else {
      StaleByteEndsLine(until);
      assert !WorksFor(until, 2, 2, initial, Silent());
    }
  }

  lemma {:induction false} GapsGrow(line: nat -> Outcome, from: nat, m: nat, n: nat)
    ensures m <= n ==> Gaps(line, from, m) <= Gaps(line, from, n)
  {
    if m < n {
      GapsGrow(line, from, m, n - 1);
    }
  }

  // ---------------------------------------------------------------- the teensy

  /** The next seventeen reads are a reply: seventeen bytes in a row, the first an 'r'. */
  predicate ReplyAt(line: nat -> Outcome, pos: nat) {
    NoGap(line, pos, REPLY_SIZE) && line(pos).b == TEENSY_REPLY
  }

  function ReplyBytes(line: nat -> Outcome, pos: nat): bytes
    requires ReplyAt(line, pos)
  {
    seq(REPLY_SIZE, k requires 0 <= k < REPLY_SIZE => line(pos + k).b)
  }

  class TeensyDevice {
    const port: Port
    const buffer: array<byte>
    var msgLin: Word
    var msgAng: Word

    constructor (port: Port)
      ensures this.port == port && buffer.Length == BUFFER_SIZE && fresh(buffer)
    {
      this.port := port;
      buffer := new byte[BUFFER_SIZE](_ => 0);
      msgLin, msgAng := ZERO, ZERO;
    }

    /** send_drive and teensy_send_data: the frame that goes out on the port. */
    method SendDrive(lin: Word, ang: Word) returns (frame: bytes)
      requires buffer.Length == BUFFER_SIZE
      modifies this`msgLin, this`msgAng, buffer
      ensures msgLin == lin && msgAng == ang
      ensures frame == ['d' as int] + lin + ang + [10, 0]
    {
      msgLin, msgAng := lin, ang;
      buffer[0] := DRIVE_COM;
      StoreWord(buffer, 1, msgLin);
      StoreWord(buffer, 5, msgAng);
      buffer[9] := NEWLINE;
      buffer[10] := 0;
      frame := buffer[..11];
    }

    /** read_teensy_response: the four outputs change only on a reply without a gap, and then to its
        four floats; everything else leaves them as they were. */
    method ReadTeensyResponse(omega: Word, velocity: Word, wErr: Word, dt: Word)
      returns (ret: int, omega': Word, velocity': Word, wErr': Word, dt': Word)
      requires buffer.Length == BUFFER_SIZE
      modifies port`pos, buffer
      ensures ret == 0 <==> NoGap(port.line, old(port.pos), 17)
      ensures NoGap(port.line, old(port.pos), 17) && port.line(old(port.pos)).b == 'r' as int ==>
                forall k :: 0 <= k < 4 ==>
                  && Got(velocity'[k]) == port.line(old(port.pos) + 1 + k)
                  && Got(omega'[k]) == port.line(old(port.pos) + 5 + k)
                  && Got(wErr'[k]) == port.line(old(port.pos) + 9 + k)
                  && Got(dt'[k]) == port.line(old(port.pos) + 13 + k)
      ensures !NoGap(port.line, old(port.pos), 17) || port.line(old(port.pos)).b != 'r' as int ==>
                (velocity', omega', wErr', dt') == (velocity, omega, wErr, dt)
      ensures (velocity', omega', wErr', dt') ==
                if ReplyAt(port.line, old(port.pos)) then
                  var r := ReplyBytes(port.line, old(port.pos));
                  (r[1..5], r[5..9], r[9..13], r[13..17])
                else (velocity, omega, wErr, dt)
    {
      omega', velocity', wErr', dt' := omega, velocity, wErr, dt;
      ghost var start := port.pos;
      NoGaps(port.line, start, REPLY_SIZE);
      ret := port.SerialportRead(buffer, REPLY_SIZE, 1);
      if ret < 0 {
        return;
      }
      if buffer[0] != TEENSY_REPLY {
        return;
      }
      ghost var r := ReplyBytes(port.line, start);
      assert buffer[..REPLY_SIZE] == r;
      assert forall i, j :: 0 <= i <= j <= REPLY_SIZE ==> buffer[i..j] == buffer[..REPLY_SIZE][i..j];
      velocity' := buffer[1..5];
      omega' := buffer[5..9];
      wErr' := buffer[9..13];
      dt' := buffer[13..17];
    }
  }

  lemma {:induction false} NoGaps(line: nat -> Outcome, from: nat, n: nat)
    ensures NoFailure(line, from, n) && Gaps(line, from, n) < 1
            <==> NoGap(line, from, n)
  {
    if n > 0 {
      NoGaps(line, from, n - 1);
      var last := line(from + n - 1);
    }
  }
}
