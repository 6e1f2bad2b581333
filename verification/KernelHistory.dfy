/** The kernel's gate and velocities as functions of the whole history of events. */
module KernelHistory {
  import opened Bytes
  import opened PingMessage
  import opened KermitKernel

  // ---------------------------------------------------------------- the gate

  predicate LastDecisive(events: seq<Event>, i: nat) {
    i < |events| && !Judge(events[i]).Neutral? && forall j :: i < j < |events| ==> Judge(events[j]).Neutral?
  }

  /** receiving_cvels is true exactly when the last decisive ping was an enabling one. */
  lemma {:induction false} GateIsLastVerdict(events: seq<Event>)
    ensures Run(events).gate <==> exists i: nat :: LastDecisive(events, i) && Judge(events[i]).Opens?
    decreases |events|
  {
    if events != [] {
      var n := |events| - 1;
      var before := events[..n];
      GateIsLastVerdict(before);
      if !Judge(events[n]).Neutral? {
        assert LastDecisive(events, n);
      } else {
        forall i: nat
          ensures LastDecisive(events, i) <==> LastDecisive(before, i)
        {
        }
        if i: nat :| LastDecisive(before, i) && Judge(before[i]).Opens? {
          assert LastDecisive(events, i);
        }
      }
    }
  }

  /** Which flag combinations enable: flags combined in one excess are settled by overwrite order. */
  lemma OpensIff(code: uint16, excess: uint64)
    ensures VerdictOf(code, excess).Opens? <==>
              || (&& code in {MOVE_TO_DUMP, MOVE_TO_MINE} && Has(excess, START_DRIVING)
                  && !Has(excess, STOP_DRIVING) && !Has(excess, EXITING_STATE))
              || (code == CLEAN_EXIT && Has(excess, RETRACT_ALL) && !Has(excess, SYS_OFF))
  {
  }

  /** And which close: the rest leaves the gate alone. */
  lemma ClosesIff(code: uint16, excess: uint64)
    ensures VerdictOf(code, excess).Closes? <==>
              || code == STOP_EVERYTHING
              || (&& code in {DUMP, MINE}
                  && (Has(excess, 1) || Has(excess, 2) || Has(excess, 4) || Has(excess, 8) || Has(excess, 16)))
              || (&& code in {MOVE_TO_DUMP, MOVE_TO_MINE}
                  && (Has(excess, STOP_DRIVING) || Has(excess, EXITING_STATE)
                      || (Has(excess, ENTERING_STATE) && !Has(excess, START_DRIVING))))
              || (code == INIT_STATE && (Has(excess, 1) || Has(excess, 2) || Has(excess, 4) || Has(excess, 8)))
              || (&& code == CLEAN_EXIT
                  && (Has(excess, SYS_OFF) || (Has(excess, ENTERING_STATE) && !Has(excess, RETRACT_ALL))))
  {
    FlagsOf(excess);
  }

  lemma FlagsOf(excess: uint64)
    ensures HasAny(excess, {1, 2, 4, 8}) <==> Has(excess, 1) || Has(excess, 2) || Has(excess, 4) || Has(excess, 8)
    ensures HasAny(excess, {1, 2, 4, 8, 16}) <==> HasAny(excess, {1, 2, 4, 8}) || Has(excess, 16)
  {
    var few, all: set<nat> := {1, 2, 4, 8}, {1, 2, 4, 8, 16};
    assert 1 in few && 2 in few && 4 in few && 8 in few && 16 in all && few <= all;
  }

  /** The assignments to receiving_cvels that each handler guards by a flag, in source order, in the
      numbers that go over the wire. */
  function Assignments(code: nat): seq<(nat, bool)> {
    if code == 2 || code == 4 then [(1, false), (2, false), (4, false), (8, false), (16, false)]
    else if code == 8 || code == 16 then [(1, false), (2, true), (4, false), (16, false)]
    else if code == 32 then [(1, false), (2, false), (4, false), (8, false)]
    else if code == 64 then [(1, false), (4, true), (8, false)]
    else []
  }

  predicate Made(excess: uint64, assignment: (nat, bool)) {
    assignment.0 > 0 && excess / assignment.0 % 2 == 1
  }

  /** Any request whatsoever: STOP_EVERYTHING closes the gate and zeroes the velocities; for every other
      code the gate is the value of the last assignment whose flag is set, or unchanged if no flag is, and
      the velocities stay. */
  lemma GateIsLastAssignment(s: State, code: uint16, excess: uint64)
    ensures var after, list := Step(s, Request(Ping(8, code, excess))), Assignments(code);
            && (code == 1 ==> after == State(false, [0, 0, 0, 0], [0, 0, 0, 0]))
            && (code != 1 ==>
                  && after.lin == s.lin && after.ang == s.ang
                  && (forall i :: 0 <= i < |list| && Made(excess, list[i])
                                  && (forall j :: i < j < |list| ==> !Made(excess, list[j])) ==>
                        after.gate == list[i].1)
                  && ((forall i :: 0 <= i < |list| ==> !Made(excess, list[i])) ==> after.gate == s.gate))
  {
    var list := Assignments(code);
    FlagsOf(excess);
    forall i | 0 <= i < |list| && Made(excess, list[i]) && forall j :: i < j < |list| ==> !Made(excess, list[j])
      ensures code != 1 ==> Step(s, Request(Ping(8, code, excess))).gate == list[i].1
    {
      assert i + 1 < |list| ==> !Made(excess, list[i + 1]);
      assert i + 2 < |list| ==> !Made(excess, list[i + 2]);
      assert i + 3 < |list| ==> !Made(excess, list[i + 3]);
    }
    if forall i :: 0 <= i < |list| ==> !Made(excess, list[i]) {
      assert |list| > 0 ==> !Made(excess, list[0]) && !Made(excess, list[1]) && !Made(excess, list[2]);
      assert |list| > 3 ==> !Made(excess, list[3]);
      assert |list| > 4 ==> !Made(excess, list[4]);
    }
  }

  /** The code is compared whole: it can change anything at all exactly when it is one of the seven, so a
      code with several bits set is no request. */
  lemma CombinedCodesAreIgnored(code: uint16)
    ensures (exists s: State, excess: uint64 :: Step(s, Request(Ping(STATE_REQUEST, code, excess))) != s)
            <==> code in {STOP_EVERYTHING, DUMP, MINE, MOVE_TO_DUMP, MOVE_TO_MINE, INIT_STATE, CLEAN_EXIT}
  {
    if code in {STOP_EVERYTHING, DUMP, MINE, MOVE_TO_DUMP, MOVE_TO_MINE, INIT_STATE, CLEAN_EXIT} {
      var s, e := State(true, ZERO, ZERO), Request(Ping(STATE_REQUEST, code, 1));
      assert Has(1, ENTERING_STATE) && !Has(1, 2) && !Has(1, 4) && !Has(1, 8) && !Has(1, 16);
      assert !Step(s, e).gate;
    }
  }

  // ---------------------------------------------------------------- the velocities

  predicate Writes(e: Event) {
    e.Drive? || IsStop(e)
  }

  predicate LastWrite(events: seq<Event>, i: nat) {
    i < |events| && Writes(events[i]) && forall j :: i < j < |events| ==> !Writes(events[j])
  }

  /** What an event leaves in the velocities: its payload if it is a cmd_vel that met an open gate. */
  function Contribution(events: seq<Event>, i: nat): (Word, Word)
    requires i < |events|
  {
    if events[i].Drive? && Run(events[..i]).gate then (events[i].lin, events[i].ang) else (ZERO, ZERO)
  }

  /** The stored velocities are always the contribution of the latest cmd_vel or STOP_EVERYTHING. */
  lemma {:induction false} VelocityProvenance(events: seq<Event>)
    ensures forall i: nat :: LastWrite(events, i) ==>
              (Run(events).lin, Run(events).ang) == Contribution(events, i)
    ensures (forall e :: e in events ==> !Writes(e)) ==> Run(events).lin == Run(events).ang == ZERO
    decreases |events|
  {
    if events != [] {
      var n := |events| - 1;
      var before := events[..n];
      VelocityProvenance(before);
      assert events[n] in events && forall e :: e in before ==> e in events;
      forall i: nat | LastWrite(events, i) && i < n
        ensures LastWrite(before, i) && Contribution(events, i) == Contribution(before, i)
      {
        assert before[..i] == events[..i];
      }
    }
  }

  lemma {:induction false} StaysClosed(events: seq<Event>, c: nat)
    requires c < |events| && Judge(events[c]).Closes?
    requires forall j :: c < j < |events| ==> !Judge(events[j]).Opens?
    ensures !Run(events).gate
    decreases |events|
  {
    if c < |events| - 1 {
      StaysClosed(events[..|events| - 1], c);
    }
  }

  /** After a gate-closing ping, with no enabling ping since, one cmd_vel is enough to stop the robot. */
  lemma OneDriveAfterCloseStops(events: seq<Event>, c: nat, d: nat)
    requires c < d < |events| && Judge(events[c]).Closes? && Writes(events[d])
    requires forall j :: c < j < |events| ==> !Judge(events[j]).Opens?
    ensures Run(events) == State(false, ZERO, ZERO)
  {
    StaysClosed(events, c);
    var i := d;
    while !LastWrite(events, i)
      invariant d <= i < |events| && Writes(events[i])
      decreases |events| - i
    {
      var j :| i < j < |events| && Writes(events[j]);
      i := j;
    }
    VelocityProvenance(events);
    StaysClosed(events[..i], c);
  }

  /** From standstill with the gate closed, the robot moves only on an enabling ping followed by a
      cmd_vel, and then at that cmd_vel's velocity. */
  lemma {:induction false} MovingNeedsOpenThenDrive(events: seq<Event>, m: nat)
    requires m <= |events| && Run(events[..m]) == State(false, ZERO, ZERO)
    requires Run(events).lin != ZERO || Run(events).ang != ZERO
    ensures exists o: nat, d: nat ::
              OpenThenDrive(events, m, o, d) && events[d].lin == Run(events).lin && events[d].ang == Run(events).ang
    decreases |events|
  {
    assert events[..|events|] == events;
    var n := |events| - 1;
    var before := events[..n];
    assert before[..m] == events[..m];
    if Writes(events[n]) {
      OpenedSince(before, m);
      var o: nat :| m <= o < n && Judge(before[o]).Opens?;
      assert OpenThenDrive(events, m, o, n);
    } else {
      MovingNeedsOpenThenDrive(before, m);
      var o: nat, d: nat :| OpenThenDrive(before, m, o, d)
        && before[d].lin == Run(before).lin && before[d].ang == Run(before).ang;
      assert OpenThenDrive(events, m, o, d);
    }
  }

  predicate OpenThenDrive(events: seq<Event>, m: nat, o: nat, d: nat) {
    m <= o < d < |events| && Judge(events[o]).Opens? && events[d].Drive?
  }

  lemma {:induction false} OpenedSince(events: seq<Event>, m: nat)
    requires m <= |events| && !Run(events[..m]).gate && Run(events).gate
    ensures exists o: nat :: m <= o < |events| && Judge(events[o]).Opens?
    decreases |events|
  {
    assert events[..|events|] == events;
    var n := |events| - 1;
    if !Judge(events[n]).Opens? {
      assert events[..n][..m] == events[..m];
      OpenedSince(events[..n], m);
      var o: nat :| m <= o < n && Judge(events[..n][o]).Opens?;
      assert Judge(events[o]).Opens?;
    }
  }

  // ---------------------------------------------------------------- the truncated ping

  lemma LowFlags(excess: uint64, flag: nat)
    requires flag in {1, 2, 4, 8, 16}
    ensures Has(excess, flag) == Has(excess % 0x1_0000_0000, flag)
  {
    var q, r := excess / 0x1_0000_0000, excess % 0x1_0000_0000;
    match flag
    case 1 => SameParity(excess, r, 0x8000_0000 * q);
    case 2 => Quotient(excess, 2, 0x8000_0000 * q + r / 2, r % 2); SameParity(excess / 2, r / 2, 0x4000_0000 * q);
    case 4 => Quotient(excess, 4, 0x4000_0000 * q + r / 4, r % 4); SameParity(excess / 4, r / 4, 0x2000_0000 * q);
    case 8 => Quotient(excess, 8, 0x2000_0000 * q + r / 8, r % 8); SameParity(excess / 8, r / 8, 0x1000_0000 * q);
    case 16 => Quotient(excess, 16, 0x1000_0000 * q + r / 16, r % 16); SameParity(excess / 16, r / 16, 0x800_0000 * q);
  }

  lemma SameParity(a: nat, b: nat, k: nat)
    requires a == 2 * k + b
    ensures a % 2 == b % 2
  {
  }

  lemma Quotient(n: nat, d: nat, q: nat, r: nat)
    requires d > 0 && n == d * q + r && r < d
    ensures n / d == q
  {
    var q' := n / d;
    if q' > q {
      MulMono(d, q + 1, q');
    } else if q' < q {
      MulMono(d, q' + 1, q);
    }
  }

  lemma MulMono(d: nat, a: nat, b: nat)
    requires a <= b
    ensures d * a <= d * b
  {
  }

  lemma LowHalfDecides(code: uint16, e1: uint64, e2: uint64)
    requires e1 % 0x1_0000_0000 == e2 % 0x1_0000_0000
    ensures VerdictOf(code, e1) == VerdictOf(code, e2)
  {
    forall f | f in {1, 2, 4, 8, 16}
      ensures Has(e1, f) == Has(e2, f)
    {
      LowFlags(e1, f);
      LowFlags(e2, f);
    }
  }

  /** End to end: eleven bytes of the sender's packet, followed by anything at all, have on the kernel
      the effect that the sender's whole ping would have had. */
  lemma TransmittedBytesDecide(s: State, p: Fields, mem: bytes)
    requires p.prot == PROTOCOL_VERSION && |mem| >= PING_MESSAGE_SIZE
    requires EncodePing(p)[..PING_HEADER_SIZE] <= mem
    ensures ReadablePing(mem)
    ensures var got := DecodePing(mem);
            Step(s, Request(Ping(got.kind, got.code, got.excess))) == Step(s, Request(Ping(p.kind, p.code, p.excess)))
  {
    TruncatedPing(p, mem);
    var got := DecodePing(mem);
    Remainder(got.excess, p.excess % 0x1_0000_0000, Load(mem, 11, 4));
    LowHalfDecides(p.code, got.excess, p.excess);
  }
}
