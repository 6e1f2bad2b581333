/** src/kernel/KermitKernel.cpp: the robot's command state machine, and what it has done after any
    history of pings and drive messages. */
module KermitKernel {
  import opened Bytes
  import opened MessageImages
  import opened RmtMessages
  import opened PingMessage
  import SimpleLocalizer

  const STOP_EVERYTHING: uint16 := 1
  const DUMP: uint16 := 2
  const MINE: uint16 := 4
  const MOVE_TO_DUMP: uint16 := 8
  const MOVE_TO_MINE: uint16 := 16
  const INIT_STATE: uint16 := 32
  const CLEAN_EXIT: uint16 := 64

  const ENTERING_STATE: nat := 1
  const EXITING_STATE: nat := 16

  const START_DUMPING: nat := 2
  const CLEAN_END_DUMPING: nat := 4
  const ABORT_DUMPING: nat := 8
  const START_MINING: nat := 2
  const ABORT_MINING: nat := 4
  const CLEAN_END_MINING: nat := 8
  const START_DRIVING: nat := 2
  const STOP_DRIVING: nat := 4
  const SYS_ON: nat := 2
  const ZERO_ALL: nat := 4
  const DEPLOY_CAMERA: nat := 8
  const RETRACT_ALL: nat := 4
  const SYS_OFF: nat := 8

  /** `excess & flag` for a one-bit flag. */
  predicate Has(excess: uint64, flag: nat)
    requires flag > 0
  {
    excess / flag % 2 == 1
  }

  // ---------------------------------------------------------------- what a ping means

  datatype Verdict = Opens | Closes | Neutral

  predicate HasAny(excess: uint64, flags: set<nat>)
    requires 0 !in flags
  {
    exists f :: f in flags && Has(excess, f)
  }

  /** Which flags decide, in the order of strength that the handlers' overwrites give them. */
  function VerdictOf(code: uint16, excess: uint64): Verdict {
    if code == STOP_EVERYTHING then Closes
    else if code == MOVE_TO_DUMP || code == MOVE_TO_MINE then
      if Has(excess, STOP_DRIVING) || Has(excess, EXITING_STATE) then Closes
      else if Has(excess, START_DRIVING) then Opens
      else if Has(excess, ENTERING_STATE) then Closes
      else Neutral
    else if code == CLEAN_EXIT then
      if Has(excess, SYS_OFF) then Closes
      else if Has(excess, RETRACT_ALL) then Opens
      else if Has(excess, ENTERING_STATE) then Closes
      else Neutral
    else if code == DUMP || code == MINE then
      if HasAny(excess, {1, 2, 4, 8, 16}) then Closes else Neutral
    else if code == INIT_STATE then
      if HasAny(excess, {1, 2, 4, 8}) then Closes else Neutral
    else Neutral
  }

  /** What reaches the kernel's callbacks: a decoded ping, or a decoded cmd_vel. */
  datatype Event = Request(p: Ping) | Drive(lin: Word, ang: Word)

  datatype State = State(gate: bool, lin: Word, ang: Word)

  const INITIAL := State(false, ZERO, ZERO)

  function Judge(e: Event): Verdict {
    if e.Request? && e.p.kind == STATE_REQUEST then VerdictOf(e.p.code, e.p.excess) else Neutral
  }

  predicate IsStop(e: Event) {
    e.Request? && e.p.kind == STATE_REQUEST && e.p.code == STOP_EVERYTHING
  }

  function NextGate(gate: bool, e: Event): bool {
    match Judge(e)
    case Opens => true
    case Closes => false
    case Neutral => gate
  }

  function Step(s: State, e: Event): State {
    match e
    case Drive(lin, ang) => if s.gate then s.(lin := lin, ang := ang) else s.(lin := ZERO, ang := ZERO)
    case Request(_) => if IsStop(e) then State(false, ZERO, ZERO) else s.(gate := NextGate(s.gate, e))
  }

  function Run(events: seq<Event>): State {
    if events == [] then INITIAL else Step(Run(events[..|events| - 1]), events[|events| - 1])
  }

  // ---------------------------------------------------------------- the C++ code

  class Kernel {
    var receivingCvels: bool
    var lin: Word
    var ang: Word
    var measuredV: Word
    var measuredW: Word
    var measuredErr: Word
    var measuredDt: Word
    const cvelBuffer: CmdVel
    const teensyBuffer: TeensySensorArray

    ghost function View(): State
      reads this
    {
      State(receivingCvels, lin, ang)
    }

    ghost predicate Valid()
      reads this, cvelBuffer, cvelBuffer.buff, cvelBuffer.buff.data, teensyBuffer, teensyBuffer.msg,
            teensyBuffer.msg.buff, teensyBuffer.msg.buff.data
    {
      cvelBuffer.Valid() && teensyBuffer.Valid() && cvelBuffer.buff.data != teensyBuffer.msg.buff.data
    }

    constructor (size: nat, maxFields: nat)
      requires 41 < size < 0x8000_0000 && maxFields > 4
      ensures Valid() && View() == INITIAL
      ensures teensyBuffer.msg.buff.data.Length == size
    {
      cvelBuffer := new CmdVel(size, maxFields);
      teensyBuffer := new TeensySensorArray(size, maxFields);
      receivingCvels := false;
      measuredV, measuredW, measuredErr, measuredDt := ZERO, ZERO, ZERO, ZERO;
      lin, ang := ZERO, ZERO;
    }

    method UpdateTeensyMessage(lin: Word, ang: Word)
      modifies this`lin, this`ang
      ensures this.lin == lin && this.ang == ang
    {
      this.lin := lin;
      this.ang := ang;
    }

    method DriveMessageSubscribeCallback(message: bytes)
      requires Valid() && |message| >= SlotOf(1) + 4
      modifies this`lin, this`ang, cvelBuffer`lin, cvelBuffer`ang
      ensures Valid()
      ensures View() == Step(old(View()), Drive(LoadWord(message, SlotOf(0)), LoadWord(message, SlotOf(1))))
    {
      var status := cvelBuffer.FromWire(message);
      var linear, angular := cvelBuffer.lin, cvelBuffer.ang;
      if !receivingCvels {
        UpdateTeensyMessage(ZERO, ZERO);
        return;
      }
      UpdateTeensyMessage(linear, angular);
    }

    method RobotPingHandler(p: Ping) returns (ret: Ping)
      modifies this`receivingCvels, this`lin, this`ang
      ensures View() == Step(old(View()), Request(p.(kind := STATE_REQUEST)))
      ensures ret == Ping(ACK, 0, 0)
    {
      ret := Ping(ACK, 0, 0);
      if p.code == STOP_EVERYTHING {
        StopEverythingHandler();
      } else if p.code == DUMP {
        DumpHandler(p.excess);
      } else if p.code == MINE {
        MineHandler(p.excess);
      } else if p.code == MOVE_TO_DUMP {
        MoveToDumpHandler(p.excess);
      } else if p.code == MOVE_TO_MINE {
        MoveToMineHandler(p.excess);
      } else if p.code == INIT_STATE {
        InitHandler(p.excess);
      } else if p.code == CLEAN_EXIT {
        CleanExitHandler(p.excess);
      }
    }

    method StopEverythingHandler()
      modifies this`receivingCvels, this`lin, this`ang
      ensures View() == State(false, ZERO, ZERO)
    {
      receivingCvels := false;
      UpdateTeensyMessage(ZERO, ZERO);
    }

    method DumpHandler(excess: uint64)
      modifies this`receivingCvels
      ensures receivingCvels == (VerdictOf(DUMP, excess).Neutral? && old(receivingCvels))
    {
      if Has(excess, ENTERING_STATE) {
        receivingCvels := false;
      }
      if Has(excess, START_DUMPING) {
        receivingCvels := false;
      }
      if Has(excess, CLEAN_END_DUMPING) {
        receivingCvels := false;
      }
      if Has(excess, ABORT_DUMPING) {
        receivingCvels := false;
      }
      if Has(excess, EXITING_STATE) {
        receivingCvels := false;
      }
    }

    method MineHandler(excess: uint64)
      modifies this`receivingCvels
      ensures receivingCvels == (VerdictOf(MINE, excess).Neutral? && old(receivingCvels))
    {
      if Has(excess, ENTERING_STATE) {
        receivingCvels := false;
      }
      if Has(excess, START_MINING) {
        receivingCvels := false;
      }
      if Has(excess, CLEAN_END_MINING) {
        receivingCvels := false;
      }
      if Has(excess, ABORT_MINING) {
        receivingCvels := false;
      }
      if Has(excess, EXITING_STATE) {
        receivingCvels := false;
      }
    }

    method MoveToMineHandler(excess: uint64)
      modifies this`receivingCvels
      ensures receivingCvels == Decided(VerdictOf(MOVE_TO_MINE, excess), old(receivingCvels))
    {
      if Has(excess, ENTERING_STATE) {
        receivingCvels := false;
      }
      if Has(excess, START_DRIVING) {
        receivingCvels := true;
      }
      if Has(excess, STOP_DRIVING) {
        receivingCvels := false;
      }
      if Has(excess, EXITING_STATE) {
        receivingCvels := false;
      }
    }

    method MoveToDumpHandler(excess: uint64)
      modifies this`receivingCvels
      ensures receivingCvels == Decided(VerdictOf(MOVE_TO_DUMP, excess), old(receivingCvels))
    {
      if Has(excess, ENTERING_STATE) {
        receivingCvels := false;
      }
      if Has(excess, START_DRIVING) {
        receivingCvels := true;
      }
      if Has(excess, STOP_DRIVING) {
        receivingCvels := false;
      }
      if Has(excess, EXITING_STATE) {
        receivingCvels := false;
      }
    }

    method InitHandler(excess: uint64)
      modifies this`receivingCvels
      ensures receivingCvels == (VerdictOf(INIT_STATE, excess).Neutral? && old(receivingCvels))
    {
      if Has(excess, ENTERING_STATE) {
        receivingCvels := false;
      }
      if Has(excess, SYS_ON) {
        receivingCvels := false;
      }
      if Has(excess, ZERO_ALL) {
        receivingCvels := false;
      }
      if Has(excess, DEPLOY_CAMERA) {
        receivingCvels := false;
      }
    }

    method CleanExitHandler(excess: uint64)
      modifies this`receivingCvels
      ensures receivingCvels == Decided(VerdictOf(CLEAN_EXIT, excess), old(receivingCvels))
    {
      if Has(excess, ENTERING_STATE) {
        receivingCvels := false;
      }
      if Has(excess, RETRACT_ALL) {
        receivingCvels := true;
      }
      if Has(excess, SYS_OFF) {
        receivingCvels := false;
      }
    }

    method GetTeensyMeasuredVals() returns (v: Word, w: Word, wErr: Word, dt: Word)
      ensures v == measuredV && w == measuredW && wErr == measuredErr && dt == measuredDt
    {
      v, w, wErr, dt := measuredV, measuredW, measuredErr, measuredDt;
    }

    /** What the kernel publishes is a teensy message that the localizer's filter understands. */
    method LocalizerCmdGetData() returns (out: bytes)
      requires Valid()
      modifies teensyBuffer, teensyBuffer.msg.buff.data
      ensures Valid() && View() == old(View())
      ensures 41 < teensyBuffer.msg.buff.data.Length < 0x8000_0000
      ensures out == SimpleLocalizer.TeensyWire(teensyBuffer.msg.buff.data.Length, measuredV, measuredW, measuredDt)
    {
      var v, w, wErr, dt := GetTeensyMeasuredVals();
      teensyBuffer.v, teensyBuffer.w, teensyBuffer.dt := v, w, dt;
      var status := teensyBuffer.ToWire();
      SevenApart(SensorFields(TEENSY_MSG, [v, w, dt]));
      assert teensyBuffer.onWire[1..] == [v, w, dt];
      out := teensyBuffer.msg.buff.data[..teensyBuffer.msg.buff.byteLength];
    }
  }

  function Decided(v: Verdict, gate: bool): bool {
    match v
    case Opens => true
    case Closes => false
    case Neutral => gate
  }
}
