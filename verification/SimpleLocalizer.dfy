/** src/messages/pipe/Simple_Localizer.cpp: a filter that folds sensor messages into a path state and
    replaces each message by the encoded state. */
module SimpleLocalizer {
  import opened Bytes
  import opened Records
  import opened DataMessages
  import opened MessageRuns
  import opened MessageImages
  import opened RmtMessages

  datatype State = State(x: Word, y: Word, theta: Word, v: Word, w: Word)

  const START := State(ZERO, ZERO, ZERO, ZERO, ZERO)

  /** The memory that convert reads without checking the string's length. */
  predicate Readable(data: bytes) {
    |data| >= SlotOf(0) + 4 && (KindOf(data) != -1 ==> |data| >= SlotOf(3) + 4)
  }

  function Updated(s: State, data: bytes): State
    requires Readable(data)
  {
    match KindOf(data)
    case 1 => s.(v := LoadWord(data, SlotOf(1)), w := LoadWord(data, SlotOf(2)))
    case 2 => s.(x := LoadWord(data, SlotOf(1)), y := LoadWord(data, SlotOf(2)), theta := LoadWord(data, SlotOf(3)))
    case _ => s
  }

  function Values(s: State): seq<Word> {
    [s.x, s.y, s.theta, s.v, s.w]
  }

  lemma FiveFloats(s: State)
    ensures |Encode(Floats(Values(s)))| == 35
  {
    SevenApart(Floats(Values(s)));
  }

  /** The string that convert leaves: the path message, up to its byte_length. */
  function PathWire(size: nat, s: State): bytes
    requires 48 < size < 0x8000_0000
  {
    FiveFloats(s);
    Message(size, Floats(Values(s)), HEAD)[..48]
  }

  class Localizer {
    const path: PathState
    const sensor: TeensySensorArray
    const camera: CameraMsg
    const size: nat
    const maxFields: nat
    var state: State

    ghost function Repr(): set<object> {
      {this, path, path.buff, path.buff.data, sensor, sensor.msg, sensor.msg.buff, sensor.msg.buff.data,
       camera, camera.msg, camera.msg.buff, camera.msg.buff.data}
    }

    ghost predicate Valid()
      reads Repr()
    {
      && 48 < size < 0x8000_0000 && maxFields > 5
      && path.buff.data != sensor.msg.buff.data && path.buff.data != camera.msg.buff.data
      && path.buff != sensor.msg.buff && path.buff != camera.msg.buff
      && path.Valid() && sensor.Valid() && camera.Valid()
      && path.buff.data.Length == size
    }

    constructor (size: nat, maxFields: nat)
      requires 48 < size < 0x8000_0000 && maxFields > 5
      ensures Valid() && fresh(Repr()) && state == START && this.size == size
    {
      this.size, this.maxFields := size, maxFields;
      path := new PathState(size, maxFields);
      sensor := new TeensySensorArray(size, maxFields);
      camera := new CameraMsg(size, maxFields);
      state := START;
    }

    /** convert; the string that C++ overwrites in place is passed in and returned. */
    method Convert(incoming: bytes) returns (ret: int, outgoing: bytes)
      requires Valid() && Readable(incoming)
      modifies Repr()
      ensures Valid()
      ensures state == Updated(old(state), incoming)
      ensures outgoing == PathWire(size, state)
      ensures ret == KindOf(incoming)
      ensures ret == if incoming[15..19] == [1, 0, 0, 0] then 1 else if incoming[15..19] == [2, 0, 0, 0] then 2 else -1
      ensures ret == -1 ==> state == old(state)
    {
      ret := Receive(incoming);
      outgoing := Emit();
    }

    /** The first half of convert: interpret the message. */
    method Receive(incoming: bytes) returns (ret: int)
      requires Valid() && Readable(incoming)
      modifies this`state, sensor`v, sensor`w, sensor`dt, camera`x, camera`y, camera`theta, camera`dt
      ensures Valid()
      ensures state == Updated(old(state), incoming)
      ensures ret == KindOf(incoming)
    {
      var msg := new SensorMsg(size, maxFields);
      ret := msg.FromWire(incoming);
      if ret == 1 {
        var status := sensor.FromWire(incoming);
        TeensyUpdate(sensor.v, sensor.w);
      } else if ret == 2 {
        var status := camera.FromWire(incoming);
        CameraUpdate(camera.x, camera.y, camera.theta);
      } else {
        ret := -1;
      }
    }

    /** The second half of convert: encode the state. */
    method Emit() returns (outgoing: bytes)
      requires Valid()
      modifies path, path.buff.data
      ensures Valid() && state == old(state)
      ensures outgoing == PathWire(size, state)
    {
      path.x, path.y := state.x, state.y;
      path.theta := state.theta;
      path.v := state.v;
      path.w := state.w;
      var written := path.ToWire();
      FiveFloats(state);
      outgoing := path.buff.data[..path.buff.byteLength];
    }

    method TeensyUpdate(v: Word, w: Word)
      modifies this`state
      ensures state == old(state).(v := v, w := w)
    {
      state := state.(v := v, w := w);
    }

    method CameraUpdate(x: Word, y: Word, theta: Word)
      modifies this`state
      ensures state == old(state).(x := x, y := y, theta := theta)
    {
      state := state.(x := x, y := y, theta := theta);
    }
  }

  // ---------------------------------------------------------------- whole runs

  datatype Input = Teensy(v: Word, w: Word, dt: Word) | Camera(x: Word, y: Word, theta: Word, dt: Word) | Unknown

  /** The teensy message: byte_length bytes. */
  function TeensyWire(size: nat, v: Word, w: Word, dt: Word): bytes
    requires 41 < size < 0x8000_0000
  {
    SevenApart(SensorFields(TEENSY_MSG, [v, w, dt]));
    Message(size, SensorFields(TEENSY_MSG, [v, w, dt]), HEAD)[..41]
  }

  /** The string that the sender of an input puts on the wire: byte_length bytes of its message. */
  function InputWire(size: nat, i: Input): bytes
    requires 48 < size < 0x8000_0000 && !i.Unknown?
  {
    match i
    case Teensy(v, w, dt) => TeensyWire(size, v, w, dt)
    case Camera(x, y, theta, dt) =>
      SevenApart(CameraFields([x, y, theta]));
      Message(size, CameraFields([x, y, theta]), dt)[..48]
  }

  /** A received string that carries the input; an unknown message is one whose type word is neither 1
      nor 2. */
  ghost predicate Carried(size: nat, data: bytes, i: Input)
    requires 48 < size < 0x8000_0000
  {
    if i.Unknown? then |data| >= 19 && data[15..19] != [1, 0, 0, 0] && data[15..19] != [2, 0, 0, 0]
    else InputWire(size, i) <= data
  }

  function Effect(s: State, i: Input): State {
    match i
    case Teensy(v, w, _) => s.(v := v, w := w)
    case Camera(x, y, theta, _) => s.(x := x, y := y, theta := theta)
    case Unknown => s
  }

  /** What convert returns for an input. */
  function ReturnFor(i: Input): int {
    match i
    case Teensy(_, _, _) => 1
    case Camera(_, _, _, _) => 2
    case Unknown => -1
  }

  /** Decoding what the sender encoded changes the state by what the sender meant, and returns the
      message's type; any other message changes nothing and returns -1. */
  lemma DecodedEffect(size: nat, data: bytes, i: Input, s: State)
    requires 48 < size < 0x8000_0000 && Carried(size, data, i)
    ensures Readable(data) && Updated(s, data) == Effect(s, i) && KindOf(data) == ReturnFor(i)
  {
    match i
    case Unknown =>
    case Teensy(v, w, dt) => TeensyLoads(size, data, v, w, dt);
    case Camera(x, y, theta, dt) => CameraLoads(size, data, x, y, theta, dt);
  }

  lemma TeensyLoads(size: nat, data: bytes, v: Word, w: Word, dt: Word)
    requires 48 < size < 0x8000_0000 && TeensyWire(size, v, w, dt) <= data
    ensures |data| >= SlotOf(3) + 4 && LoadWord(data, SlotOf(0)) == TEENSY_MSG
    ensures LoadWord(data, SlotOf(1)) == v && LoadWord(data, SlotOf(2)) == w && LoadWord(data, SlotOf(3)) == dt
  {
    var recs := SensorFields(TEENSY_MSG, [v, w, dt]);
    SevenApart(recs);
    MessageLoads(size, recs, HEAD, data, 0);
    MessageLoads(size, recs, HEAD, data, 1);
    MessageLoads(size, recs, HEAD, data, 2);
    MessageLoads(size, recs, HEAD, data, 3);
  }

  lemma CameraLoads(size: nat, data: bytes, x: Word, y: Word, theta: Word, dt: Word)
    requires 48 < size < 0x8000_0000 && InputWire(size, Camera(x, y, theta, dt)) <= data
    ensures |data| >= SlotOf(3) + 4 && LoadWord(data, SlotOf(0)) == CAMERA_MESSAGE
    ensures LoadWord(data, SlotOf(1)) == x && LoadWord(data, SlotOf(2)) == y && LoadWord(data, SlotOf(3)) == theta
  {
    var recs := CameraFields([x, y, theta]);
    SevenApart(recs);
    MessageLoads(size, recs, dt, data, 0);
    MessageLoads(size, recs, dt, data, 1);
    MessageLoads(size, recs, dt, data, 2);
    MessageLoads(size, recs, dt, data, 3);
  }

  function After(datas: seq<bytes>): State
    requires forall d :: d in datas ==> Readable(d)
  {
    if datas == [] then START
    else Updated(After(datas[..|datas| - 1]), datas[|datas| - 1])
  }

  ghost predicate AllCarried(size: nat, datas: seq<bytes>, inputs: seq<Input>)
    requires 48 < size < 0x8000_0000
  {
    |datas| == |inputs| && forall k :: 0 <= k < |datas| ==> Carried(size, datas[k], inputs[k])
  }

  /** i is the last input of its kind. */
  predicate LastCamera(inputs: seq<Input>, i: nat) {
    i < |inputs| && inputs[i].Camera? && forall j :: i < j < |inputs| ==> !inputs[j].Camera?
  }

  predicate LastTeensy(inputs: seq<Input>, i: nat) {
    i < |inputs| && inputs[i].Teensy? && forall j :: i < j < |inputs| ==> !inputs[j].Teensy?
  }

  function Meant(inputs: seq<Input>): State {
    if inputs == [] then START
    else Effect(Meant(inputs[..|inputs| - 1]), inputs[|inputs| - 1])
  }

  lemma {:induction false} MeantPose(inputs: seq<Input>, i: nat)
    requires LastCamera(inputs, i)
    ensures Meant(inputs).x == inputs[i].x && Meant(inputs).y == inputs[i].y && Meant(inputs).theta == inputs[i].theta
    decreases |inputs|
  {
    if i < |inputs| - 1 {
      MeantPose(inputs[..|inputs| - 1], i);
    }
  }

  lemma {:induction false} MeantVelocity(inputs: seq<Input>, i: nat)
    requires LastTeensy(inputs, i)
    ensures Meant(inputs).v == inputs[i].v && Meant(inputs).w == inputs[i].w
    decreases |inputs|
  {
    if i < |inputs| - 1 {
      MeantVelocity(inputs[..|inputs| - 1], i);
    }
  }

  lemma {:induction false} MeantNothing(inputs: seq<Input>)
    ensures (forall i :: i in inputs ==> !i.Camera?)
            ==> Meant(inputs).x == Meant(inputs).y == Meant(inputs).theta == ZERO
    ensures (forall i :: i in inputs ==> !i.Teensy?) ==> Meant(inputs).v == Meant(inputs).w == ZERO
    decreases |inputs|
  {
    if inputs != [] {
      MeantNothing(inputs[..|inputs| - 1]);
      assert inputs[|inputs| - 1] in inputs;
    }
  }

  lemma {:induction false} AfterIsMeant(size: nat, datas: seq<bytes>, inputs: seq<Input>)
    requires 48 < size < 0x8000_0000 && AllCarried(size, datas, inputs)
    ensures forall d :: d in datas ==> Readable(d)
    ensures After(datas) == Meant(inputs)
    decreases |datas|
  {
    forall k | 0 <= k < |datas|
      ensures Readable(datas[k])
    {
      DecodedEffect(size, datas[k], inputs[k], START);
    }
    if datas != [] {
      var n := |datas| - 1;
      AfterIsMeant(size, datas[..n], inputs[..n]);
      DecodedEffect(size, datas[n], inputs[n], After(datas[..n]));
    }
  }

  ghost predicate LatestState(inputs: seq<Input>, s: State) {
    && (forall i: nat :: LastCamera(inputs, i) ==>
          s.x == inputs[i].x && s.y == inputs[i].y && s.theta == inputs[i].theta)
    && (forall i: nat :: LastTeensy(inputs, i) ==> s.v == inputs[i].v && s.w == inputs[i].w)
    && ((forall i :: i in inputs ==> !i.Camera?) ==> s.x == s.y == s.theta == ZERO)
    && ((forall i :: i in inputs ==> !i.Teensy?) ==> s.v == s.w == ZERO)
  }

  /** After any run, the pose is that of the latest camera message and the velocities are those of the
      latest teensy message, or zero where there was none; unknown messages count for nothing. */
  lemma LatestWins(size: nat, datas: seq<bytes>, inputs: seq<Input>)
    requires 48 < size < 0x8000_0000 && AllCarried(size, datas, inputs)
    ensures forall d :: d in datas ==> Readable(d)
    ensures LatestState(inputs, After(datas))
  {
    AfterIsMeant(size, datas, inputs);
    MeantNothing(inputs);
    forall i: nat | LastCamera(inputs, i)
      ensures Meant(inputs).x == inputs[i].x && Meant(inputs).y == inputs[i].y
      ensures Meant(inputs).theta == inputs[i].theta
    {
      MeantPose(inputs, i);
    }
    forall i: nat | LastTeensy(inputs, i)
      ensures Meant(inputs).v == inputs[i].v && Meant(inputs).w == inputs[i].w
    {
      MeantVelocity(inputs, i);
    }
  }

  /** Any reader of the output gets the state back, by the walk and by cached offsets alike. */
  lemma OutputDecodes(size: nat, s: State, memory: bytes, dst: bytes, k: nat, maxFields: nat)
    requires 48 < size < 0x8000_0000 && maxFields > 5 && k < 5
    requires PathWire(size, s) <= memory
    ensures |memory| >= SlotOf(k) + 4 && LoadWord(memory, SlotOf(k)) == Values(s)[k]
    ensures var l := Lookup(memory, dst, k, maxFields);
            l == Found(4, FLOAT, SlotOf(k)) && Fetched(memory, dst, l) == Values(s)[k]
  {
    var recs := Floats(Values(s));
    FiveFloats(s);
    MessageLoads(size, recs, HEAD, memory, k);
    CachedOffsetRefinesWalk(memory, recs, dst, k, maxFields);
  }

  lemma AfterSnoc(datas: seq<bytes>, k: nat)
    requires k < |datas| && forall d :: d in datas ==> Readable(d)
    ensures After(datas[..k + 1]) == Updated(After(datas[..k]), datas[k])
  {
    assert datas[..k + 1][..k] == datas[..k];
  }

  /** Output k encodes the state after k + 1 messages. */
  ghost predicate Filtered(size: nat, datas: seq<bytes>, outs: seq<bytes>)
    requires 48 < size < 0x8000_0000 && forall d :: d in datas ==> Readable(d)
  {
    |outs| <= |datas| && forall k :: 0 <= k < |outs| ==> outs[k] == PathWire(size, After(datas[..k + 1]))
  }

  lemma FilteredSnoc(size: nat, datas: seq<bytes>, outs: seq<bytes>, out: bytes)
    requires 48 < size < 0x8000_0000 && forall d :: d in datas ==> Readable(d)
    requires Filtered(size, datas, outs) && |outs| < |datas|
    requires out == PathWire(size, Updated(After(datas[..|outs|]), datas[|outs|]))
    ensures Filtered(size, datas, outs + [out])
  {
    AfterSnoc(datas, |outs|);
  }

  /** The filter run over a stream: the k-th output encodes the state after k + 1 messages. */
  method Filter(size: nat, maxFields: nat, datas: seq<bytes>) returns (outs: seq<bytes>)
    requires 48 < size < 0x8000_0000 && maxFields > 5
    requires forall d :: d in datas ==> Readable(d)
    ensures |outs| == |datas|
    ensures forall k :: 0 <= k < |outs| ==> outs[k] == PathWire(size, After(datas[..k + 1]))
  {
    var localizer := new Localizer(size, maxFields);
    outs := [];
    for k := 0 to |datas|
      invariant localizer.Valid() && fresh(localizer.Repr()) && localizer.size == size
      invariant localizer.state == After(datas[..k])
      invariant |outs| == k && Filtered(size, datas, outs)
    {
      AfterSnoc(datas, k);
      var ret, out := localizer.Convert(datas[k]);
      FilteredSnoc(size, datas, outs, out);
      outs := outs + [out];
    }
  }

  /** What get_data copies out of field f of a message. */
  function Field(memory: bytes, dst: bytes, f: nat, maxFields: nat): Option<bytes> {
    var l := Lookup(memory, dst, f, maxFields);
    if l.Found? then Some(Fetched(memory, dst, l)) else None
  }

  /** The state that a generic reader of a path message makes out, if every field is there. */
  function Decoded(memory: bytes, dst: bytes, maxFields: nat): Option<State> {
    var fields := seq(5, f requires 0 <= f < 5 => Field(memory, dst, f, maxFields));
    if forall f :: 0 <= f < 5 ==> fields[f].Some? && |fields[f].value| == 4
    then Some(State(fields[0].value, fields[1].value, fields[2].value, fields[3].value, fields[4].value))
    else None
  }

  lemma FieldDecodes(size: nat, s: State, memory: bytes, dst: bytes, f: nat, maxFields: nat)
    requires 48 < size < 0x8000_0000 && maxFields > 5 && PathWire(size, s) <= memory && f < 5
    ensures Field(memory, dst, f, maxFields) == Some(Values(s)[f])
  {
    OutputDecodes(size, s, memory, dst, f, maxFields);
  }

  lemma FieldsDecode(memory: bytes, dst: bytes, maxFields: nat, s: State)
    requires forall f :: 0 <= f < 5 ==> Field(memory, dst, f, maxFields) == Some(Values(s)[f])
    ensures Decoded(memory, dst, maxFields) == Some(s)
  {
    var fields := seq(5, f requires 0 <= f < 5 => Field(memory, dst, f, maxFields));
    assert forall f :: 0 <= f < 5 ==> fields[f] == Some(Values(s)[f]);
  }

  /** End to end over a stream: what any reader decodes from the k-th output is the pose of the latest
      camera message and the velocities of the latest teensy message among the first k + 1, or zero where
      there was none. */
  lemma StreamDecodes(size: nat, datas: seq<bytes>, inputs: seq<Input>, outs: seq<bytes>, k: nat, dst: bytes,
                      maxFields: nat)
    requires 48 < size < 0x8000_0000 && maxFields > 5 && AllCarried(size, datas, inputs)
    requires k < |outs| == |datas|
    requires forall d :: d in datas ==> Readable(d)
    requires forall j :: 0 <= j < |outs| ==> outs[j] == PathWire(size, After(datas[..j + 1]))
    ensures var r := Decoded(outs[k], dst, maxFields);
            r.Some? && LatestState(inputs[..k + 1], r.value)
  {
    var s := After(datas[..k + 1]);
    LatestWins(size, datas[..k + 1], inputs[..k + 1]);
    forall f | 0 <= f < 5
      ensures Field(outs[k], dst, f, maxFields) == Some(Values(s)[f])
    {
      FieldDecodes(size, s, outs[k], dst, f, maxFields);
    }
    FieldsDecode(outs[k], dst, maxFields, s);
  }
}
