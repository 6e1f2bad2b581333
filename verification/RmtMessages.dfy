/** src/messages/rmt_messages.c: the robot messages, which look their payload offsets up once and
    then load and store through them without walking the records. */
module RmtMessages {
  import opened Bytes
  import opened Records
  import opened DataMessages
  import opened MessageRuns
  import opened MessageImages

  const TEENSY_MSG: Word := [1, 0, 0, 0]
  const CAMERA_MESSAGE: Word := [2, 0, 0, 0]

  // ---------------------------------------------------------------- building a message

  /** One serialize_data call of a create_ function. */
  method AppendWord(buff: DataBuffer, w: Word, code: byte, ghost recs: seq<Record>)
    returns (ghost recs': seq<Record>)
    requires code == FLOAT || code == INT32
    requires Building(buff.View(), recs) && FourBytes(recs)
    requires DATA_HEADER_SIZE + 7 * |recs| + 7 < buff.data.Length
    modifies buff, buff.data
    ensures recs' == recs + [Rec(code, w)]
    ensures Building(buff.View(), recs') && FourBytes(recs')
  {
    recs' := recs + [Rec(code, w)];
    SevenApart(recs);
    AppendKeepsFrames(buff.View(), recs, At(w), 4, code);
    assert FieldOf(w, 4, code) == Rec(code, w);
    var status := buff.SerializeData(At(w), 4, code);
  }

  /** The to_wire call of a create_ function. */
  method Finish(buff: DataBuffer, ghost recs: seq<Record>)
    requires Building(buff.View(), recs) && FourBytes(recs)
    modifies buff.data
    ensures Carries(buff, recs, HEAD)
    ensures Building(buff.View(), recs)
  {
    PublishedImage(buff.View(), recs);
    PublishedFrames(buff.View(), recs);
    HeaderIntactIff(buff.data.Length, recs, HEAD);
    buff.ToWire();
  }

  /** `(size_t)(get_data(buff.data, &field, i).data - buff.data)`, which also loads the field. */
  method CacheIndex(buff: DataBuffer, i: nat, maxFields: nat, ghost recs: seq<Record>)
    returns (index: nat, value: Word)
    requires Carries(buff, recs, HEAD) && i < |recs| < maxFields && |recs| < 0x1_0000
    ensures index == SlotOf(i) && value == recs[i].payload
  {
    var dst := new byte[4](_ => 0);
    MessageShows(buff.data.Length, recs, HEAD);
    CachedOffsetRefinesWalk(buff.data[..], recs, dst[..], i, maxFields);
    var e := GetData(At(buff.data[..]), dst, i, maxFields);
    index := e.offset;
    value := dst[..];
  }

  /** `*(float*)(buff.data + indexes[i]) = w` */
  method StoreSlot(buff: DataBuffer, index: nat, w: Word, i: nat, ghost recs: seq<Record>, ghost head: Word)
    returns (ghost recs': seq<Record>)
    requires Carries(buff, recs, head) && i < |recs| && index == SlotOf(i)
    modifies buff.data
    ensures recs' == recs[i := Rec(recs[i].code, w)] && Carries(buff, recs', head)
  {
    recs' := recs[i := Rec(recs[i].code, w)];
    MessageStore(buff.data.Length, recs, head, i, w);
    StoreWord(buff.data, index, w);
  }

  // ---------------------------------------------------------------- cmd_vel

  class CmdVel {
    var lin: Word
    var ang: Word
    var indexes: seq<nat>
    const buff: DataBuffer
    ghost var onWire: seq<Word>

    ghost predicate Valid()
      reads this, buff, buff.data
    {
      && indexes == [SlotOf(0), SlotOf(1)]
      && |onWire| == 2 && Carries(buff, Floats(onWire), HEAD)
    }

    /** create_cmd_vel */
    constructor (size: nat, maxFields: nat)
      requires 27 < size < 0x8000_0000 && maxFields > 2
      ensures Valid() && fresh(buff) && fresh(buff.data) && buff.data.Length == size
      ensures onWire == [ZERO, ZERO] && lin == ang == ZERO
    {
      lin, ang, indexes := ZERO, ZERO, [];
      buff := new DataBuffer(size);
      onWire := [ZERO, ZERO];
      new;
      CreatedFrames(size);
      ghost var recs := AppendWord(buff, lin, FLOAT, []);
      recs := AppendWord(buff, ang, FLOAT, recs);
      assert recs == Floats(onWire);
      Finish(buff, recs);
      var i0, i1;
      i0, lin := CacheIndex(buff, 0, maxFields, recs);
      i1, ang := CacheIndex(buff, 1, maxFields, recs);
      indexes := [i0, i1];
    }

    /** cmd_vel_to_wire */
    method ToWire() returns (status: int)
      requires Valid()
      modifies this`onWire, buff.data
      ensures Valid() && onWire == [lin, ang] && status == 1
    {
      ghost var recs := StoreSlot(buff, indexes[0], lin, 0, Floats(onWire), HEAD);
      recs := StoreSlot(buff, indexes[1], ang, 1, recs, HEAD);
      onWire := [lin, ang];
      assert recs == Floats(onWire);
      status := 1;
    }

    /** cmd_vel_from_wire */
    method FromWire(data: bytes) returns (status: int)
      requires Valid() && |data| >= SlotOf(1) + 4
      modifies this`lin, this`ang
      ensures lin == LoadWord(data, SlotOf(0)) && ang == LoadWord(data, SlotOf(1)) && status == 1
    {
      lin := LoadWord(data, indexes[0]);
      ang := LoadWord(data, indexes[1]);
      status := 1;
    }
  }

  /** What a receiver's cmd_vel_from_wire loads from any memory that starts with the byte_length bytes
      a sender's cmd_vel_to_wire left, it also gets by walking the records. */
  lemma CmdVelCarried(size: nat, lin: Word, ang: Word, data: bytes, dst: bytes, maxFields: nat)
    requires 27 < size < 0x8000_0000 && maxFields > 2
    ensures |Encode(Floats([lin, ang]))| == 14
    ensures Message(size, Floats([lin, ang]), HEAD)[..27] <= data ==>
              && |data| >= SlotOf(1) + 4
              && LoadWord(data, SlotOf(0)) == lin && LoadWord(data, SlotOf(1)) == ang
              && Lookup(data, dst, 0, maxFields) == Found(4, FLOAT, SlotOf(0))
              && Lookup(data, dst, 1, maxFields) == Found(4, FLOAT, SlotOf(1))
              && Lookup(data, dst, 2, maxFields) == Erange
  {
    var recs := Floats([lin, ang]);
    SevenApart(recs);
    if Message(size, recs, HEAD)[..27] <= data {
      MessageLoads(size, recs, HEAD, data, 0);
      MessageLoads(size, recs, HEAD, data, 1);
      CachedOffsetRefinesWalk(data, recs, dst, 0, maxFields);
      CachedOffsetRefinesWalk(data, recs, dst, 1, maxFields);
    }
  }

  // ---------------------------------------------------------------- path_state

  class PathState {
    var x: Word
    var y: Word
    var theta: Word
    var v: Word
    var w: Word
    var indexes: seq<nat>
    const buff: DataBuffer
    ghost var onWire: seq<Word>

    ghost predicate Valid()
      reads this, buff, buff.data
    {
      && indexes == [SlotOf(0), SlotOf(1), SlotOf(2), SlotOf(3), SlotOf(4)]
      && |onWire| == 5 && Carries(buff, Floats(onWire), HEAD)
    }

    /** create_path_state */
    constructor (size: nat, maxFields: nat)
      requires 48 < size < 0x8000_0000 && maxFields > 5
      ensures Valid() && fresh(buff) && fresh(buff.data) && buff.data.Length == size
      ensures onWire == [ZERO, ZERO, ZERO, ZERO, ZERO]
    {
      x, y, theta, v, w, indexes := ZERO, ZERO, ZERO, ZERO, ZERO, [];
      buff := new DataBuffer(size);
      onWire := [ZERO, ZERO, ZERO, ZERO, ZERO];
      new;
      CreatedFrames(size);
      ghost var recs := AppendWord(buff, x, FLOAT, []);
      recs := AppendWord(buff, y, FLOAT, recs);
      recs := AppendWord(buff, theta, FLOAT, recs);
      recs := AppendWord(buff, v, FLOAT, recs);
      recs := AppendWord(buff, w, FLOAT, recs);
      assert recs == Floats(onWire);
      Finish(buff, recs);
      CacheAll(maxFields);
    }

    /** The get_data calls of create_path_state. */
    method CacheAll(maxFields: nat)
      requires |onWire| == 5 && Carries(buff, Floats(onWire), HEAD) && maxFields > 5
      modifies this`x, this`y, this`theta, this`v, this`w, this`indexes
      ensures Valid() && [x, y, theta, v, w] == onWire
    {
      ghost var recs := Floats(onWire);
      var i0, i1, i2, i3, i4;
      i0, x := CacheIndex(buff, 0, maxFields, recs);
      i1, y := CacheIndex(buff, 1, maxFields, recs);
      i2, theta := CacheIndex(buff, 2, maxFields, recs);
      i3, v := CacheIndex(buff, 3, maxFields, recs);
      i4, w := CacheIndex(buff, 4, maxFields, recs);
      indexes := [i0, i1, i2, i3, i4];
    }

    /** path_state_to_wire */
    method ToWire() returns (status: int)
      requires Valid()
      modifies this`onWire, buff.data
      ensures Valid() && onWire == [x, y, theta, v, w] && status == 1
    {
      ghost var recs := StoreSlot(buff, indexes[0], x, 0, Floats(onWire), HEAD);
      recs := StoreSlot(buff, indexes[1], y, 1, recs, HEAD);
      recs := StoreSlot(buff, indexes[2], theta, 2, recs, HEAD);
      recs := StoreSlot(buff, indexes[3], v, 3, recs, HEAD);
      recs := StoreSlot(buff, indexes[4], w, 4, recs, HEAD);
      onWire := [x, y, theta, v, w];
      assert recs == Floats(onWire);
      status := 1;
    }

    /** path_state_from_wire */
    method FromWire(data: bytes) returns (status: int)
      requires Valid() && |data| >= SlotOf(4) + 4
      modifies this`x, this`y, this`theta, this`v, this`w
      ensures [x, y, theta, v, w] == seq(5, i requires 0 <= i < 5 => LoadWord(data, SlotOf(i)))
      ensures status == 1
    {
      x := LoadWord(data, indexes[0]);
      y := LoadWord(data, indexes[1]);
      theta := LoadWord(data, indexes[2]);
      v := LoadWord(data, indexes[3]);
      w := LoadWord(data, indexes[4]);
      status := 1;
    }
  }

  // ---------------------------------------------------------------- sensor messages

  class SensorMsg {
    var kind: Word
    var indexes: seq<nat>
    const buff: DataBuffer

    /** create_sensor_msg */
    constructor (size: nat, maxFields: nat)
      requires 20 < size < 0x8000_0000 && maxFields > 1
      ensures indexes == [SlotOf(0)] && kind == ZERO
      ensures Building(buff.View(), SensorFields(ZERO, [])) && FourBytes(SensorFields(ZERO, []))
      ensures fresh(buff) && fresh(buff.data) && buff.data.Length == size
    {
      kind, indexes := ZERO, [];
      buff := new DataBuffer(size);
      new;
      CreatedFrames(size);
      ghost var recs := AppendWord(buff, kind, INT32, []);
      assert recs == SensorFields(ZERO, []);
      Finish(buff, recs);
      var i0;
      i0, kind := CacheIndex(buff, 0, maxFields, recs);
      indexes := [i0];
    }

    /** sensor_msg_from_wire */
    method FromWire(data: bytes) returns (ret: int)
      requires indexes == [SlotOf(0)] && |data| >= SlotOf(0) + 4
      modifies this`kind
      ensures ret == KindOf(data)
      ensures ret == 1 <==> data[15..19] == [1, 0, 0, 0]
      ensures ret == 2 <==> data[15..19] == [2, 0, 0, 0]
      ensures ret in {-1, 1, 2}
      ensures kind == if ret == -1 then old(kind) else LoadWord(data, SlotOf(0))
    {
      var id := LoadWord(data, indexes[0]);
      if id == CAMERA_MESSAGE {
        kind := CAMERA_MESSAGE;
        ret := 2;
      } else if id == TEENSY_MSG {
        kind := TEENSY_MSG;
        ret := 1;
      } else {
        ret := -1;
      }
    }
  }

  /** The type that sensor_msg_from_wire reads off a message: 1, 2 or -1. */
  function KindOf(data: bytes): int
    requires |data| >= SlotOf(0) + 4
  {
    if LoadWord(data, SlotOf(0)) == TEENSY_MSG then 1
    else if LoadWord(data, SlotOf(0)) == CAMERA_MESSAGE then 2
    else -1
  }

  class TeensySensorArray {
    var v: Word
    var w: Word
    var dt: Word
    var indexes: seq<nat>
    const msg: SensorMsg
    ghost var onWire: seq<Word>

    ghost predicate Valid()
      reads this, msg, msg.buff, msg.buff.data
    {
      && msg.kind == TEENSY_MSG && msg.indexes == [SlotOf(0)]
      && indexes == [SlotOf(1), SlotOf(2), SlotOf(3), 0]
      && |onWire| == 4 && Carries(msg.buff, SensorFields(onWire[0], onWire[1..]), HEAD)
    }

    /** create_teensy_sensor_array */
    constructor (size: nat, maxFields: nat)
      requires 41 < size < 0x8000_0000 && maxFields > 4
      ensures Valid() && fresh(msg) && fresh(msg.buff) && fresh(msg.buff.data)
      ensures msg.buff.data.Length == size
      ensures v == w == dt == ZERO && onWire == [ZERO, ZERO, ZERO, ZERO]
    {
      v, w, dt, indexes := ZERO, ZERO, ZERO, [];
      msg := new SensorMsg(size, maxFields);
      onWire := [ZERO, ZERO, ZERO, ZERO];
      new;
      msg.kind := TEENSY_MSG;
      ghost var recs := AppendWord(msg.buff, v, FLOAT, SensorFields(ZERO, []));
      recs := AppendWord(msg.buff, w, FLOAT, recs);
      recs := AppendWord(msg.buff, dt, FLOAT, recs);
      assert recs == SensorFields(ZERO, [ZERO, ZERO, ZERO]);
      Finish(msg.buff, recs);
      CacheAll(maxFields);
    }

    /** The get_data calls of create_teensy_sensor_array. */
    method CacheAll(maxFields: nat)
      requires |onWire| == 4 && Carries(msg.buff, SensorFields(onWire[0], onWire[1..]), HEAD) && maxFields > 4
      requires msg.kind == TEENSY_MSG && msg.indexes == [SlotOf(0)]
      modifies this`v, this`w, this`dt, this`indexes
      ensures Valid() && [v, w, dt] == onWire[1..]
    {
      ghost var recs := SensorFields(onWire[0], onWire[1..]);
      var i0, i1, i2;
      i0, v := CacheIndex(msg.buff, 1, maxFields, recs);
      i1, w := CacheIndex(msg.buff, 2, maxFields, recs);
      i2, dt := CacheIndex(msg.buff, 3, maxFields, recs);
      indexes := [i0, i1, i2, 0];
    }

    /** teensy_sensor_array_to_wire */
    method ToWire() returns (status: int)
      requires Valid()
      modifies this`onWire, msg.buff.data
      ensures Valid() && onWire == [TEENSY_MSG, v, w, dt] && status == 1
    {
      ghost var recs := SensorFields(onWire[0], onWire[1..]);
      recs := StoreSlot(msg.buff, msg.indexes[0], msg.kind, 0, recs, HEAD);
      recs := StoreSlot(msg.buff, indexes[0], v, 1, recs, HEAD);
      recs := StoreSlot(msg.buff, indexes[1], w, 2, recs, HEAD);
      recs := StoreSlot(msg.buff, indexes[2], dt, 3, recs, HEAD);
      onWire := [TEENSY_MSG, v, w, dt];
      assert recs == SensorFields(onWire[0], onWire[1..]);
      status := 1;
    }

    /** teensy_sensor_array_from_wire */
    method FromWire(data: bytes) returns (status: int)
      requires Valid() && |data| >= SlotOf(0) + 4
      requires KindOf(data) == 1 ==> |data| >= SlotOf(3) + 4
      modifies this`v, this`w, this`dt
      ensures status == if KindOf(data) == 1 then 1 else -1
      ensures status == if data[15..19] == [1, 0, 0, 0] then 1 else -1
      ensures [v, w, dt] == if status == 1
                            then [LoadWord(data, SlotOf(1)), LoadWord(data, SlotOf(2)), LoadWord(data, SlotOf(3))]
                            else old([v, w, dt])
    {
      if LoadWord(data, msg.indexes[0]) != TEENSY_MSG {
        return -1;
      }
      v := LoadWord(data, indexes[0]);
      w := LoadWord(data, indexes[1]);
      dt := LoadWord(data, indexes[2]);
      status := 1;
    }
  }

  class CameraMsg {
    var x: Word
    var y: Word
    var theta: Word
    var dt: Word
    var indexes: seq<nat>
    const msg: SensorMsg
    ghost var onWire: seq<Word>
    ghost var head: Word

    /** indexes[3] is never looked up and stays 0; the fifth field keeps its initial zero. */
    ghost predicate Valid()
      reads this, msg, msg.buff, msg.buff.data
    {
      && msg.kind == CAMERA_MESSAGE && msg.indexes == [SlotOf(0)]
      && indexes == [SlotOf(1), SlotOf(2), SlotOf(3), 0, 0]
      && |onWire| == 4
      && Carries(msg.buff, SensorFields(onWire[0], onWire[1..] + [ZERO]), head)
    }

    /** create_camera_msg */
    constructor (size: nat, maxFields: nat)
      requires 48 < size < 0x8000_0000 && maxFields > 5
      ensures Valid() && fresh(msg) && fresh(msg.buff) && fresh(msg.buff.data)
      ensures msg.buff.data.Length == size
      ensures x == y == theta == dt == ZERO && onWire == [ZERO, ZERO, ZERO, ZERO] && head == HEAD
    {
      x, y, theta, dt, indexes := ZERO, ZERO, ZERO, ZERO, [];
      msg := new SensorMsg(size, maxFields);
      onWire, head := [ZERO, ZERO, ZERO, ZERO], HEAD;
      new;
      msg.kind := CAMERA_MESSAGE;
      ghost var recs := AppendWord(msg.buff, x, FLOAT, SensorFields(ZERO, []));
      recs := AppendWord(msg.buff, y, FLOAT, recs);
      recs := AppendWord(msg.buff, theta, FLOAT, recs);
      recs := AppendWord(msg.buff, dt, FLOAT, recs);
      assert recs == SensorFields(ZERO, [ZERO, ZERO, ZERO] + [ZERO]);
      Finish(msg.buff, recs);
      CacheAll(maxFields);
    }

    /** The get_data calls of create_camera_msg: three of them, for four floats. */
    method CacheAll(maxFields: nat)
      requires |onWire| == 4 && maxFields > 5 && head == HEAD
      requires Carries(msg.buff, SensorFields(onWire[0], onWire[1..] + [ZERO]), HEAD)
      requires msg.kind == CAMERA_MESSAGE && msg.indexes == [SlotOf(0)]
      modifies this`y, this`theta, this`dt, this`indexes
      ensures Valid() && [y, theta, dt] == onWire[1..]
    {
      ghost var recs := SensorFields(onWire[0], onWire[1..] + [ZERO]);
      var i0, i1, i2;
      i0, y := CacheIndex(msg.buff, 1, maxFields, recs);
      i1, theta := CacheIndex(msg.buff, 2, maxFields, recs);
      i2, dt := CacheIndex(msg.buff, 3, maxFields, recs);
      indexes := [i0, i1, i2, 0, 0];
    }

    /** camera_msg_to_wire: the last store, through indexes[3] == 0, lands on the header. */
    method ToWire() returns (status: int)
      requires Valid()
      modifies this`onWire, this`head, msg.buff.data
      ensures Valid() && onWire == [CAMERA_MESSAGE, x, y, theta] && head == dt && status == 1
    {
      ghost var recs := SensorFields(onWire[0], onWire[1..] + [ZERO]);
      recs := StoreSlot(msg.buff, msg.indexes[0], msg.kind, 0, recs, head);
      recs := StoreSlot(msg.buff, indexes[0], x, 1, recs, head);
      recs := StoreSlot(msg.buff, indexes[1], y, 2, recs, head);
      recs := StoreSlot(msg.buff, indexes[2], theta, 3, recs, head);
      onWire := [CAMERA_MESSAGE, x, y, theta];
      assert recs == SensorFields(onWire[0], onWire[1..] + [ZERO]);
      HeadOverwritten(msg.buff.data.Length, recs, head, dt);
      StoreWord(msg.buff.data, indexes[3], dt);
      head := dt;
      status := 1;
    }

    /** camera_msg_from_wire: dt comes back from the header position it was stored at. */
    method FromWire(data: bytes) returns (status: int)
      requires Valid() && |data| >= SlotOf(0) + 4
      requires KindOf(data) == 2 ==> |data| >= SlotOf(3) + 4
      modifies this`x, this`y, this`theta, this`dt
      ensures status == if KindOf(data) == 2 then 1 else -1
      ensures status == if data[15..19] == [2, 0, 0, 0] then 1 else -1
      ensures [x, y, theta, dt] == if status == 1
                                   then [LoadWord(data, SlotOf(1)), LoadWord(data, SlotOf(2)),
                                         LoadWord(data, SlotOf(3)), LoadWord(data, 0)]
                                   else old([x, y, theta, dt])
    {
      if LoadWord(data, msg.indexes[0]) != CAMERA_MESSAGE {
        return -1;
      }
      x := LoadWord(data, indexes[0]);
      y := LoadWord(data, indexes[1]);
      theta := LoadWord(data, indexes[2]);
      dt := LoadWord(data, indexes[3]);
      status := 1;
    }
  }

  function CameraFields(vals: seq<Word>): seq<Record> {
    SensorFields(CAMERA_MESSAGE, vals + [ZERO])
  }

  /** To the header getters a camera message is a message exactly when dt looks like version 1. */
  lemma CameraHeaderIff(size: nat, vals: seq<Word>, dt: Word)
    requires |vals| == 3 && 48 < size < 0x8000_0000
    ensures |Encode(CameraFields(vals))| == 35
    ensures var wire := Message(size, CameraFields(vals), dt);
            && GetNumberFields(wire, wire[0]) == (if dt[0] == 1 then 5 else 0)
            && GetByteLength(wire, wire[0], size) == (if dt[0] == 1 then 48 else 0)
  {
    var recs := CameraFields(vals);
    SevenApart(recs);
    var wire := Message(size, recs, dt);
    MessageShows(size, recs, dt);
    assert wire[0] == dt[0];
    var header := ImageBuffer0(size, recs).Header();
    assert wire[BYTEPOS..BYTEPOS + 4] == LE(48, 4) by {
      HeaderParts(ImageBuffer0(size, recs));
      assert wire[BYTEPOS..BYTEPOS + 4] == header[BYTEPOS..BYTEPOS + 4];
    }
    Pow256Values();
    LoadStored(48, 4);
  }

  /** The fifth field that the walk finds is not dt unless dt is zero. */
  lemma CameraFifthField(size: nat, vals: seq<Word>, dt: Word, dst: bytes, maxFields: nat)
    requires |vals| == 3 && 48 < size < 0x8000_0000 && maxFields > 5
    ensures |Encode(CameraFields(vals))| == 35
    ensures var wire := Message(size, CameraFields(vals), dt);
            var l := Lookup(wire, dst, 4, maxFields);
            l.Found? && (Fetched(wire, dst, l) == dt <==> dt == ZERO)
  {
    SevenApart(CameraFields(vals));
    MessageShows(size, CameraFields(vals), dt);
    CachedOffsetRefinesWalk(Message(size, CameraFields(vals), dt), CameraFields(vals), dst, 4, maxFields);
  }
}
