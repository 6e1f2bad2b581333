/** The robot messages and pings as the bytes that cross the network, written out. */
module WireBytes {
  import opened Bytes
  import opened Records
  import opened DataMessages
  import opened MessageImages
  import opened RmtMessages
  import opened PingMessage
  import SimpleLocalizer

  /** A 4-byte field: size, type letter, the four bytes, terminator. */
  function Four(letter: char, w: Word): (r: bytes)
    requires letter < 256 as char
    ensures |r| == 7
  {
    [4, letter as int] + w + [0]
  }

  /** The 13 header bytes of a data packet of this length and number of fields. */
  function Head(first: Word, length: byte, fields: byte): bytes {
    first + [0, 0, length, 0, 0, 0, fields, 0, 0]
  }

  lemma HeaderIs(size: nat, recs: seq<Record>, first: Word)
    requires 13 + |Encode(recs)| < size < 0x8000_0000 && 13 + |Encode(recs)| < 256 && |recs| < 256
    ensures Message(size, recs, first)[..13] == Head(first, 13 + |Encode(recs)|, |recs|)
    ensures Message(size, recs, first)[13..13 + |Encode(recs)|] == Encode(recs)
  {
    var n: byte, f: byte := 13 + |Encode(recs)|, |recs|;
    HeaderTail(ImageBuffer0(size, recs), n, f);
    HeadOf(ImageBuffer0(size, recs).Header(), Encode(recs), Zeros(size - 13 - |Encode(recs)|), first);
  }

  lemma HeaderTail(b: Buffer, n: byte, f: byte)
    requires b.check == 0 && b.byteLength == n && b.fields == f
    ensures b.Header()[4..] == [0, 0, n, 0, 0, 0, f, 0]
  {
    LittleEndian(0, n);
    LittleEndian(f, n);
    Tail([b.prot, b.op], LE(b.flags, 2), [0, 0], [n, 0, 0, 0], [f, 0]);
  }

  lemma Tail(a: bytes, b: bytes, c: bytes, d: bytes, e: bytes)
    requires |a| == |b| == 2
    ensures (a + b + c + d + e)[4..] == c + d + e
  {
  }

  lemma HeadOf(h: bytes, code: bytes, tail: bytes, first: Word)
    requires |h| == 12
    ensures var w := Splice(h + [0] + code + tail, 0, first);
            w[..13] == first + h[4..] + [0] && w[13..13 + |code|] == code
  {
  }

  lemma HeaderAndRecords(size: nat, recs: seq<Record>, first: Word)
    requires 13 + |Encode(recs)| < size < 0x8000_0000 && 13 + |Encode(recs)| < 256 && |recs| < 256
    ensures Message(size, recs, first)[..13 + |Encode(recs)|]
            == Head(first, 13 + |Encode(recs)|, |recs|) + Encode(recs)
  {
    HeaderIs(size, recs, first);
    var m, n := Message(size, recs, first), 13 + |Encode(recs)|;
    assert m[..n] == m[..13] + m[13..n];
  }

  lemma {:induction false} FloatBytes(vals: seq<Word>)
    ensures vals == [] ==> Encode(Floats(vals)) == []
    ensures vals != [] ==> Encode(Floats(vals)) == Four('f', vals[0]) + Encode(Floats(vals[1..]))
  {
    if vals != [] {
      assert Floats(vals)[1..] == Floats(vals[1..]);
      assert EncodeRecord(Floats(vals)[0]) == Four('f', vals[0]);
    }
  }

  lemma SensorBytes(kind: Word, vals: seq<Word>)
    ensures Encode(SensorFields(kind, vals)) == Four('i', kind) + Encode(Floats(vals))
  {
    assert SensorFields(kind, vals)[1..] == Floats(vals);
    assert EncodeRecord(Rec(INT32, kind)) == Four('i', kind);
  }

  lemma TwoFloats(a: Word, b: Word)
    ensures Encode(Floats([a, b])) == Four('f', a) + Four('f', b)
  {
    FloatBytes([a, b]);
    FloatBytes([b]);
    FloatBytes([]);
    assert [a, b][1..] == [b] && [b][1..] == [];
  }

  lemma ThreeFloats(a: Word, b: Word, c: Word)
    ensures Encode(Floats([a, b, c])) == Four('f', a) + Four('f', b) + Four('f', c)
  {
    FloatBytes([a, b, c]);
    TwoFloats(b, c);
    assert [a, b, c][1..] == [b, c];
  }

  lemma Heads(length: byte, fields: byte)
    ensures Head(HEAD, length, fields) == [1, 1, 0, 0, 0, 0, length, 0, 0, 0, fields, 0, 0]
  {
  }

  /** What cmd_vel_to_wire leaves in the first byte_length bytes. */
  lemma CmdVelBytes(size: nat, lin: Word, ang: Word)
    requires 27 < size < 0x8000_0000
    ensures |Encode(Floats([lin, ang]))| == 14
    ensures Message(size, Floats([lin, ang]), HEAD)[..27]
            == [1, 1, 0, 0, 0, 0, 27, 0, 0, 0, 2, 0, 0] + Four('f', lin) + Four('f', ang)
  {
    SevenApart(Floats([lin, ang]));
    TwoFloats(lin, ang);
    HeaderAndRecords(size, Floats([lin, ang]), HEAD);
    Heads(27, 2);
    Join3([1, 1, 0, 0, 0, 0, 27, 0, 0, 0, 2, 0, 0], Four('f', lin), Four('f', ang));
  }

  lemma Join3(head: bytes, a: bytes, b: bytes)
    ensures head + (a + b) == head + a + b
  {
  }

  lemma TypeField()
    ensures Four('i', TEENSY_MSG) == [4, 'i' as int, 1, 0, 0, 0, 0]
    ensures Four('i', CAMERA_MESSAGE) == [4, 'i' as int, 2, 0, 0, 0, 0]
    ensures Four('f', ZERO) == [4, 'f' as int, 0, 0, 0, 0, 0]
  {
  }

  lemma Join4(head: bytes, a: bytes, b: bytes, c: bytes, d: bytes)
    ensures head + (a + (b + c + d)) == head + a + b + c + d
  {
  }

  /** The teensy message that the kernel publishes and the localizer reads. */
  lemma TeensyBytes(size: nat, v: Word, w: Word, dt: Word)
    requires 41 < size < 0x8000_0000
    ensures SimpleLocalizer.TeensyWire(size, v, w, dt)
            == [1, 1, 0, 0, 0, 0, 41, 0, 0, 0, 4, 0, 0] + [4, 'i' as int, 1, 0, 0, 0, 0]
               + Four('f', v) + Four('f', w) + Four('f', dt)
  {
    var recs := SensorFields(TEENSY_MSG, [v, w, dt]);
    SevenApart(recs);
    SensorBytes(TEENSY_MSG, [v, w, dt]);
    ThreeFloats(v, w, dt);
    HeaderAndRecords(size, recs, HEAD);
    Heads(41, 4);
    TypeField();
    Join4(Head(HEAD, 41, 4), Four('i', TEENSY_MSG), Four('f', v), Four('f', w), Four('f', dt));
  }

  lemma Join(head: bytes, a: bytes, b: bytes, c: bytes, d: bytes, e: bytes)
    ensures head + (a + (b + c + d + e)) == head + a + b + c + d + e
  {
  }

  /** The camera message: dt lies where the header starts, and the fifth field stays zero. */
  lemma CameraBytes(size: nat, x: Word, y: Word, theta: Word, dt: Word)
    requires 48 < size < 0x8000_0000
    ensures SimpleLocalizer.InputWire(size, SimpleLocalizer.Camera(x, y, theta, dt))
            == dt + [0, 0, 48, 0, 0, 0, 5, 0, 0] + [4, 'i' as int, 2, 0, 0, 0, 0]
               + Four('f', x) + Four('f', y) + Four('f', theta) + [4, 'f' as int, 0, 0, 0, 0, 0]
  {
    var recs := CameraFields([x, y, theta]);
    SevenApart(recs);
    CameraRecords(x, y, theta);
    HeaderAndRecords(size, recs, dt);
    TypeField();
    Join(Head(dt, 48, 5), Four('i', CAMERA_MESSAGE), Four('f', x), Four('f', y), Four('f', theta), Four('f', ZERO));
  }

  lemma CameraRecords(x: Word, y: Word, theta: Word)
    ensures Encode(CameraFields([x, y, theta]))
            == Four('i', CAMERA_MESSAGE) + (Four('f', x) + Four('f', y) + Four('f', theta) + Four('f', ZERO))
  {
    assert [x, y, theta] + [ZERO] == [x, y, theta, ZERO];
    SensorBytes(CAMERA_MESSAGE, [x, y, theta, ZERO]);
    FourFloats(x, y, theta, ZERO);
  }

  lemma FourFloats(a: Word, b: Word, c: Word, d: Word)
    ensures Encode(Floats([a, b, c, d])) == Four('f', a) + Four('f', b) + Four('f', c) + Four('f', d)
  {
    FloatBytes([a, b, c, d]);
    assert [a, b, c, d][1..] == [b, c, d];
    ThreeFloats(b, c, d);
    JoinFour(Four('f', a), Four('f', b), Four('f', c), Four('f', d));
  }

  lemma JoinFour(a: bytes, b: bytes, c: bytes, d: bytes)
    ensures a + (b + c + d) == a + b + c + d
  {
  }

  /** The path message that the localizer puts in the place of what it received. */
  lemma PathBytes(size: nat, s: SimpleLocalizer.State)
    requires 48 < size < 0x8000_0000
    ensures SimpleLocalizer.PathWire(size, s)
            == [1, 1, 0, 0, 0, 0, 48, 0, 0, 0, 5, 0, 0]
               + Four('f', s.x) + Four('f', s.y) + Four('f', s.theta) + Four('f', s.v) + Four('f', s.w)
  {
    var vals := [s.x, s.y, s.theta, s.v, s.w];
    SimpleLocalizer.FiveFloats(s);
    FloatBytes(vals);
    FloatBytes(vals[1..]);
    assert vals[1..] == [s.y, s.theta, s.v, s.w] && vals[1..][1..] == [s.theta, s.v, s.w];
    ThreeFloats(s.theta, s.v, s.w);
    HeaderAndRecords(size, Floats(vals), HEAD);
    Heads(48, 5);
    Join5(Head(HEAD, 48, 5), Four('f', s.x), Four('f', s.y), Four('f', s.theta), Four('f', s.v), Four('f', s.w));
  }

  lemma Join5(head: bytes, a: bytes, b: bytes, c: bytes, d: bytes, e: bytes)
    ensures head + (a + (b + (c + d + e))) == head + a + b + c + d + e
  {
  }

  // ---------------------------------------------------------------- pings

  /** A ping packet byte by byte; the first eleven bytes are sent. */
  lemma PingBytes(p: Fields)
    ensures EncodePing(p)[..7] == [p.prot, p.op, p.kind, p.code % 0x100, p.code / 0x100,
                                   p.check % 0x100, p.check / 0x100]
    ensures EncodePing(p)[7..11] == [p.excess % 0x100, p.excess / 0x100 % 0x100, p.excess / 0x1_0000 % 0x100,
                                     p.excess / 0x100_0000 % 0x100]
  {
    LittleEndian(p.code, 0);
    LittleEndian(p.check, 0);
    var e := p.excess;
    assert LE(e, 8) == [e % 0x100] + LE(e / 0x100, 7);
    assert LE(e / 0x100, 7) == [e / 0x100 % 0x100] + LE(e / 0x100 / 0x100, 6);
    assert e / 0x100 / 0x100 == e / 0x1_0000 && e / 0x1_0000 / 0x100 == e / 0x100_0000;
    assert LE(e / 0x1_0000, 6) == [e / 0x1_0000 % 0x100] + LE(e / 0x100_0000, 5);
    assert LE(e / 0x100_0000, 5) == [e / 0x100_0000 % 0x100] + LE(e / 0x100_0000 / 0x100, 4);
    assert EncodePing(p)[7..11] == LE(e, 8)[..4];
  }

  /** What the getters make of any memory: nothing of a foreign version, and of version 1 the bytes in their
      places, with types above 8 read as 0. */
  lemma DecodedBytes(mem: bytes)
    requires ReadablePing(mem)
    ensures var got := DecodePing(mem);
            && (mem[0] != 1 ==> got == Fields(mem[0], 0, 0, 0, 0, 0))
            && (mem[0] == 1 ==>
                  && got.prot == 1
                  && got.op == (if mem[1] <= 8 then mem[1] else 0) && got.kind == (if mem[2] <= 8 then mem[2] else 0)
                  && got.code == Number(mem[3], mem[4], 0, 0) && got.check == Number(mem[5], mem[6], 0, 0)
                  && got.excess == Number(mem[7], mem[8], mem[9], mem[10])
                                   + 0x1_0000_0000 * Number(mem[11], mem[12], mem[13], mem[14]))
  {
    if mem[0] == 1 {
      TwoBytes(mem, 3);
      TwoBytes(mem, 5);
      FourBytesAt(mem, 7);
      FourBytesAt(mem, 11);
      ExcessLoad(mem);
    }
  }
}
