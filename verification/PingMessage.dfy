/** src/messages/ping_message.c: the fixed-layout ping packet. */
module PingMessage {
  import opened Bytes

  const PROTOCOL_VERSION: byte := 1
  const PING: byte := 2
  const MAX_PING_TYPE: byte := 8
  const PING_HEADER_SIZE: nat := 11
  const PING_MESSAGE_SIZE: nat := 15
  const EINVAL := 22

  const UNDEF: byte := 0
  const ACK: byte := 1
  const STATE_REQUEST: byte := 8

  /** The part of a ping that callers see (`ping` in RMTControlClient.hpp). */
  datatype Ping = Ping(kind: byte, code: uint16, excess: uint64)

  datatype Fields = Fields(prot: byte, op: byte, kind: byte, code: uint16, check: uint16, excess: uint64)

  function EncodePing(p: Fields): (w: bytes)
    ensures |w| == PING_MESSAGE_SIZE
  {
    [p.prot, p.op, p.kind] + LE(p.code, 2) + LE(p.check, 2) + LE(p.excess, 8)
  }

  /** The memory that the getters touch: one byte, or all fifteen for version 1. */
  predicate ReadablePing(mem: bytes) {
    |mem| >= 1 && (mem[0] == PROTOCOL_VERSION ==> |mem| >= PING_MESSAGE_SIZE)
  }

  function Load(mem: bytes, at: nat, width: nat): (n: nat)
    requires at + width <= |mem|
    ensures n < Pow256(width)
  {
    ValBound(mem[at..at + width]);
    Val(mem[at..at + width])
  }

  /** The version-switched getters, all six of them. */
  function DecodePing(mem: bytes): Fields
    requires ReadablePing(mem)
  {
    if mem[0] != PROTOCOL_VERSION then Fields(mem[0], 0, 0, 0, 0, 0)
    else
      Pow256Values();
      Fields(mem[0],
             if mem[1] <= MAX_PING_TYPE then mem[1] else 0,
             if mem[2] <= MAX_PING_TYPE then mem[2] else 0,
             Load(mem, 3, 2), Load(mem, 5, 2), Load(mem, 7, 8))
  }

  class PingBuffer {
    var prot: byte
    var op: byte
    var kind: byte
    var code: uint16
    var check: uint16
    var excess: uint64
    const data: array<byte>

    ghost function View(): Fields
      reads this
    {
      Fields(prot, op, kind, code, check, excess)
    }

    /** create_buffer_ping */
    constructor ()
      ensures View() == Fields(PROTOCOL_VERSION, PING, 0, 0, 0, 0)
      ensures data.Length == PING_MESSAGE_SIZE && fresh(data)
    {
      prot, op, kind, code, check, excess := PROTOCOL_VERSION, PING, 0, 0, 0, 0;
      data := new byte[PING_MESSAGE_SIZE](_ => 0);
    }
  }

  method ToWirePing(buffer: PingBuffer?) returns (errno: int)
    requires buffer != null ==> buffer.data.Length == PING_MESSAGE_SIZE
    modifies if buffer == null then {} else {buffer.data}
    ensures buffer == null ==> errno == EINVAL
    ensures buffer != null ==> errno == 0 && buffer.data[..] == EncodePing(buffer.View())
  {
    if buffer == null {
      return EINVAL;
    }
    buffer.data[0] := buffer.prot;
    buffer.data[1] := buffer.op;
    buffer.data[2] := buffer.kind;
    StoreBytes(buffer.data, 3, LE(buffer.code, 2));
    StoreBytes(buffer.data, 5, LE(buffer.check, 2));
    StoreBytes(buffer.data, 7, LE(buffer.excess, 8));
    assert buffer.data[..] == EncodePing(buffer.View());
    errno := 0;
  }

  method SerializeFromPing(destination: PingBuffer?, source: Pointer) returns (errno: int)
    requires source.At? ==> ReadablePing(source.mem)
    modifies if destination == null then {} else {destination}
    ensures errno == if destination != null && source.At? then 0 else EINVAL
    ensures destination != null ==>
              destination.View() == if source.At? then DecodePing(source.mem) else old(destination.View())
  {
    if destination == null || source.Null? {
      return EINVAL;
    }
    var got := DecodePing(source.mem);
    destination.prot := got.prot;
    destination.op := got.op;
    destination.kind := got.kind;
    destination.code := got.code;
    destination.check := got.check;
    destination.excess := got.excess;
    errno := 0;
  }

  /** The 64-bit load at offset 7 sees four transmitted bytes and four that were never sent. */
  lemma ExcessLoad(mem: bytes)
    requires |mem| >= PING_MESSAGE_SIZE
    ensures Load(mem, 7, 8) == Load(mem, 7, 4) + 0x1_0000_0000 * Load(mem, 11, 4)
  {
    Pow256Values();
    ValConcat(mem[7..11], mem[11..15]);
    assert mem[7..15] == mem[7..11] + mem[11..15];
  }

  /** Only eleven bytes of a ping are sent. Whatever memory follows them, the receiver decodes the
      sender's type (0 for an unknown type), code, checksum and the low half of the excess; the high
      half is whatever the missing four bytes happen to hold. */
  lemma TruncatedPing(p: Fields, mem: bytes)
    requires p.prot == PROTOCOL_VERSION && |mem| >= PING_MESSAGE_SIZE
    requires EncodePing(p)[..PING_HEADER_SIZE] <= mem
    ensures ReadablePing(mem)
    ensures var got := DecodePing(mem);
            && got.kind == (if p.kind <= MAX_PING_TYPE then p.kind else 0)
            && got.op == (if p.op <= MAX_PING_TYPE then p.op else 0)
            && got.code == p.code && got.check == p.check
            && got.excess == p.excess % 0x1_0000_0000 + 0x1_0000_0000 * Load(mem, 11, 4)
  {
    var w := EncodePing(p);
    var sent := w[..PING_HEADER_SIZE];
    assert forall i :: 0 <= i < PING_HEADER_SIZE ==> mem[i] == sent[i] == w[i];
    assert mem[3..5] == LE(p.code, 2);
    assert mem[5..7] == LE(p.check, 2);
    assert w[7..15] == LE(p.excess, 8);
    assert mem[7..11] == LE(p.excess, 8)[..4];
    Pow256Values();
    LoadStored(p.code, 2);
    LoadStored(p.check, 2);
    LoadStored(p.excess, 8);
    ExcessLoad(mem);
    LowHalf(p.excess);
  }

  lemma LowHalf(n: uint64)
    ensures Val(LE(n, 8)[..4]) == n % 0x1_0000_0000
  {
    var lo, hi := LE(n, 8)[..4], LE(n, 8)[4..];
    assert LE(n, 8) == lo + hi;
    Pow256Values();
    LoadStored(n, 8);
    ValConcat(lo, hi);
    ValBound(lo);
    Remainder(n, Val(lo), Val(hi));
  }

  lemma Remainder(n: nat, lo: nat, hi: nat)
    requires n == lo + 0x1_0000_0000 * hi && lo < 0x1_0000_0000
    ensures n % 0x1_0000_0000 == lo
  {
  }

  /** The whole packet round-trips when all of it is there. */
  lemma WholePing(p: Fields)
    requires p.prot == PROTOCOL_VERSION && p.kind <= MAX_PING_TYPE && p.op <= MAX_PING_TYPE
    ensures DecodePing(EncodePing(p)) == p
  {
    var w := EncodePing(p);
    TruncatedPing(p, w);
    assert w[7..15] == LE(p.excess, 8);
    Pow256Values();
    LoadStored(p.excess, 8);
  }
}
