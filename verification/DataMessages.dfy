/** src/messages/data_messages.c: the message buffer, its writer and its reader. */
module DataMessages {
  import opened Bytes
  import opened Records

  const PROTOCOL_VERSION: byte := 1
  const DATA_PACKET: byte := 1

  const BYTEPOS: nat := 6
  const FLDPOS: nat := 10
  const DATA_HEADER_SIZE: nat := 13

  const CHAR: byte := 'c' as int
  const BYTE_TYPE: byte := 'y' as int
  const BOOL: byte := 'b' as int
  const INT8: byte := 'p' as int
  const UINT8: byte := 'r' as int
  const INT16: byte := 'n' as int
  const INT32: byte := 'i' as int
  const UINT32: byte := 'u' as int
  const UINT64: byte := 't' as int
  const FLOAT: byte := 'f' as int

  // ---------------------------------------------------------------- how many bytes a copy moves

  /** The bytes that a fixed-width type moves; 0 for the types that are copied by size. */
  function NativeWidth(code: byte): nat {
    if code == INT32 || code == UINT32 || code == FLOAT then 4
    else if code == CHAR || code == UINT8 || code == INT8 || code == BYTE_TYPE then 1
    else if code == INT16 || code == BOOL then 2
    else 0
  }

  /** The test `!(word & 0xFFFFFFFC)` on the 8-byte word at `off`: only its low four bytes matter.
      Bytes past the end of `mem` read as zero (the struct's zeroed padding and flags). */
  predicate SmallWord(mem: bytes, off: nat) {
    forall j :: off <= j < off + 4 && j < |mem| ==> mem[j] < if j == off then 4 else 1
  }

  /** Each word step moves 8 bytes but counts 4, then the byte loop moves the rest. */
  function WordExtent(n: nat): nat {
    8 * (n / 4) + n % 4
  }

  /** How many bytes the copy-by-size path moves for a size of n. */
  function CopyExtent(dst: bytes, at: nat, src: bytes, from: nat, n: nat): (e: nat)
    ensures n <= e
  {
    if SmallWord(src, from) && SmallWord(dst, at) then WordExtent(n) else n
  }

  /** How many bytes are moved for a field of this type and size. */
  function Extent(code: byte, dst: bytes, at: nat, src: bytes, from: nat, n: nat): nat {
    if NativeWidth(code) != 0 then NativeWidth(code) else CopyExtent(dst, at, src, from, n)
  }

  lemma SameWord(a: bytes, b: bytes, off: nat)
    requires off <= |a| == |b| && a[off..] == b[off..]
    ensures SmallWord(a, off) == SmallWord(b, off)
  {
    assert forall j :: off <= j < |a| ==> a[j] == a[off..][j - off] && b[j] == b[off..][j - off];
  }

  // ---------------------------------------------------------------- the struct as a value

  datatype Buffer = Buffer(prot: byte, op: byte, flags: uint16, check: uint16,
                           byteLength: uint32, fields: uint16, data: bytes)
  {
    /** MESSAGE_SIZE is an int that leaves room for a header; the whole payload area starts inside it. */
    predicate Valid() {
      DATA_HEADER_SIZE < |data| < 0x8000_0000 && DATA_HEADER_SIZE <= byteLength <= |data|
    }

    function Header(): (h: bytes)
      ensures |h| == 12
    {
      [prot, op] + LE(flags, 2) + LE(check, 2) + LE(byteLength, 4) + LE(fields, 2)
    }
  }

  lemma HeaderParts(b: Buffer)
    ensures b.Header()[BYTEPOS..BYTEPOS + 4] == LE(b.byteLength, 4)
    ensures b.Header()[FLDPOS..FLDPOS + 2] == LE(b.fields, 2)
  {
  }

  /** to_wire */
  function Published(b: Buffer): Buffer
    requires |b.data| >= 12
  {
    b.(data := Splice(b.data, 0, b.Header()))
  }

  /** create_buffer */
  function Created(size: nat): Buffer
    requires size >= 12
  {
    Published(Buffer(PROTOCOL_VERSION, DATA_PACKET, 0, 0, DATA_HEADER_SIZE, 0, Zeros(size)))
  }

  /** The guard of serialize_data, in uint32 arithmetic. */
  predicate Accepts(b: Buffer, src: Pointer, n: byte) {
    src.At? && (3 + n as int + b.byteLength) % 0x1_0000_0000 < |b.data|
  }

  function WriteExtent(b: Buffer, src: bytes, n: byte, code: byte): nat {
    Extent(code, b.data, b.byteLength + 2, src, 0, n)
  }

  /** What the C code asks of its caller without checking it: the copy stays inside both objects. */
  predicate HasRoom(b: Buffer, src: Pointer, n: byte, code: byte) {
    Accepts(b, src, n) ==>
      var e := WriteExtent(b, src.mem, n, code);
      e <= |src.mem| && b.byteLength + 2 + e < |b.data|
  }

  /** serialize_data */
  function Serialized(b: Buffer, src: Pointer, n: byte, code: byte): Buffer
    requires b.Valid() && HasRoom(b, src, n, code)
  {
    if !Accepts(b, src, n) then b
    else
      var e := WriteExtent(b, src.mem, n, code);
      b.(byteLength := b.byteLength + 3 + n,
         fields := (b.fields + 1) % 0x1_0000,
         data := Splice(b.data, b.byteLength, [n, code] + src.mem[..e] + [0]))
  }

  // ---------------------------------------------------------------- the reader

  /** Found is the returned `element`; the other results are the error returns, and Overrun stands
      for a read past the memory at `data`, which C leaves undefined. */
  datatype Element = Found(size: byte, code: byte, offset: nat) | Einval | Erange | Ebadmsg | Overrun

  datatype Step = Here(pos: nat) | BadTerminator | OffEnd

  /** Skip k records from `pos` on, checking each terminator. */
  function Walk(wire: bytes, pos: nat, k: nat): (s: Step)
    ensures s.Here? ==> s.pos + 2 <= |wire|
    decreases k
  {
    if k == 0 then (if pos + 2 <= |wire| then Here(pos) else OffEnd)
    else if pos >= |wire| then OffEnd
    else
      var next := pos + 2 + wire[pos];
      if next >= |wire| then OffEnd
      else if wire[next] != 0 then BadTerminator
      else Walk(wire, next + 1, k - 1)
  }

  function FieldCount(wire: bytes): nat
    requires |wire| >= FLDPOS + 2
  {
    Val(wire[FLDPOS..FLDPOS + 2])
  }

  /** get_data: which element is found, and hence what is copied to the destination. */
  function Lookup(wire: bytes, dst: bytes, index: nat, maxFields: nat): (r: Element)
    ensures r.Found? ==> r.offset + Extent(r.code, dst, 0, wire, r.offset, r.size) <= |wire|
  {
    if |wire| < FLDPOS + 2 then Overrun
    else if FieldCount(wire) >= maxFields || index >= FieldCount(wire) then Erange
    else match Walk(wire, DATA_HEADER_SIZE, index)
      case BadTerminator => Ebadmsg
      case OffEnd => Overrun
      case Here(pos) =>
        var size, code := wire[pos], wire[pos + 1];
        if pos + 2 + Extent(code, dst, 0, wire, pos + 2, size) > |wire| then Overrun
        else Found(size, code, pos + 2)
  }

  function Fetched(wire: bytes, dst: bytes, r: Element): bytes
    requires r.Found?
    requires r.offset + Extent(r.code, dst, 0, wire, r.offset, r.size) <= |wire|
  {
    wire[r.offset..r.offset + Extent(r.code, dst, 0, wire, r.offset, r.size)]
  }

  // ---------------------------------------------------------------- the C code

  /** `while (n >= 4) { *destl++ = *sourcel++; n -= 4; }` on 8-byte words. */
  method CopyWords(dst: array<byte>, at: nat, src: bytes, from: nat, n: nat) returns (steps: nat)
    requires at + 8 * (n / 4) <= dst.Length && from + 8 * (n / 4) <= |src|
    modifies dst
    ensures steps == n / 4
    ensures dst[..] == Splice(old(dst[..]), at, src[from..from + 8 * steps])
  {
    ghost var was := dst[..];
    var left := n;
    steps := 0;
    while left >= 4
      invariant left == n - 4 * steps
      invariant dst[..] == Splice(was, at, src[from..from + 8 * steps])
    {
      StoreBytes(dst, at + 8 * steps, src[from + 8 * steps..from + 8 * steps + 8]);
      Advance(was, at, src, from, from + 8 * steps, from + 8 * steps + 8);
      left, steps := left - 4, steps + 1;
    }
  }

  /** `while (n--) *head++ = *source++;` */
  method CopyBytes(dst: array<byte>, at: nat, src: bytes, from: nat, n: nat)
    requires at + n <= dst.Length && from + n <= |src|
    modifies dst
    ensures dst[..] == Splice(old(dst[..]), at, src[from..from + n])
  {
    ghost var was := dst[..];
    var moved := 0;
    while moved < n
      invariant moved <= n
      invariant dst[..] == Splice(was, at, src[from..from + moved])
    {
      StoreBytes(dst, at + moved, [src[from + moved]]);
      Advance(was, at, src, from, from + moved, from + moved + 1);
      moved := moved + 1;
    }
  }

  /** The `default:` branch that the writer and the reader share: 8-byte words, then bytes.
      Whichever path is taken, the first n bytes arrive as the plain byte loop would bring them. */
  method CopyBySize(dst: array<byte>, at: nat, src: bytes, from: nat, n: byte) returns (head: nat)
    requires at + CopyExtent(dst[..], at, src, from, n) <= dst.Length
    requires from + CopyExtent(dst[..], at, src, from, n) <= |src|
    modifies dst
    ensures var e := CopyExtent(old(dst[..]), at, src, from, n);
            head == at + e && dst[..] == Splice(old(dst[..]), at, src[from..from + e])
    ensures dst[at..at + n] == src[from..from + n]
  {
    ghost var was, e := dst[..], CopyExtent(dst[..], at, src, from, n);
    var moved, left := 0, n as nat;
    if SmallWord(src, from) && SmallWord(dst[..], at) {
      var steps := CopyWords(dst, at, src, from, n);
      moved, left := 8 * steps, n % 4;
    }
    CopyBytes(dst, at + moved, src, from + moved, left);
    head := at + moved + left;
    assert dst[..] == Splice(was, at, src[from..from + e]) by {
      Advance(was, at, src, from, from + moved, from + moved + left);
    }
    PrefixArrives(was, at, src, from, e, n);
  }

  lemma PrefixArrives(was: bytes, at: nat, src: bytes, from: nat, e: nat, n: nat)
    requires n <= e && from + e <= |src| && at + e <= |was|
    ensures Splice(was, at, src[from..from + e])[at..at + n] == src[from..from + n]
  {
    var r := Splice(was, at, src[from..from + e]);
    var got, want := r[at..at + n], src[from..from + n];
    forall i | 0 <= i < n
      ensures got[i] == want[i]
    {
      assert got[i] == r[at + i] == src[from..from + e][i];
    }
  }

  /** The word path refines the plain byte loop on the first n bytes, and leaves the same memory as the
      byte loop exactly when the extra bytes it moves are already there. */
  lemma CopyRefinesByteLoop(dst: bytes, at: nat, src: bytes, from: nat, n: byte)
    requires var e := CopyExtent(dst, at, src, from, n); at + e <= |dst| && from + e <= |src|
    ensures var e := CopyExtent(dst, at, src, from, n);
            var fast, plain := Splice(dst, at, src[from..from + e]), Splice(dst, at, src[from..from + n]);
            && fast[..at + n] == plain[..at + n]
            && (fast == plain <==> forall i :: at + n <= i < at + e ==> dst[i] == src[i - at + from])
  {
    var e := CopyExtent(dst, at, src, from, n);
    var a, b := src[from..from + n], src[from..from + e];
    assert a == b[..n];
    LongerSplice(dst, at, b, n);
  }

  lemma LongerSplice(dst: bytes, at: nat, b: bytes, n: nat)
    requires n <= |b| && at + |b| <= |dst|
    ensures Splice(dst, at, b)[..at + n] == Splice(dst, at, b[..n])[..at + n]
    ensures Splice(dst, at, b) == Splice(dst, at, b[..n])
            <==> forall i :: at + n <= i < at + |b| ==> dst[i] == b[i - at]
  {
    var fast, plain := Splice(dst, at, b), Splice(dst, at, b[..n]);
    if fast == plain {
      forall i | at + n <= i < at + |b|
        ensures dst[i] == b[i - at]
      {
        assert fast[i] == plain[i];
      }
    }
  }

  /** The switch on the type code, in the writer and in the reader. */
  method CopyTyped(dst: array<byte>, at: nat, src: bytes, from: nat, n: byte, code: byte) returns (head: nat)
    requires at + Extent(code, dst[..], at, src, from, n) <= dst.Length
    requires from + Extent(code, dst[..], at, src, from, n) <= |src|
    modifies dst
    ensures var e := Extent(code, old(dst[..]), at, src, from, n);
            head == at + e && dst[..] == Splice(old(dst[..]), at, src[from..from + e])
  {
    if code == INT32 || code == UINT32 || code == FLOAT {
      StoreBytes(dst, at, src[from..from + 4]);
      head := at + 4;
    } else if code == CHAR || code == UINT8 || code == INT8 || code == BYTE_TYPE {
      StoreBytes(dst, at, src[from..from + 1]);
      head := at + 1;
    } else if code == INT16 || code == BOOL {
      StoreBytes(dst, at, src[from..from + 2]);
      head := at + 2;
    } else {
      head := CopyBySize(dst, at, src, from, n);
    }
  }

  lemma Advance(was: bytes, at: nat, src: bytes, from: nat, mid: nat, to: nat)
    requires from <= mid <= to <= |src| && at + (to - from) <= |was|
    ensures Splice(Splice(was, at, src[from..mid]), at + (mid - from), src[mid..to]) == Splice(was, at, src[from..to])
  {
    SpliceTwice(was, at, src[from..mid], src[mid..to]);
    assert src[from..mid] + src[mid..to] == src[from..to];
  }

  /** Size and type, then the payload, then the terminator: one overwrite. */
  lemma Assembled(was: bytes, start: nat, head: bytes, mem: bytes, e: nat)
    requires e <= |mem| && start + |head| + e < |was|
    ensures Splice(Splice(Splice(was, start, head), start + |head|, mem[0..e]), start + |head| + e, [0])
         == Splice(was, start, head + mem[..e] + [0])
  {
    SpliceTwice(was, start, head, mem[0..e]);
    SpliceTwice(was, start, head + mem[0..e], [0]);
    assert mem[0..e] == mem[..e];
  }

  /** The stores of serialize_data through its moving `head` pointer. */
  method WriteRecord(data: array<byte>, at: nat, src: bytes, n: byte, code: byte)
    requires at + 2 <= data.Length
    requires var e := Extent(code, data[..], at + 2, src, 0, n); e <= |src| && at + 2 + e < data.Length
    modifies data
    ensures var e := Extent(code, old(data[..]), at + 2, src, 0, n);
            data[..] == Splice(old(data[..]), at, [n, code] + src[..e] + [0])
  {
    ghost var was, e := data[..], Extent(code, data[..], at + 2, src, 0, n);
    StoreBytes(data, at, [n, code]);
    SameWord(was, data[..], at + 2);
    var head := CopyTyped(data, at + 2, src, 0, n, code);
    StoreBytes(data, head, [0]);
    Assembled(was, at, [n, code], src, e);
  }

  class DataBuffer {
    var protocolVersion: byte
    var opcode: byte
    var functionalFlags: uint16
    var checksum: uint16
    var byteLength: uint32
    var fields: uint16
    const data: array<byte>

    ghost function View(): Buffer
      reads this, data
    {
      Buffer(protocolVersion, opcode, functionalFlags, checksum, byteLength, fields, data[..])
    }

    /** create_buffer; `size` is MESSAGE_SIZE. */
    constructor (size: nat)
      requires DATA_HEADER_SIZE < size < 0x8000_0000
      ensures View() == Created(size) && View().Valid()
      ensures fresh(data)
    {
      protocolVersion, opcode := PROTOCOL_VERSION, DATA_PACKET;
      functionalFlags, checksum, fields := 0, 0, 0;
      byteLength := DATA_HEADER_SIZE;
      data := new byte[size](_ => 0);
      new;
      assert data[..] == Zeros(size);
      ToWire();
    }

    method ToWire()
      requires data.Length >= 12
      modifies data
      ensures View() == Published(old(View()))
    {
      ghost var was := data[..];
      data[0] := protocolVersion;
      data[1] := opcode;
      StoreBytes(data, 2, LE(functionalFlags, 2));
      StoreBytes(data, 4, LE(checksum, 2));
      StoreBytes(data, BYTEPOS, LE(byteLength, 4));
      StoreBytes(data, FLDPOS, LE(fields, 2));
      assert data[..] == Splice(was, 0, View().Header());
    }

    method SerializeData(src: Pointer, n: byte, code: byte) returns (status: int)
      requires View().Valid() && HasRoom(View(), src, n, code)
      modifies this, data
      ensures View() == Serialized(old(View()), src, n, code)
      ensures status == 0
    {
      if src.At? && (3 + n as int + byteLength) % 0x1_0000_0000 < data.Length {
        WriteRecord(data, byteLength, src.mem, n, code);
        byteLength := byteLength + 3 + n;
        fields := (fields + 1) % 0x1_0000;
      }
      status := 0;
    }
  }

  method GetData(data: Pointer, destination: array?<byte>, index: nat, maxFields: nat) returns (r: Element)
    requires data.At? && destination != null ==>
               var l := Lookup(data.mem, destination[..], index, maxFields);
               l.Found? ==> Extent(l.code, destination[..], 0, data.mem, l.offset, l.size) <= destination.Length
    modifies if destination == null then {} else {destination}
    ensures data.Null? || destination == null ==> r == Einval
    ensures data.At? && destination != null ==>
              && r == Lookup(data.mem, old(destination[..]), index, maxFields)
              && destination[..] == if r.Found?
                                    then Splice(old(destination[..]), 0, Fetched(data.mem, old(destination[..]), r))
                                    else old(destination[..])
  {
    if data.Null? || destination == null {
      return Einval;
    }
    var wire := data.mem;
    if |wire| < FLDPOS + 2 {
      return Overrun;
    }
    var fields := Val(wire[FLDPOS..FLDPOS + 2]);
    if fields >= maxFields || index >= fields {
      return Erange;
    }
    var i: nat, index_: nat := DATA_HEADER_SIZE, 0;
    while index_ < index
      invariant index_ <= index
      invariant Walk(wire, DATA_HEADER_SIZE, index) == Walk(wire, i, index - index_)
    {
      if i >= |wire| {
        return Overrun;
      }
      var size := wire[i];
      i := i + 2 + size;
      if i >= |wire| {
        return Overrun;
      }
      if wire[i] != 0 {
        return Ebadmsg;
      }
      i, index_ := i + 1, index_ + 1;
    }
    if i + 2 > |wire| {
      return Overrun;
    }
    var size, code := wire[i], wire[i + 1];
    var at := i + 2;
    if at + Extent(code, destination[..], 0, wire, at, size) > |wire| {
      return Overrun;
    }
    r := Found(size, code, at);
    var head := CopyTyped(destination, 0, wire, at, size, code);
  }

  /** get_byte_length_impl; MESSAGE_SIZE bounds what is believed. */
  function GetByteLength(wire: bytes, protocolVersion: byte, messageSize: nat): nat
    requires |wire| >= FLDPOS + 2
  {
    if protocolVersion == 1 then
      var ret := Val(wire[BYTEPOS..BYTEPOS + 4]);
      if ret <= messageSize then ret else 0
    else 0
  }

  /** get_number_fields_impl */
  function GetNumberFields(wire: bytes, protocolVersion: byte): nat
    requires |wire| >= FLDPOS + 2
  {
    if protocolVersion == 1 then FieldCount(wire) else 0
  }

  /** The getters in terms of the header's bytes: the announced length, or 0 if it exceeds MESSAGE_SIZE or the
      version is not 1, and the announced number of fields, or 0 if the version is not 1. */
  lemma HeaderGetters(wire: bytes, protocolVersion: byte, messageSize: nat)
    requires |wire| >= 12
    ensures var length := Number(wire[6], wire[7], wire[8], wire[9]);
            && (protocolVersion == 1 && length <= messageSize ==>
                  GetByteLength(wire, protocolVersion, messageSize) == length)
            && (protocolVersion != 1 || length > messageSize ==>
                  GetByteLength(wire, protocolVersion, messageSize) == 0)
    ensures GetNumberFields(wire, protocolVersion)
            == if protocolVersion == 1 then Number(wire[10], wire[11], 0, 0) else 0
  {
    TwoBytes(wire, 10);
    FourBytesAt(wire, 6);
  }

  lemma TwoBytes(wire: bytes, at: nat)
    requires at + 2 <= |wire|
    ensures Val(wire[at..at + 2]) == wire[at] as nat + 0x100 * wire[at + 1] as nat
  {
    var w := wire[at..at + 2];
    assert w == [wire[at]] + [wire[at + 1]] && w[1..] == [wire[at + 1]] && w[1..][1..] == [];
    assert Val(w[1..]) == wire[at + 1] as nat + 256 * Val([]);
  }

  lemma FourBytesAt(wire: bytes, at: nat)
    requires at + 4 <= |wire|
    ensures Val(wire[at..at + 4]) == Number(wire[at], wire[at + 1], wire[at + 2], wire[at + 3])
  {
    Pow256Values();
    ValConcat(wire[at..at + 2], wire[at + 2..at + 4]);
    assert wire[at..at + 4] == wire[at..at + 2] + wire[at + 2..at + 4];
    TwoBytes(wire, at);
    TwoBytes(wire, at + 2);
  }

  /** The header that to_wire writes, byte by byte. */
  lemma HeaderBytes(b: Buffer)
    requires |b.data| >= 12
    ensures var w := Published(b).data;
            && w[..4] == [b.prot, b.op, b.flags % 0x100, b.flags / 0x100]
            && w[4..6] == [b.check % 0x100, b.check / 0x100]
            && w[6..10] == [b.byteLength % 0x100, b.byteLength / 0x100 % 0x100, b.byteLength / 0x1_0000 % 0x100,
                            b.byteLength / 0x100_0000]
            && w[10..12] == [b.fields % 0x100, b.fields / 0x100]
            && w[12..] == b.data[12..]
  {
    LittleEndian(b.flags, b.byteLength);
    LittleEndian(b.check, b.byteLength);
    LittleEndian(b.fields, b.byteLength);
    var h, w := b.Header(), Published(b).data;
    assert forall i :: 0 <= i < 12 ==> w[i] == h[i];
  }

  lemma LittleEndian(n: uint16, m: uint32)
    ensures LE(n, 2) == [n % 0x100, n / 0x100]
    ensures LE(m, 4) == [m % 0x100, m / 0x100 % 0x100, m / 0x1_0000 % 0x100, m / 0x100_0000]
  {
    assert LE(n, 2) == [n % 0x100] + LE(n / 0x100, 1);
    assert LE(n / 0x100, 1) == [n / 0x100 % 0x100] + LE(n / 0x100 / 0x100, 0);
    assert LE(m, 4) == [m % 0x100] + LE(m / 0x100, 3);
    assert LE(m / 0x100, 3) == [m / 0x100 % 0x100] + LE(m / 0x100 / 0x100, 2);
    assert m / 0x100 / 0x100 == m / 0x1_0000 && m / 0x100 / 0x100 / 0x100 == m / 0x100_0000;
    assert LE(m / 0x1_0000, 2) == [m / 0x1_0000 % 0x100] + LE(m / 0x100_0000, 1);
    assert LE(m / 0x100_0000, 1) == [m / 0x100_0000 % 0x100] + LE(m / 0x100_0000 / 0x100, 0);
  }
}
