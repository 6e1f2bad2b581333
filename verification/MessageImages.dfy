/** The finished robot messages byte by byte: what storing and loading through cached payload offsets
    (src/messages/rmt_messages.c) does to them, for any list of 4-byte fields. */
module MessageImages {
  import opened Bytes
  import opened Records
  import opened DataMessages
  import opened MessageRuns

  function Floats(vals: seq<Word>): (rs: seq<Record>)
    ensures |rs| == |vals|
  {
    seq(|vals|, i requires 0 <= i < |vals| => Rec(FLOAT, vals[i]))
  }

  function SensorFields(kind: Word, vals: seq<Word>): (rs: seq<Record>)
    ensures |rs| == 1 + |vals|
  {
    [Rec(INT32, kind)] + Floats(vals)
  }

  predicate FourBytes(recs: seq<Record>) {
    forall r :: r in recs ==> |r.payload| == 4 && (r.code == FLOAT || r.code == INT32)
  }

  /** The whole buffer of a published message, byte by byte. */
  function Image(size: nat, recs: seq<Record>): (w: bytes)
    requires DATA_HEADER_SIZE + |Encode(recs)| < size < 0x8000_0000
    ensures |w| == size
  {
    ImageBuffer0(size, recs).Header() + [0] + Encode(recs)
    + Zeros(size - DATA_HEADER_SIZE - |Encode(recs)|)
  }

  function ImageBuffer0(size: nat, recs: seq<Record>): Buffer
    requires DATA_HEADER_SIZE + |Encode(recs)| < size < 0x8000_0000
  {
    Buffer(PROTOCOL_VERSION, DATA_PACKET, 0, 0, DATA_HEADER_SIZE + |Encode(recs)|, |recs| % 0x1_0000, [])
  }

  function ImageBuffer(size: nat, recs: seq<Record>): Buffer
    requires DATA_HEADER_SIZE + |Encode(recs)| < size < 0x8000_0000
  {
    ImageBuffer0(size, recs).(data := Image(size, recs))
  }

  /** A buffer under construction: framed, with the struct fields create_buffer sets. */
  ghost predicate Building(b: Buffer, recs: seq<Record>) {
    Frames(b, recs) && b.prot == PROTOCOL_VERSION && b.op == DATA_PACKET && b.flags == 0 && b.check == 0
  }

  lemma PublishedImage(b: Buffer, recs: seq<Record>)
    requires Building(b, recs)
    ensures Published(b) == ImageBuffer(|b.data|, recs)
  {
    var got, want := Published(b).data, Image(|b.data|, recs);
    var code := Encode(recs);
    forall i | 0 <= i < |got|
      ensures got[i] == want[i]
    {
      if DATA_HEADER_SIZE <= i < b.byteLength {
        assert got[DATA_HEADER_SIZE + (i - DATA_HEADER_SIZE)] == code[i - DATA_HEADER_SIZE];
      }
    }
    assert got == want;
  }

  lemma ImageShows(size: nat, recs: seq<Record>)
    requires DATA_HEADER_SIZE + |Encode(recs)| < size < 0x8000_0000 && |recs| < 0x1_0000
    ensures Shows(Image(size, recs), recs, |recs|)
  {
    var b := ImageBuffer0(size, recs);
    ImageLayout(b.Header(), Encode(recs), Zeros(size - DATA_HEADER_SIZE - |Encode(recs)|));
    CountStored(b);
  }

  lemma CountStored(b: Buffer)
    ensures Val(b.Header()[FLDPOS..FLDPOS + 2]) == b.fields
  {
    HeaderParts(b);
    Pow256Values();
    LoadStored(b.fields, 2);
  }

  lemma ImageLayout(h: bytes, code: bytes, tail: bytes)
    requires |h| == 12
    ensures var w := h + [0] + code + tail;
            w[FLDPOS..FLDPOS + 2] == h[FLDPOS..FLDPOS + 2] && Holds(w, DATA_HEADER_SIZE, code)
  {
  }

  /** Records of four bytes sit seven bytes apart. */
  lemma {:induction false} SevenApart(recs: seq<Record>)
    requires FourBytes(recs)
    ensures |Encode(recs)| == 7 * |recs|
  {
    if recs != [] {
      assert recs[0] in recs && forall r :: r in recs[1..] ==> r in recs;
      SevenApart(recs[1..]);
    }
  }

  function SlotOf(i: nat): nat { 15 + 7 * i }

  lemma PayloadAtSlot(recs: seq<Record>, i: nat)
    requires FourBytes(recs) && i < |recs|
    ensures PayloadAt(recs, i) == SlotOf(i)
  {
    assert forall r :: r in recs[..i] ==> r in recs;
    SevenApart(recs[..i]);
  }

  /** A store of the right size through a cached offset rewrites that record's payload and nothing
      else: header, sizes, type codes, terminators and the other payloads are what they were. */
  lemma StoreRewritesPayload(size: nat, recs: seq<Record>, i: nat, v: bytes)
    requires DATA_HEADER_SIZE + |Encode(recs)| < size < 0x8000_0000
    requires i < |recs| && |v| == |recs[i].payload|
    ensures var recs' := recs[i := Rec(recs[i].code, v)];
            && PayloadAt(recs, i) + |v| <= size
            && |Encode(recs')| == |Encode(recs)|
            && Splice(Image(size, recs), PayloadAt(recs, i), v) == Image(size, recs')
  {
    var a, r, z := recs[..i], recs[i], recs[i + 1..];
    var r': Record := Rec(r.code, v);
    SplitAround(recs, i);
    assert recs[i := r'] == a + [r'] + z;
    RewriteAround(size, a, r, r', z);
  }

  lemma RewriteAround(size: nat, a: seq<Record>, r: Record, r': Record, z: seq<Record>)
    requires DATA_HEADER_SIZE + |Encode(a + [r] + z)| < size < 0x8000_0000
    requires |r.payload| == |r'.payload| && r.code == r'.code
    ensures |Encode(a + [r'] + z)| == |Encode(a + [r] + z)|
    ensures DATA_HEADER_SIZE + |Encode(a)| + 2 + |r.payload| <= size
    ensures Splice(Image(size, a + [r] + z), DATA_HEADER_SIZE + |Encode(a)| + 2, r'.payload)
         == Image(size, a + [r'] + z)
  {
    EncodeAround(a, r, z);
    EncodeAround(a, r', z);
    RewriteBytes(ImageBuffer0(size, a + [r] + z).Header() + [0], Encode(a), r, r', Encode(z),
                 Zeros(size - DATA_HEADER_SIZE - |Encode(a + [r] + z)|));
  }

  lemma RewriteBytes(head: bytes, a: bytes, r: Record, r': Record, z: bytes, tail: bytes)
    requires |r.payload| == |r'.payload| && r.code == r'.code
    ensures Splice(head + (a + EncodeRecord(r) + z) + tail, |head| + |a| + 2, r'.payload)
         == head + (a + EncodeRecord(r') + z) + tail
  {
    Regroup(head, a, r, z, tail);
    Regroup(head, a, r', z, tail);
    SpliceMiddle(head + a + [|r.payload|, r.code], r.payload, r'.payload, [0] + z + tail);
  }

  lemma Regroup(head: bytes, a: bytes, r: Record, z: bytes, tail: bytes)
    ensures head + (a + EncodeRecord(r) + z) + tail
         == (head + a + [|r.payload|, r.code]) + r.payload + ([0] + z + tail)
  {
  }

  lemma SpliceMiddle(pre: bytes, mid: bytes, v: bytes, post: bytes)
    requires |mid| == |v|
    ensures Splice(pre + mid + post, |pre|, v) == pre + v + post
  {
  }

  /** The same, read: on the memory of any message of 4-byte fields (its first byte_length bytes are
      enough), the walk by index and the cached offset give the same value. */
  lemma CachedOffsetRefinesWalk(wire: bytes, recs: seq<Record>, dst: bytes, i: nat, maxFields: nat)
    requires Shows(wire, recs, |recs|) && FourBytes(recs)
    requires i < |recs| < maxFields
    ensures SlotOf(i) + 4 < |wire|
    ensures var l := Lookup(wire, dst, i, maxFields);
            && l == Found(4, recs[i].code, SlotOf(i))
            && Fetched(wire, dst, l) == recs[i].payload == wire[SlotOf(i)..SlotOf(i) + 4]
  {
    assert recs[i] in recs;
    PayloadAtSlot(recs, i);
    ReaderInverts(wire, recs, dst, |recs|, i, maxFields);
    PlainFieldReadBack(wire, recs, dst, |recs|, i, maxFields);
  }

  /** `*(float*)(data + off)` */
  function LoadWord(data: bytes, off: nat): Word
    requires off + 4 <= |data|
  {
    data[off..off + 4]
  }

  /** The first four header bytes of a data packet: version, opcode, no flags. */
  const HEAD: Word := [PROTOCOL_VERSION, DATA_PACKET, 0, 0]

  /** A message whose first four bytes were overwritten by `head`, as camera_msg_to_wire does with dt. */
  function Message(size: nat, recs: seq<Record>, head: Word): (w: bytes)
    requires DATA_HEADER_SIZE + |Encode(recs)| < size < 0x8000_0000
    ensures |w| == size
  {
    Splice(Image(size, recs), 0, head)
  }

  lemma HeadOverwritten(size: nat, recs: seq<Record>, head: Word, w: Word)
    requires DATA_HEADER_SIZE + |Encode(recs)| < size < 0x8000_0000
    ensures Splice(Message(size, recs, head), 0, w) == Message(size, recs, w)
  {
  }

  /** The buffer of a finished message, byte by byte. */
  ghost predicate Carries(buff: DataBuffer, recs: seq<Record>, head: Word)
    reads buff, buff.data
  {
    && FourBytes(recs) && DATA_HEADER_SIZE + |Encode(recs)| < buff.data.Length < 0x8000_0000
    && buff.byteLength == DATA_HEADER_SIZE + |Encode(recs)|
    && buff.data[..] == Message(buff.data.Length, recs, head)
  }

  /** The header is that of a data packet if and only if the overwrite restores it. */
  lemma HeaderIntactIff(size: nat, recs: seq<Record>, head: Word)
    requires DATA_HEADER_SIZE + |Encode(recs)| < size < 0x8000_0000
    ensures Message(size, recs, head) == Image(size, recs) <==> head == HEAD
  {
    var image, h := Image(size, recs), ImageBuffer0(size, recs).Header();
    assert LE(0, 2) == [0, 0] by { assert LE(0, 1) == [0]; }
    assert forall j :: 0 <= j < 4 ==> image[j] == h[j] == HEAD[j];
    if Message(size, recs, head) == image {
      assert forall j :: 0 <= j < 4 ==> head[j] == Message(size, recs, head)[j];
    }
  }

  /** Whatever the first four bytes are, the published fields stay readable in full by the walk. */
  lemma MessageShows(size: nat, recs: seq<Record>, head: Word)
    requires DATA_HEADER_SIZE + |Encode(recs)| < size < 0x8000_0000 && |recs| < 0x1_0000
    ensures Shows(Message(size, recs, head), recs, |recs|)
  {
    ImageShows(size, recs);
    SpliceOutside(Image(size, recs), 0, head, FLDPOS, FLDPOS + 2);
  }

  lemma MessageStore(size: nat, recs: seq<Record>, head: Word, i: nat, v: Word)
    requires DATA_HEADER_SIZE + |Encode(recs)| < size < 0x8000_0000 && FourBytes(recs) && i < |recs|
    ensures var recs' := recs[i := Rec(recs[i].code, v)];
            && FourBytes(recs') && |Encode(recs')| == |Encode(recs)| && SlotOf(i) + 4 <= size
            && Splice(Message(size, recs, head), SlotOf(i), v) == Message(size, recs', head)
  {
    assert recs[i] in recs;
    PayloadAtSlot(recs, i);
    StoreRewritesPayload(size, recs, i, v);
    SplicesCommute(Image(size, recs), head, SlotOf(i), v);
  }

  lemma SplicesCommute(s: bytes, head: Word, off: nat, v: bytes)
    requires 4 <= off && off + |v| <= |s|
    ensures Splice(Splice(s, 0, head), off, v) == Splice(Splice(s, off, v), 0, head)
  {
  }

  /** Loading through a cached offset gives the field; loading at offset 0 gives the first four bytes. */
  lemma MessageLoads(size: nat, recs: seq<Record>, head: Word, wire: bytes, i: nat)
    requires DATA_HEADER_SIZE + |Encode(recs)| < size < 0x8000_0000
    requires FourBytes(recs) && i < |recs| < 0x1_0000
    requires Message(size, recs, head)[..DATA_HEADER_SIZE + |Encode(recs)|] <= wire
    ensures SlotOf(i) + 4 <= |wire| && LoadWord(wire, SlotOf(i)) == recs[i].payload
    ensures LoadWord(wire, 0) == head
    ensures Shows(wire, recs, |recs|)
  {
    var m, n := Message(size, recs, head), DATA_HEADER_SIZE + |Encode(recs)|;
    MessageShows(size, recs, head);
    PrefixShows(m, recs, wire);
    CachedOffsetRefinesWalk(wire, recs, [], i, |recs| + 1);
    assert wire[0..4] == m[..n][0..4] == head;
  }

  /** The first byte_length bytes are enough. */
  lemma PrefixShows(m: bytes, recs: seq<Record>, wire: bytes)
    requires Shows(m, recs, |recs|) && m[..DATA_HEADER_SIZE + |Encode(recs)|] <= wire
    ensures Shows(wire, recs, |recs|)
  {
    var n := DATA_HEADER_SIZE + |Encode(recs)|;
    assert forall i :: 0 <= i < n ==> wire[i] == m[..n][i] == m[i];
    assert wire[FLDPOS..FLDPOS + 2] == m[FLDPOS..FLDPOS + 2];
  }

  /** Two messages with the same type codes differ in payload bytes only. */
  lemma OnlyPayloadsDiffer(size: nat, r1: seq<Record>, r2: seq<Record>, head: Word, j: nat)
    requires FourBytes(r1) && FourBytes(r2) && |r1| == |r2|
    requires forall i :: 0 <= i < |r1| ==> r1[i].code == r2[i].code
    requires DATA_HEADER_SIZE + 7 * |r1| < size < 0x8000_0000 && j < size
    requires forall i :: 0 <= i < |r1| ==> j < SlotOf(i) || SlotOf(i) + 4 <= j
    ensures |Encode(r1)| == |Encode(r2)| == 7 * |r1|
    ensures Message(size, r1, head)[j] == Message(size, r2, head)[j]
  {
    SevenApart(r1);
    SevenApart(r2);
    var h := ImageBuffer0(size, r1).Header() + [0];
    if j < DATA_HEADER_SIZE {
      assert Image(size, r1)[j] == h[j] == Image(size, r2)[j];
    } else if j < DATA_HEADER_SIZE + 7 * |r1| {
      var k := j - DATA_HEADER_SIZE;
      assert j < SlotOf(k / 7) || SlotOf(k / 7) + 4 <= j;
      SameSkeleton(r1, r2, k);
      assert Image(size, r1)[j] == Encode(r1)[k] && Image(size, r2)[j] == Encode(r2)[k];
    }
  }

  lemma {:induction false} SameSkeleton(r1: seq<Record>, r2: seq<Record>, k: nat)
    requires FourBytes(r1) && FourBytes(r2) && |r1| == |r2|
    requires forall i :: 0 <= i < |r1| ==> r1[i].code == r2[i].code
    requires k < 7 * |r1| && (k % 7 < 2 || k % 7 == 6)
    requires |Encode(r1)| == |Encode(r2)| == 7 * |r1|
    ensures Encode(r1)[k] == Encode(r2)[k]
    decreases |r1|
  {
    assert r1[0] in r1 && r2[0] in r2;
    if k < 7 {
      assert Encode(r1)[k] == EncodeRecord(r1[0])[k] && Encode(r2)[k] == EncodeRecord(r2[0])[k];
    } else {
      assert forall r :: r in r1[1..] ==> r in r1;
      assert forall r :: r in r2[1..] ==> r in r2;
      SameSkeleton(r1[1..], r2[1..], k - 7);
    }
  }
}
