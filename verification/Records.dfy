/** The record format `[size][type code][payload][0]` of src/messages/data_messages.c, independent of any buffer. */
module Records {
  import opened Bytes

  datatype RawRecord = Rec(code: byte, payload: bytes)

  /** A field of a message; its size is one byte on the wire. */
  type Record = r: RawRecord | |r.payload| < 256 witness Rec(0, [])

  function EncodeRecord(r: Record): (e: bytes)
    ensures |e| == 3 + |r.payload|
  {
    [|r.payload|, r.code] + r.payload + [0]
  }

  function Encode(rs: seq<Record>): bytes {
    if rs == [] then [] else EncodeRecord(rs[0]) + Encode(rs[1..])
  }

  lemma {:induction false} EncodeConcat(a: seq<Record>, b: seq<Record>)
    ensures Encode(a + b) == Encode(a) + Encode(b)
  {
    if a == [] {
      assert a + b == b;
    } else {
      assert (a + b)[1..] == a[1..] + b;
      EncodeConcat(a[1..], b);
      assert Encode(a + b) == EncodeRecord(a[0]) + (Encode(a[1..]) + Encode(b));
    }
  }

  lemma EncodeSnoc(rs: seq<Record>, r: Record)
    ensures Encode(rs + [r]) == Encode(rs) + EncodeRecord(r)
  {
    EncodeConcat(rs, [r]);
    assert Encode([r]) == EncodeRecord(r) + Encode([]);
  }

  /** Where the i-th record starts, counted from the first record. */
  function StartOf(rs: seq<Record>, i: nat): nat
    requires i <= |rs|
  {
    |Encode(rs[..i])|
  }

  lemma EncodeAround(a: seq<Record>, r: Record, z: seq<Record>)
    ensures Encode(a + [r] + z) == Encode(a) + EncodeRecord(r) + Encode(z)
  {
    EncodeConcat(a + [r], z);
    EncodeSnoc(a, r);
  }

  /** The records that a byte string is made of, if it is made of records. */
  function Parse(b: bytes): Option<seq<Record>> {
    if b == [] then Some([])
    else
      var n: nat := b[0];
      if |b| < 3 + n || b[2 + n] != 0 then None
      else
        var first: Record := Rec(b[1], b[2..2 + n]);
        match Parse(b[3 + n..])
        case None => None
        case Some(rest) => Some([first] + rest)
  }

  /** Printing then parsing is the identity, and parsing accepts nothing that printing does not produce. */
  lemma {:induction false} ParseEncode(rs: seq<Record>)
    ensures Parse(Encode(rs)) == Some(rs)
  {
    if rs != [] {
      var e := EncodeRecord(rs[0]);
      var b := Encode(rs);
      assert b == e + Encode(rs[1..]);
      var n: nat := b[0];
      assert n == |rs[0].payload| && b[1] == rs[0].code && b[2 + n] == 0;
      assert b[2..2 + n] == rs[0].payload;
      assert b[3 + n..] == Encode(rs[1..]);
      ParseEncode(rs[1..]);
      assert [rs[0]] + rs[1..] == rs;
    }
  }

  lemma {:induction false} EncodeParse(b: bytes)
    requires Parse(b).Some?
    ensures Encode(Parse(b).value) == b
  {
    if b != [] {
      var n: nat := b[0];
      var rest := b[3 + n..];
      EncodeParse(rest);
      var rs := Parse(b).value;
      assert rs[1..] == Parse(rest).value;
      assert b == EncodeRecord(rs[0]) + rest;
    }
  }
}
