/** Byte strings, in-place overwrites and little-endian numbers: the memory the C files work on. */
module Bytes {

  type byte = x: int | 0 <= x < 256
  type bytes = seq<byte>
  type uint16 = x: int | 0 <= x < 0x1_0000
  type uint32 = x: int | 0 <= x < 0x1_0000_0000
  type uint64 = x: int | 0 <= x < 0x1_0000_0000_0000_0000

  /** A 4-byte object (`float` or `int`) as its bit pattern; the message layer never does arithmetic on it. */
  type Word = w: bytes | |w| == 4 witness [0, 0, 0, 0]

  const ZERO: Word := [0, 0, 0, 0]

  datatype Option<+T> = None | Some(value: T)

  /** A possibly null pointer, with the readable memory from it on. */
  datatype Pointer = Null | At(mem: bytes)

  function Zeros(n: nat): (r: bytes)
    ensures |r| == n
    ensures forall i :: 0 <= i < n ==> r[i] == 0
  {
    seq(n, _ => 0)
  }

  /** s with the bytes from `off` on overwritten by `b`. */
  function Splice(s: bytes, off: nat, b: bytes): (r: bytes)
    requires off + |b| <= |s|
    ensures |r| == |s|
    ensures forall i :: 0 <= i < |s| ==> r[i] == if off <= i < off + |b| then b[i - off] else s[i]
  {
    seq(|s|, i requires 0 <= i < |s| => if off <= i < off + |b| then b[i - off] else s[i])
  }

  /** The `width` bytes of n, least significant first. */
  function LE(n: nat, width: nat): (r: bytes)
    ensures |r| == width
  {
    if width == 0 then [] else [n % 256] + LE(n / 256, width - 1)
  }

  /** The number that `b` encodes, least significant byte first. */
  function Val(b: bytes): nat {
    if b == [] then 0 else b[0] + 256 * Val(b[1..])
  }

  /** The number that four bytes encode, written out. */
  function Number(b0: nat, b1: nat, b2: nat, b3: nat): nat {
    b0 + 0x100 * b1 + 0x1_0000 * b2 + 0x100_0000 * b3
  }

  function Pow256(k: nat): (r: nat)
    ensures r > 0
  {
    if k == 0 then 1 else 256 * Pow256(k - 1)
  }

  /** Storing a number that fits and loading it gives it back. */
  lemma {:induction false} LoadStored(n: nat, width: nat)
    requires n < Pow256(width)
    ensures Val(LE(n, width)) == n
  {
    if width > 0 {
      LoadStored(n / 256, width - 1);
      assert LE(n, width)[1..] == LE(n / 256, width - 1);
    }
  }

  /** A load of |a| + |b| bytes splits into a low and a high part. */
  lemma {:induction false} ValConcat(a: bytes, b: bytes)
    ensures Val(a + b) == Val(a) + Pow256(|a|) * Val(b)
  {
    if a == [] {
      assert a + b == b;
    } else {
      assert (a + b)[1..] == a[1..] + b;
      ValConcat(a[1..], b);
      assert Pow256(|a|) * Val(b) == 256 * (Pow256(|a| - 1) * Val(b)) by {
        assert Pow256(|a|) == 256 * Pow256(|a| - 1);
        MulAssoc(256, Pow256(|a| - 1), Val(b));
      }
    }
  }

  lemma MulAssoc(x: int, y: int, z: int)
    ensures (x * y) * z == x * (y * z)
  {
  }

  lemma {:induction false} ValBound(b: bytes)
    ensures Val(b) < Pow256(|b|)
  {
    if b != [] {
      ValBound(b[1..]);
    }
  }

  lemma Pow256Values()
    ensures Pow256(1) == 0x100
    ensures Pow256(2) == 0x1_0000
    ensures Pow256(4) == 0x1_0000_0000
    ensures Pow256(8) == 0x1_0000_0000_0000_0000
  {
    assert Pow256(3) == 0x100_0000;
    assert Pow256(6) == 0x1_0000_0000_0000;
  }

  /** An overwrite that lies beyond, or before, the part looked at leaves it alone. */
  lemma SpliceOutside(s: bytes, off: nat, b: bytes, lo: nat, hi: nat)
    requires off + |b| <= |s| && lo <= hi <= |s|
    requires hi <= off || off + |b| <= lo
    ensures Splice(s, off, b)[lo..hi] == s[lo..hi]
  {
  }

  /** `b` lies in `mem` from `pos` on. */
  ghost predicate Holds(mem: bytes, pos: nat, b: bytes) {
    pos + |b| <= |mem| && forall i :: 0 <= i < |b| ==> mem[pos + i] == b[i]
  }

  lemma HoldsConcat(mem: bytes, pos: nat, a: bytes, b: bytes)
    ensures Holds(mem, pos, a + b) <==> Holds(mem, pos, a) && Holds(mem, pos + |a|, b)
  {
    if Holds(mem, pos, a + b) {
      assert forall i :: 0 <= i < |a| ==> (a + b)[i] == a[i];
      assert forall i :: 0 <= i < |b| ==> (a + b)[|a| + i] == b[i];
    }
  }

  lemma HoldsSlice(mem: bytes, pos: nat, b: bytes)
    requires Holds(mem, pos, b)
    ensures mem[pos..pos + |b|] == b
  {
  }

  lemma HoldsThree(mem: bytes, pos: nat, a: bytes, b: bytes, c: bytes)
    requires Holds(mem, pos, a + b + c)
    ensures Holds(mem, pos, a) && Holds(mem, pos + |a|, b) && Holds(mem, pos + |a| + |b|, c)
  {
    HoldsConcat(mem, pos, a + b, c);
    HoldsConcat(mem, pos, a, b);
  }

  /** An overwrite leaves alone what lies before it. */
  lemma HeldBelow(data: bytes, at: nat, added: bytes, pos: nat, e: bytes)
    requires at + |added| <= |data| && pos + |e| <= at && Holds(data, pos, e)
    ensures Holds(Splice(data, at, added), pos, e)
  {
  }

  lemma SplitAround<T>(s: seq<T>, i: nat)
    requires i < |s|
    ensures s[..i] + [s[i]] == s[..i + 1] && s[..i] + [s[i]] + s[i + 1..] == s
  {
  }

  /** Two overwrites back to back are one. */
  lemma SpliceTwice(s: bytes, off: nat, a: bytes, b: bytes)
    requires off + |a| + |b| <= |s|
    ensures Splice(Splice(s, off, a), off + |a|, b) == Splice(s, off, a + b)
  {
  }

  /** `*(float*)(data + off) = w` and its `int` twin. */
  method StoreWord(data: array<byte>, off: nat, w: Word)
    requires off + 4 <= data.Length
    modifies data
    ensures data[..] == Splice(old(data[..]), off, w)
  {
    data[off], data[off + 1], data[off + 2], data[off + 3] := w[0], w[1], w[2], w[3];
  }

  /** Writing a byte string at `off`, as a run of C assignments through a moving pointer does. */
  method StoreBytes(data: array<byte>, off: nat, b: bytes)
    requires off + |b| <= data.Length
    modifies data
    ensures data[..] == Splice(old(data[..]), off, b)
  {
    forall i | 0 <= i < |b| {
      data[off + i] := b[i];
    }
  }
}
