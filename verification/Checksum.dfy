/** src/messages/checksum.c: the bit-counting checksum, and exactly which corruptions it detects. */
module Checksum {
  import opened Bytes

  function Ones(value: nat): nat {
    if value == 0 then 0 else value % 2 + Ones(value / 2)
  }

  function BitCount(data: bytes): nat {
    if data == [] then 0 else Ones(data[0]) + BitCount(data[1..])
  }

  lemma {:induction false} OnesBound(value: nat, bits: nat, bound: nat)
    requires value < bound && bound == Power2(bits)
    ensures Ones(value) <= bits
  {
    if value != 0 {
      OnesBound(value / 2, bits - 1, bound / 2);
    }
  }

  function Power2(n: nat): nat {
    if n == 0 then 1 else 2 * Power2(n - 1)
  }

  lemma ByteBound(value: byte)
    ensures Ones(value) <= 8
  {
    assert Power2(8) == 256 by { assert Power2(4) == 16; }
    OnesBound(value, 8, 256);
  }

  /** create_checksum; the counter is a 32-bit int, the result its low 16 bits. */
  method CreateChecksum(data: bytes) returns (checksum: uint16)
    requires 8 * |data| < 0x8000_0000
    ensures checksum == BitCount(data) % 0x1_0000
  {
    var ret, index := 0, 0;
    while index < |data|
      invariant index <= |data| && 0 <= ret <= 8 * index
      invariant ret == BitCount(data[..index])
    {
      var value: nat := data[index];
      ByteBound(data[index]);
      ghost var before := ret;
      while value > 0
        invariant before <= ret && ret + Ones(value) == before + Ones(data[index])
      {
        if value % 2 == 1 {
          ret := ret + 1;
        }
        value := value / 2;
      }
      assert data[..index + 1] == data[..index] + [data[index]];
      CountConcat(data[..index], [data[index]]);
      index := index + 1;
    }
    assert data[..index] == data;
    checksum := ret % 0x1_0000;
  }

  /** validate_checksum */
  method ValidateChecksum(data: bytes, checksum: uint16) returns (valid: bool)
    requires 8 * |data| < 0x8000_0000
    ensures valid <==> checksum == BitCount(data) % 0x1_0000
  {
    var actual := CreateChecksum(data);
    valid := checksum == actual;
  }

  lemma {:induction false} CountConcat(a: bytes, b: bytes)
    ensures BitCount(a + b) == BitCount(a) + BitCount(b)
  {
    if a == [] {
      assert a + b == b;
    } else {
      assert (a + b)[1..] == a[1..] + b;
      CountConcat(a[1..], b);
    }
  }

  /** Reordering bytes is never noticed. */
  lemma {:induction false} CountPermuted(a: bytes, b: bytes)
    requires multiset(a) == multiset(b)
    ensures BitCount(a) == BitCount(b)
    decreases |a|
  {
    if a == [] {
      assert |multiset(b)| == |b|;
    } else {
      assert a[0] in multiset(b);
      var i :| 0 <= i < |b| && b[i] == a[0];
      Without(a, 0);
      Without(b, i);
      CountPermuted(a[..0] + a[1..], b[..i] + b[i + 1..]);
    }
  }

  lemma Without(b: bytes, i: nat)
    requires i < |b|
    ensures multiset(b[..i] + b[i + 1..]) == multiset(b) - multiset{b[i]}
    ensures BitCount(b) == Ones(b[i]) + BitCount(b[..i] + b[i + 1..])
  {
    SplitAround(b, i);
    WithoutMiddle(b[..i], b[i], b[i + 1..]);
  }

  lemma WithoutMiddle(pre: bytes, x: byte, post: bytes)
    ensures multiset(pre + post) == multiset(pre + [x] + post) - multiset{x}
    ensures BitCount(pre + [x] + post) == Ones(x) + BitCount(pre + post)
  {
    CountConcat(pre + [x], post);
    CountConcat(pre, [x]);
    CountConcat(pre, post);
  }

  // ---------------------------------------------------------------- corruption

  /** How many bits are 0 in x and 1 in y. */
  function Raised(x: nat, y: nat): nat
    decreases x + y
  {
    if x == 0 && y == 0 then 0
    else (if x % 2 == 0 && y % 2 == 1 then 1 else 0) + Raised(x / 2, y / 2)
  }

  function RaisedIn(a: bytes, b: bytes): nat
    requires |a| == |b|
  {
    if a == [] then 0 else Raised(a[0], b[0]) + RaisedIn(a[1..], b[1..])
  }

  lemma {:induction false} OnesBalance(x: nat, y: nat)
    ensures Ones(y) + Raised(y, x) == Ones(x) + Raised(x, y)
    decreases x + y
  {
    if x != 0 || y != 0 {
      OnesBalance(x / 2, y / 2);
    }
  }

  lemma {:induction false} CountBalance(a: bytes, b: bytes)
    requires |a| == |b|
    ensures BitCount(b) + RaisedIn(b, a) == BitCount(a) + RaisedIn(a, b)
  {
    if a != [] {
      OnesBalance(a[0], b[0]);
      CountBalance(a[1..], b[1..]);
    }
  }

  /** A corrupted buffer passes exactly when as many bits were raised as lowered, modulo 2^16. */
  lemma DetectedIff(a: bytes, b: bytes)
    requires |a| == |b|
    ensures BitCount(a) % 0x1_0000 == BitCount(b) % 0x1_0000
            <==> (RaisedIn(a, b) - RaisedIn(b, a)) % 0x1_0000 == 0
  {
    CountBalance(a, b);
    Congruent(BitCount(b), BitCount(a));
  }

  lemma Congruent(x: int, y: int)
    ensures x % 0x1_0000 == y % 0x1_0000 <==> (x - y) % 0x1_0000 == 0
  {
    var q, r := x / 0x1_0000, y / 0x1_0000;
    assert x - y == 0x1_0000 * (q - r) + (x % 0x1_0000 - y % 0x1_0000);
  }

  /** Flipping one bit of one byte: its value with bit k complemented. */
  function Flip(value: nat, k: nat): nat {
    if k == 0 then (if value % 2 == 0 then value + 1 else value - 1)
    else value % 2 + 2 * Flip(value / 2, k - 1)
  }

  lemma {:induction false} FlipCounts(value: nat, k: nat)
    ensures Raised(value, Flip(value, k)) + Raised(Flip(value, k), value) == 1
    decreases k
  {
    if k == 0 {
      SameRaised(value / 2);
    } else {
      FlipCounts(value / 2, k - 1);
    }
  }

  lemma {:induction false} SameRaised(x: nat)
    ensures Raised(x, x) == 0
  {
    if x != 0 {
      SameRaised(x / 2);
    }
  }

  lemma {:induction false} SameRaisedIn(a: bytes)
    ensures RaisedIn(a, a) == 0
  {
    if a != [] {
      SameRaised(a[0]);
      SameRaisedIn(a[1..]);
    }
  }

  lemma {:induction false} OneByteRaised(a: bytes, i: nat, v: byte)
    requires i < |a|
    ensures RaisedIn(a, a[i := v]) == Raised(a[i], v) && RaisedIn(a[i := v], a) == Raised(v, a[i])
  {
    if i == 0 {
      SameRaisedIn(a[1..]);
    } else {
      assert a[i := v][1..] == a[1..][i - 1 := v];
      OneByteRaised(a[1..], i - 1, v);
      SameRaised(a[0]);
    }
  }

  lemma {:induction false} FlipFits(value: nat, k: nat, bits: nat)
    requires k < bits && value < Power2(bits)
    ensures Flip(value, k) < Power2(bits)
    decreases bits
  {
    if k > 0 {
      FlipFits(value / 2, k - 1, bits - 1);
    } else {
      assert Power2(bits) % 2 == 0;
    }
  }

  /** Every single-bit error, in any bit of any byte of any buffer, is detected. */
  lemma SingleBitDetected(data: bytes, i: nat, k: nat)
    requires i < |data| && k < 8
    ensures Flip(data[i], k) < 256
    ensures BitCount(data[i := Flip(data[i], k)]) % 0x1_0000 != BitCount(data) % 0x1_0000
  {
    assert Power2(8) == 256 by { assert Power2(4) == 16; }
    FlipFits(data[i], k, 8);
    var v: byte := Flip(data[i], k);
    FlipCounts(data[i], k);
    OneByteRaised(data, i, v);
    DetectedIff(data, data[i := v]);
  }
}
