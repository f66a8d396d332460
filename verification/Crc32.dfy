/** CRC-32 with the reflected polynomial 0xEDB88320, in the two-argument form of `zlib.crc32`. */
module Crc32 {
  import opened Bytes

  const POLYNOMIAL: U32 := 0xEDB8_8320

  function Pow2(n: nat): (r: nat)
    ensures r > 0
  {
    if n == 0 then 1 else 2 * Pow2(n - 1)
  }

  lemma {:induction false} WordSize()
    ensures Pow2(24) == 0x100_0000 && Pow2(31) == 0x8000_0000 && Pow2(32) == 0x1_0000_0000
  {
    assert Pow2(8) == 0x100;
    assert Pow2(16) == 0x1_0000;
    assert Pow2(24) == 0x100_0000;
  }

  /** Bitwise exclusive or. */
  function Xor(a: nat, b: nat): nat
    decreases a + b
  {
    if a == 0 then b else (a + b) % 2 + 2 * Xor(a / 2, b / 2)
  }

  lemma {:induction false} XorBound(n: nat, a: nat, b: nat)
    requires a < Pow2(n) && b < Pow2(n)
    ensures Xor(a, b) < Pow2(n)
    ensures n > 0 && a < Pow2(n - 1) <= b ==> Pow2(n - 1) <= Xor(a, b)
  {
    if n > 0 && a > 0 {
      XorBound(n - 1, a / 2, b / 2);
    }
  }

  lemma {:induction false} XorStep(a: nat, b: nat)
    ensures Xor(a, b) == (a + b) % 2 + 2 * Xor(a / 2, b / 2)
  {
    if a == 0 {
      assert Xor(0, b / 2) == b / 2;
    }
  }

  lemma {:induction false} BitAndHalf(bit: nat, half: nat, a: nat, b: nat)
    requires bit == (a + b) % 2
    ensures (bit + 2 * half) / 2 == half && (bit + 2 * half + b) % 2 == a % 2
  {
    var k := (a + b) / 2;
    assert bit + 2 * half + b == a + 2 * (half + b - k);
  }

  lemma {:induction false} XorCancel(a: nat, b: nat)
    ensures Xor(Xor(a, b), b) == a
    decreases a + b
  {
    if a > 0 || b > 0 {
      var half := Xor(a / 2, b / 2);
      XorStep(a, b);
      BitAndHalf((a + b) % 2, half, a, b);
      XorStep(Xor(a, b), b);
      XorCancel(a / 2, b / 2);
    }
  }

  lemma {:induction false} XorCommutes(a: nat, b: nat)
    ensures Xor(a, b) == Xor(b, a)
    decreases a + b
  {
    if a == 0 && b == 0 {
    } else {
      XorCommutes(a / 2, b / 2);
      XorStep(a, b);
      XorStep(b, a);
    }
  }

  function Xor32(a: U32, b: U32): U32
  {
    WordSize();
    XorBound(32, a, b);
    Xor(a, b)
  }

  function BitStep(c: U32): U32
  {
    if c % 2 == 1 then Xor32(c / 2, POLYNOMIAL) else c / 2
  }

  /** Shifts `bits` bits out of the register, then works through the bytes that follow. */
  function Fold(register: U32, bits: nat, data: Bytes): U32
    decreases |data|, bits
  {
    if bits > 0 then Fold(BitStep(register), bits - 1, data)
    else if data == [] then register
    else Fold(Xor32(register, data[0]), 8, data[1..])
  }

  /** `zlib.crc32(data, crc)`: the register is complemented on the way in and out. */
  function Update(crc: U32, data: Bytes): U32
  {
    MAX32 - Fold(MAX32 - crc, 0, data)
  }

  /** `zlib.crc32(data)`. */
  function Crc(data: Bytes): U32
  {
    Update(0, data)
  }

  lemma {:induction false} CrcOfNothing()
    ensures Crc([]) == 0
  {
  }

  lemma {:induction false} FoldConcat(register: U32, bits: nat, a: Bytes, b: Bytes)
    ensures Fold(register, bits, a + b) == Fold(Fold(register, bits, a), 0, b)
    decreases |a|, bits
  {
    if bits > 0 {
      FoldConcat(BitStep(register), bits - 1, a, b);
    } else if a == [] {
      assert a + b == b;
    } else {
      FoldConcat(Xor32(register, a[0]), 8, a[1..], b);
      assert (a + b)[1..] == a[1..] + b;
    }
  }

  /** The running checksum does not see how the data was cut. */
  lemma {:induction false} UpdateConcat(crc: U32, a: Bytes, b: Bytes)
    ensures Update(Update(crc, a), b) == Update(crc, a + b)
    ensures crc == 0 ==> Update(Crc(a), b) == Crc(a + b)
  {
    FoldConcat(MAX32 - crc, 0, a, b);
  }

  /** Shifting out a set bit leaves the polynomial's top bit behind. */
  lemma {:induction false} BitStepTop(c: U32)
    ensures BitStep(c) >= 0x8000_0000 <==> c % 2 == 1
    ensures c % 2 == 1 ==> Xor32(BitStep(c), POLYNOMIAL) == c / 2
  {
    if c % 2 == 1 {
      WordSize();
      XorBound(32, c / 2, POLYNOMIAL);
      XorCancel(c / 2, POLYNOMIAL);
    }
  }

  lemma {:induction false} BitStepInjective(c: U32, d: U32)
    requires BitStep(c) == BitStep(d)
    ensures c == d
  {
    BitStepTop(c);
    BitStepTop(d);
  }

  lemma {:induction false} FoldInjective(c: U32, d: U32, bits: nat, data: Bytes)
    requires Fold(c, bits, data) == Fold(d, bits, data)
    ensures c == d
    decreases |data|, bits
  {
    if bits > 0 {
      FoldInjective(BitStep(c), BitStep(d), bits - 1, data);
      BitStepInjective(c, d);
    } else if data != [] {
      FoldInjective(Xor32(c, data[0]), Xor32(d, data[0]), 8, data[1..]);
      XorCancel(c, data[0]);
      XorCancel(d, data[0]);
    }
  }

  lemma {:induction false} FoldThrough(c: U32, before: Bytes, x: Byte, after: Bytes)
    ensures Fold(c, 0, before + [x] + after) == Fold(Xor32(Fold(c, 0, before), x), 8, after)
  {
    var tail := [x] + after;
    assert tail[1..] == after && before + [x] + after == before + tail;
    FoldConcat(c, 0, before, tail);
  }

  lemma {:induction false} XorInjective(c: U32, x: U32, y: U32)
    requires Xor32(c, x) == Xor32(c, y)
    ensures x == y
  {
    XorCommutes(c, x);
    XorCommutes(c, y);
    XorCancel(x, c);
    XorCancel(y, c);
  }

  /** A change confined to one byte, anywhere in the data, always changes the checksum. */
  lemma {:induction false} DetectsOneByte(crc: U32, before: Bytes, x: Byte, y: Byte, after: Bytes)
    requires x != y
    ensures Update(crc, before + [x] + after) != Update(crc, before + [y] + after)
  {
    var c := Fold(MAX32 - crc, 0, before);
    FoldThrough(MAX32 - crc, before, x, after);
    FoldThrough(MAX32 - crc, before, y, after);
    if Fold(Xor32(c, x), 8, after) == Fold(Xor32(c, y), 8, after) {
      FoldInjective(Xor32(c, x), Xor32(c, y), 8, after);
      XorInjective(c, x, y);
    }
  }

  // ---------- A known checksum ----------

  lemma {:induction false} Twice(h: nat, x: nat)
    ensures 2 * (h * x) == 2 * h * x
  {
  }

  lemma {:induction false} Gap(d: nat, x: nat, q: nat)
    requires x < q
    ensures d * x + d <= d * q
  {
    assert d * q == d * (q - 1) + d;
    if q - 1 > x {
      Gap(d, x, q - 1);
    }
  }

  lemma {:induction false} Divided(b: nat, d: nat, q: nat, r: nat)
    requires d > 0 && b == d * q + r && r < d
    ensures b / d == q && b % d == r
  {
    var x := b / d;
    assert d * x <= b < d * x + d;
    if q > x {
      Gap(d, x, q);
    } else if q < x {
      Gap(d, q, x);
    }
  }

  lemma {:induction false} HalfWay(h: nat, b: nat)
    requires h > 0
    ensures (2 * h - 1) / 2 == h - 1 && (2 * h - 1 + b) % 2 == 1 - b % 2
    ensures b / (2 * h) == b / 2 / h && b % (2 * h) == 2 * (b / 2 % h) + b % 2
  {
    var q, r := b / 2 / h, b / 2 % h;
    assert b / 2 == h * q + r;
    assert b == (2 * h) * q + (2 * r + b % 2);
    Divided(b, 2 * h, q, 2 * r + b % 2);
  }

  lemma {:induction false} OneMore(h: nat, b: nat)
    requires h > 0 && Xor(h - 1, b / 2) == h - 1 - b / 2 % h + h * (b / 2 / h)
    ensures Xor(2 * h - 1, b) == 2 * h - 1 - b % (2 * h) + 2 * h * (b / (2 * h))
  {
    hide Xor;
    XorStep(2 * h - 1, b);
    HalfWay(h, b);
    Twice(h, b / 2 / h);
  }

  /** Ones turn the bits over. */
  lemma {:induction false} XorOnes(k: nat, b: nat)
    ensures Xor(Pow2(k) - 1, b) == Pow2(k) - 1 - b % Pow2(k) + Pow2(k) * (b / Pow2(k))
  {
    if k == 0 {
    } else {
      XorOnes(k - 1, b / 2);
      OneMore(Pow2(k - 1), b);
    }
  }

  /** Zeros shifted out leave nothing behind. */
  lemma {:induction false} EvenSteps(register: U32, n: nat, m: nat)
    requires register % Pow2(n) == 0
    ensures Fold(register, n + m, []) == Fold(register / Pow2(n), m, [])
    decreases n
  {
    if n > 0 {
      HalfWay(Pow2(n - 1), register);
      EvenSteps(register / 2, n - 1, m);
    }
  }

  lemma {:induction false} KnownXor()
    ensures Xor(0xFF_FFFF, POLYNOMIAL) == 0xED47_7CDF
  {
    hide Xor;
    WordSize();
    hide Pow2;
    XorOnes(24, POLYNOMIAL);
  }

  lemma {:induction false} KnownSteps()
    ensures Fold(0xFFFF_FF80, 8, []) == 0xED47_7CDF
  {
    assert Pow2(7) == 128;
    EvenSteps(0xFFFF_FF80, 7, 1);
    assert Fold(0x1FF_FFFF, 1, []) == Fold(BitStep(0x1FF_FFFF), 0, []) == BitStep(0x1FF_FFFF);
    hide Fold, Pow2;
    assert BitStep(0x1FF_FFFF) == Xor32(0xFF_FFFF, POLYNOMIAL);
    KnownXor();
  }

  /** The checksum of the byte 0x7F, which shows the polynomial. */
  lemma {:induction false} KnownChecksum()
    ensures Crc([0x7F]) == 0x12B8_8320
  {
    hide Xor, Pow2;
    WordSize();
    XorOnes(32, 0x7F);
    KnownSteps();
    assert [0x7F][1..] == [];
    assert Fold(MAX32, 0, [0x7F]) == Fold(Xor32(MAX32, 0x7F), 8, []);
  }
}
