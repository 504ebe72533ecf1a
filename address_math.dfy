/** Address arithmetic of script.js: powers of two (Math.pow(2, n)), the
    ECMAScript ToInt32/ToUint32 conversions and the bitwise operators `<<`,
    `>>>`, `&` and `|`, the address composition of the submit handler and the
    decomposition of intToIp. Addresses are unbounded integers; they are
    reduced modulo 2^32 only where a JavaScript operator does so. Bit-level
    operations are defined one bit at a time, by halving. */
module AddressMath {
  import opened Text

  const TWO_31: int := 0x8000_0000
  const TWO_32: int := 0x1_0000_0000

  /** Math.pow(2, n), exact for every n the calculator uses. */
  function Pow2(n: nat): (r: nat)
    ensures r >= 1
  {
    if n == 0 then 1 else 2 * Pow2(n - 1)
  }

  lemma {:induction false} Pow2Add(a: nat, b: nat)
    ensures Pow2(a + b) == Pow2(a) * Pow2(b)
  {
    if b > 0 {
      Pow2Add(a, b - 1);
      assert Pow2(a + b) == 2 * Pow2(a + b - 1);
    }
  }

  lemma Pow2Constants()
    ensures Pow2(8) == 256 && Pow2(16) == 65536 && Pow2(24) == 16777216
    ensures Pow2(32) == TWO_32
  {
    Pow2Add(8, 8);
    Pow2Add(16, 8);
    Pow2Add(16, 16);
  }

  lemma {:induction false} Pow2Monotone(a: nat, b: nat)
    requires a <= b
    ensures Pow2(a) <= Pow2(b)
  {
    if a < b {
      Pow2Monotone(a, b - 1);
    }
  }

  /** The k low bits of x (two's complement for a negative x), as a number. */
  function LowBits(x: int, k: nat): nat
    decreases k
  {
    if k == 0 then 0 else x % 2 + 2 * LowBits(x / 2, k - 1)
  }

  /** x with its k low bits shifted out. */
  function DropBits(x: int, k: nat): int
    decreases k
  {
    if k == 0 then x else DropBits(x / 2, k - 1)
  }

  /** The k low bits form a number below 2^k. */
  lemma {:induction false} LowBitsBound(x: int, k: nat)
    ensures LowBits(x, k) < Pow2(k)
    decreases k
  {
    if k > 0 {
      LowBitsBound(x / 2, k - 1);
    }
  }

  /** Every integer splits into its high part and its k low bits. */
  lemma {:induction false} BitSplit(x: int, k: nat)
    ensures x == Pow2(k) * DropBits(x, k) + LowBits(x, k)
    decreases k
  {
    if k > 0 {
      BitSplit(x / 2, k - 1);
      var h := DropBits(x / 2, k - 1);
      assert Pow2(k) * h == 2 * (Pow2(k - 1) * h);
    }
  }

  /** BitSplit with the bound on the low part, for a known power p = 2^k. */
  lemma SplitAt(x: int, k: nat, p: int)
    requires p == Pow2(k)
    ensures x == p * DropBits(x, k) + LowBits(x, k) && 0 <= LowBits(x, k) < p
  {
    BitSplit(x, k);
    LowBitsBound(x, k);
  }

  /** For the powers of two the calculator divides by, splitting x into a
      multiple of p and a remainder below p is Euclidean division by p. */
  lemma DivisionByPower(x: int, p: int, d: int, l: int)
    requires p == 256 || p == 65536 || p == 16777216 || p == TWO_32
    requires x == p * d + l && 0 <= l < p
    ensures d == x / p && l == x % p
  {
  }

  /** x is a multiple of 2^k: its k low bits are zero. */
  predicate Aligned(x: int, k: nat) {
    LowBits(x, k) == 0
  }

  lemma AlignedIsMultiple(x: int, k: nat)
    ensures Aligned(x, k) <==> x == Pow2(k) * DropBits(x, k)
  {
    BitSplit(x, k);
  }

  /** A multiple of 2^b is a multiple of every smaller power of two. */
  lemma {:induction false} AlignedWeaken(x: int, a: nat, b: nat)
    requires a <= b && Aligned(x, b)
    ensures Aligned(x, a)
    decreases a
  {
    if a > 0 {
      AlignedWeaken(x / 2, a - 1, b - 1);
    }
  }

  /** Multiples of 2^k are closed under addition. */
  lemma {:induction false} AlignedAdd(x: int, y: int, k: nat)
    requires Aligned(x, k) && Aligned(y, k)
    ensures Aligned(x + y, k)
    decreases k
  {
    if k > 0 {
      assert (x + y) / 2 == x / 2 + y / 2;
      AlignedAdd(x / 2, y / 2, k - 1);
    }
  }

  /** 2^b is a multiple of 2^a when a <= b. */
  lemma {:induction false} Pow2Aligned(a: nat, b: nat)
    requires a <= b
    ensures Aligned(Pow2(b), a)
  {
    if a > 0 {
      assert Pow2(b) / 2 == Pow2(b - 1);
      Pow2Aligned(a - 1, b - 1);
    }
  }

  /** A non-negative value below 2^n is its own n low bits. */
  lemma {:induction false} LowBitsOfSmall(x: int, n: nat)
    requires 0 <= x < Pow2(n)
    ensures LowBits(x, n) == x
  {
    if n > 0 {
      LowBitsOfSmall(x / 2, n - 1);
    }
  }

  /** Clearing the k low bits leaves a multiple of 2^k. */
  lemma {:induction false} ClearedIsAligned(x: int, k: nat)
    ensures Aligned(x - LowBits(x, k), k)
    decreases k
  {
    if k > 0 {
      assert (x - LowBits(x, k)) / 2 == x / 2 - LowBits(x / 2, k - 1);
      ClearedIsAligned(x / 2, k - 1);
    }
  }

  /** A multiple of 2^k below 2^n leaves room for a whole block of 2^k. */
  lemma {:induction false} AlignedBlockFits(x: int, k: nat, n: nat)
    requires k <= n && 0 <= x < Pow2(n) && Aligned(x, k)
    ensures x + Pow2(k) <= Pow2(n)
  {
    if k > 0 {
      AlignedBlockFits(x / 2, k - 1, n - 1);
    }
  }

  /** ToUint32, the conversion `x >>> 0` applies. */
  function ToUint32(x: int): (u: nat)
    ensures u < TWO_32
  {
    x % 0x1_0000_0000
  }

  /** ToInt32, the conversion the signed bitwise operators apply. */
  function ToInt32(x: int): (v: int)
    ensures -TWO_31 <= v < TWO_31
  {
    var u := x % 0x1_0000_0000;
    if u >= 0x8000_0000 then u - 0x1_0000_0000 else u
  }

  /** The 32 low bits of x are its ToUint32 value. */
  lemma LowBits32(x: int)
    ensures LowBits(x, 32) == ToUint32(x)
  {
    var d := DropBits(x, 32);
    var l := LowBits(x, 32);
    assert x == TWO_32 * d + l && 0 <= l < TWO_32 by {
      Pow2Constants();
      SplitAt(x, 32, TWO_32);
    }
    DivisionByPower(x, TWO_32, d, l);
  }

  /** v * 2^n, by doubling n times. */
  function Doubled(v: int, n: nat): int {
    if n == 0 then v else 2 * Doubled(v, n - 1)
  }

  lemma {:induction false} DoubledIsProduct(v: int, n: nat, p: int)
    requires p == Pow2(n)
    ensures Doubled(v, n) == v * p
  {
    if n > 0 {
      DoubledIsProduct(v, n - 1, Pow2(n - 1));
      assert v * p == 2 * (v * Pow2(n - 1));
    }
  }

  /** `x << n` for a shift count below 32: the signed value of x times 2^n,
      wrapped into the signed 32-bit range. */
  function ShiftLeft(x: int, n: nat): int
    requires n < 32
  {
    ToInt32(Doubled(ToInt32(x), n))
  }

  /** `x >>> n` for a shift count below 32. */
  function ShiftRightUnsigned(x: int, n: nat): int
    requires n < 32
  {
    DropBits(ToUint32(x), n)
  }

  /** `(x & y) >>> 0`: the bitwise AND of the 32 low bits. */
  function BitAnd(x: int, y: int, n: nat): nat
    decreases n
  {
    if n == 0 then 0
    else (if x % 2 == 1 && y % 2 == 1 then 1 else 0) + 2 * BitAnd(x / 2, y / 2, n - 1)
  }

  /** `(x | y) >>> 0`: the bitwise OR of the 32 low bits. */
  function BitOr(x: int, y: int, n: nat): nat
    decreases n
  {
    if n == 0 then 0
    else (if x % 2 == 1 || y % 2 == 1 then 1 else 0) + 2 * BitOr(x / 2, y / 2, n - 1)
  }

  /** AND with a mask whose one bits are bits k..j-1 keeps exactly those bits. */
  lemma {:induction false} AndWithMask(x: int, j: nat, k: nat, n: nat)
    requires k <= j <= n
    ensures BitAnd(x, Pow2(j) - Pow2(k), n) == LowBits(x, j) - LowBits(x, k)
    decreases n
  {
    if j == 0 {
      AndWithZero(x, n);
    } else if k == 0 {
      AndWithMask(x / 2, j - 1, 0, n - 1);
      AndMaskStepOdd(x, j, n);
    } else {
      AndWithMask(x / 2, j - 1, k - 1, n - 1);
      AndMaskStepEven(x, j, k, n);
    }
  }

  lemma {:induction false} AndWithZero(x: int, n: nat)
    ensures BitAnd(x, 0, n) == 0
    decreases n
  {
    if n > 0 {
      AndWithZero(x / 2, n - 1);
    }
  }

  lemma AndMaskStepOdd(x: int, j: nat, n: nat)
    requires 1 <= j <= n
    requires BitAnd(x / 2, Pow2(j - 1) - Pow2(0), n - 1) == LowBits(x / 2, j - 1) - LowBits(x / 2, 0)
    ensures BitAnd(x, Pow2(j) - Pow2(0), n) == LowBits(x, j) - LowBits(x, 0)
  {
    var m := Pow2(j) - Pow2(0);
    var h := Pow2(j - 1) - Pow2(0);
    assert m % 2 == 1 && m / 2 == h;
    assert BitAnd(x, m, n) == x % 2 + 2 * BitAnd(x / 2, h, n - 1);
    assert LowBits(x, j) == x % 2 + 2 * LowBits(x / 2, j - 1);
  }

  lemma AndMaskStepEven(x: int, j: nat, k: nat, n: nat)
    requires 1 <= k <= j <= n
    requires BitAnd(x / 2, Pow2(j - 1) - Pow2(k - 1), n - 1) == LowBits(x / 2, j - 1) - LowBits(x / 2, k - 1)
    ensures BitAnd(x, Pow2(j) - Pow2(k), n) == LowBits(x, j) - LowBits(x, k)
  {
    var m := Pow2(j) - Pow2(k);
    var h := Pow2(j - 1) - Pow2(k - 1);
    assert m % 2 == 0 && m / 2 == h;
    assert BitAnd(x, m, n) == 2 * BitAnd(x / 2, h, n - 1);
    assert LowBits(x, j) == x % 2 + 2 * LowBits(x / 2, j - 1);
    assert LowBits(x, k) == x % 2 + 2 * LowBits(x / 2, k - 1);
  }

  /** OR with k low one bits sets those bits and keeps the others. */
  lemma {:induction false} OrWithLowOnes(x: int, k: nat, n: nat)
    requires k <= n
    ensures BitOr(x, Pow2(k) - 1, n) == LowBits(x, n) - LowBits(x, k) + Pow2(k) - 1
    decreases n
  {
    if k == 0 {
      OrWithZero(x, n);
    } else {
      OrWithLowOnes(x / 2, k - 1, n - 1);
      OrStep(x, k, n);
    }
  }

  lemma {:induction false} OrWithZero(x: int, n: nat)
    ensures BitOr(x, 0, n) == LowBits(x, n)
    decreases n
  {
    if n > 0 {
      OrWithZero(x / 2, n - 1);
    }
  }

  lemma OrStep(x: int, k: nat, n: nat)
    requires 1 <= k <= n
    requires BitOr(x / 2, Pow2(k - 1) - 1, n - 1) == LowBits(x / 2, n - 1) - LowBits(x / 2, k - 1) + Pow2(k - 1) - 1
    ensures BitOr(x, Pow2(k) - 1, n) == LowBits(x, n) - LowBits(x, k) + Pow2(k) - 1
  {
    var m := Pow2(k) - 1;
    var h := Pow2(k - 1) - 1;
    assert m % 2 == 1 && m / 2 == h;
    assert BitOr(x, m, n) == 1 + 2 * BitOr(x / 2, h, n - 1);
    assert LowBits(x, n) == x % 2 + 2 * LowBits(x / 2, n - 1);
    assert LowBits(x, k) == x % 2 + 2 * LowBits(x / 2, k - 1);
  }

  /** Shifting 2^n - 1 right by k bits leaves 2^(n-k) - 1. */
  lemma {:induction false} DropBitsOfOnes(n: nat, k: nat)
    requires k <= n
    ensures DropBits(Pow2(n) - 1, k) == Pow2(n - k) - 1
  {
    if k > 0 {
      assert (Pow2(n) - 1) / 2 == Pow2(n - 1) - 1;
      DropBitsOfOnes(n - 1, k - 1);
    }
  }

  /** The four numbers intToIp prints, left to right (script.js:226-231). */
  function Octets(x: int): seq<nat> {
    [BitAnd(ShiftRightUnsigned(x, 24), 255, 32), BitAnd(ShiftRightUnsigned(x, 16), 255, 32),
     BitAnd(ShiftRightUnsigned(x, 8), 255, 32), BitAnd(x, 255, 32)]
  }

  /** The unsigned value of four bytes, most significant first. */
  function Combine(o: seq<int>): int
    requires |o| == 4
  {
    o[0] * 16777216 + o[1] * 65536 + o[2] * 256 + o[3]
  }

  predicate AreBytes(o: seq<int>) {
    |o| == 4 && 0 <= o[0] <= 255 && 0 <= o[1] <= 255 && 0 <= o[2] <= 255 && 0 <= o[3] <= 255
  }

  /** intToIp: the dotted-quad text of an address. */
  function IntToIp(x: int): string {
    Join(DecimalTexts(Octets(x)), '.')
  }

  /** The decimal text of each of four numbers. */
  function DecimalTexts(o: seq<nat>): (texts: seq<string>)
    requires |o| == 4
    ensures |texts| == 4
  {
    [DecimalString(o[0]), DecimalString(o[1]), DecimalString(o[2]), DecimalString(o[3])]
  }

  /** `v & 255` is v modulo 256. */
  lemma AndByte(v: int)
    ensures BitAnd(v, 255, 32) == v % 256
  {
    assert BitAnd(v, 255, 32) == LowBits(v, 8) by {
      Pow2Constants();
      assert Pow2(0) == 1;
      AndWithMask(v, 8, 0, 32);
    }
    var d := DropBits(v, 8);
    var l := LowBits(v, 8);
    assert v == 256 * d + l && 0 <= l < 256 by {
      Pow2Constants();
      SplitAt(v, 8, 256);
    }
    DivisionByPower(v, 256, d, l);
  }

  /** `x >>> 8k` is the unsigned value divided by 2^(8k). */
  lemma ShiftRightBytes(x: int)
    ensures ShiftRightUnsigned(x, 8) == ToUint32(x) / 256
    ensures ShiftRightUnsigned(x, 16) == ToUint32(x) / 65536
    ensures ShiftRightUnsigned(x, 24) == ToUint32(x) / 16777216
  {
    var u := ToUint32(x);
    assert u == 256 * DropBits(u, 8) + LowBits(u, 8) && 0 <= LowBits(u, 8) < 256 by {
      Pow2Constants();
      SplitAt(u, 8, 256);
    }
    DivisionByPower(u, 256, DropBits(u, 8), LowBits(u, 8));
    assert u == 65536 * DropBits(u, 16) + LowBits(u, 16) && 0 <= LowBits(u, 16) < 65536 by {
      Pow2Constants();
      SplitAt(u, 16, 65536);
    }
    DivisionByPower(u, 65536, DropBits(u, 16), LowBits(u, 16));
    assert u == 16777216 * DropBits(u, 24) + LowBits(u, 24) && 0 <= LowBits(u, 24) < 16777216 by {
      Pow2Constants();
      SplitAt(u, 24, 16777216);
    }
    DivisionByPower(u, 16777216, DropBits(u, 24), LowBits(u, 24));
  }

  /** intToIp prints four bytes, and they are the big-endian bytes of x
      modulo 2^32: recombining them gives back x modulo 2^32. */
  lemma OctetsAreBigEndianBytes(x: int)
    ensures AreBytes(Octets(x))
    ensures Combine(Octets(x)) == ToUint32(x)
  {
    var u := ToUint32(x);
    var a, b, c, d := (u / 16777216) % 256, (u / 65536) % 256, (u / 256) % 256, x % 256;
    assert Octets(x) == [a, b, c, d] by {
      ShiftRightBytes(x);
      AndByte(u / 16777216);
      AndByte(u / 65536);
      AndByte(u / 256);
      AndByte(x);
    }
    ByteDecomposition(x, u, a, b, c, d);
  }

  /** Pure arithmetic behind the byte decomposition. */
  lemma ByteDecomposition(x: int, u: int, a: int, b: int, c: int, d: int)
    requires u == x % TWO_32
    requires a == (u / 16777216) % 256 && b == (u / 65536) % 256
    requires c == (u / 256) % 256 && d == x % 256
    ensures 0 <= a <= 255 && 0 <= b <= 255 && 0 <= c <= 255 && 0 <= d <= 255
    ensures a * 16777216 + b * 65536 + c * 256 + d == u
  {
    assert x % 256 == u % 256;
    assert u / 65536 == (u / 16777216) * 256 + b;
    assert u / 256 == (u / 65536) * 256 + c;
  }

  /** The bytes are recovered from their combination: decomposition is the
      inverse of composition. */
  lemma OctetsOfCombine(o: seq<int>)
    requires AreBytes(o)
    ensures Octets(Combine(o)) == o
  {
    var u := Combine(o);
    ByteRecovery(u, o[0], o[1], o[2], o[3]);
    assert o == [o[0], o[1], o[2], o[3]];
    assert Octets(u) == [(u / 16777216) % 256, (u / 65536) % 256, (u / 256) % 256, u % 256] by {
      ShiftRightBytes(u);
      AndByte(u / 16777216);
      AndByte(u / 65536);
      AndByte(u / 256);
      AndByte(u);
    }
  }

  /** Pure arithmetic: the bytes of a combination are its parts. */
  lemma ByteRecovery(u: int, a: int, b: int, c: int, d: int)
    requires 0 <= a <= 255 && 0 <= b <= 255 && 0 <= c <= 255 && 0 <= d <= 255
    requires u == a * 16777216 + b * 65536 + c * 256 + d
    ensures 0 <= u < TWO_32 && u % TWO_32 == u
    ensures (u / 16777216) % 256 == a && (u / 65536) % 256 == b
    ensures (u / 256) % 256 == c && u % 256 == d
  {
    assert u / 16777216 == a;
    assert u / 65536 == a * 256 + b;
    assert u / 256 == a * 65536 + b * 256 + c;
  }

  /** The base address as line 39 computes it: `(a << 24) + (b << 16) +
      (c << 8) + d`. The shifts are signed 32-bit operations, so a first
      byte of 128 or more yields a negative base. */
  function SignedBase(o: seq<int>): int
    requires |o| == 4
  {
    ShiftLeft(o[0], 24) + ShiftLeft(o[1], 16) + ShiftLeft(o[2], 8) + o[3]
  }

  /** The signed base differs from the unsigned address by 2^32 exactly when
      the first byte has its top bit set, so modulo 2^32 it is the address. */
  lemma SignedBaseIsAddress(o: seq<int>)
    requires AreBytes(o)
    ensures SignedBase(o) == Combine(o) - (if o[0] >= 128 then TWO_32 else 0)
    ensures ToUint32(SignedBase(o)) == Combine(o)
  {
    ShiftLeftByte24(o[0]);
    ShiftLeftByte16(o[1]);
    ShiftLeftByte8(o[2]);
  }

  /** A byte shifted left by 24 bits reaches the sign bit when the byte is
      128 or more, and the result is then 2^32 below the product. */
  lemma ShiftLeftByte24(b: int)
    requires 0 <= b <= 255
    ensures ShiftLeft(b, 24) == b * 16777216 - (if b >= 128 then TWO_32 else 0)
  {
    SmallToInt32(b);
    assert Pow2(24) == 16777216 by {
      Pow2Constants();
    }
    DoubledIsProduct(b, 24, 16777216);
    var v := b * 16777216;
    assert 0 <= v < TWO_32 && (v >= TWO_31 <==> b >= 128);
    WrapToInt32(v);
  }

  /** Shifts of a byte by 16 or 8 bits stay below the sign bit. */
  lemma ShiftLeftByte16(b: int)
    requires 0 <= b <= 255
    ensures ShiftLeft(b, 16) == b * 65536
  {
    SmallToInt32(b);
    assert Pow2(16) == 65536 by {
      Pow2Constants();
    }
    DoubledIsProduct(b, 16, 65536);
    var v := b * 65536;
    assert 0 <= v < TWO_31;
    SmallToInt32(v);
  }

  lemma ShiftLeftByte8(b: int)
    requires 0 <= b <= 255
    ensures ShiftLeft(b, 8) == b * 256
  {
    SmallToInt32(b);
    assert Pow2(8) == 256 by {
      Pow2Constants();
    }
    DoubledIsProduct(b, 8, 256);
    var v := b * 256;
    assert 0 <= v < TWO_31;
    SmallToInt32(v);
  }

  /** Values in the signed 32-bit range are their own ToInt32. */
  lemma SmallToInt32(v: int)
    requires 0 <= v < TWO_31
    ensures ToInt32(v) == v
  {
  }

  /** A value in [0, 2^32) reads as itself, or 2^32 below itself from the
      sign bit up. */
  lemma WrapToInt32(v: int)
    requires 0 <= v < TWO_32
    ensures ToInt32(v) == if v >= TWO_31 then v - TWO_32 else v
  {
  }

  /** Line 42: `(0xFFFFFFFF << (32 - prefix)) >>> 0`; JavaScript takes the
      shift count modulo 32. */
  function SubnetMask(prefix: nat): int
    requires 1 <= prefix <= 32
  {
    ToUint32(ShiftLeft(0xFFFF_FFFF, (32 - prefix) % 32))
  }

  /** The mask is `prefix` one bits followed by 32 - prefix zero bits. */
  lemma SubnetMaskValue(prefix: nat)
    requires 1 <= prefix <= 32
    ensures SubnetMask(prefix) == TWO_32 - Pow2(32 - prefix)
  {
    var n := (32 - prefix) % 32;
    var p := Pow2(n);
    assert 1 <= p <= TWO_31 by {
      Pow2Monotone(n, 31);
      Pow2Add(31, 1);
      Pow2Constants();
    }
    assert ToInt32(0xFFFF_FFFF) == -1;
    DoubledIsProduct(-1, n, p);
    NegatedPower(p);
    assert p == Pow2(32 - prefix) by {
      if prefix == 32 {
        assert n == 0;
      } else {
        assert n == 32 - prefix;
      }
    }
  }

  /** Pure arithmetic: -p for 1 <= p <= 2^31 survives ToInt32, and
      ToUint32 then gives 2^32 - p. */
  lemma NegatedPower(p: int)
    requires 1 <= p <= TWO_31
    ensures ToUint32(ToInt32(-1 * p)) == TWO_32 - p
  {
  }

  /** Line 43: `(base & subnetMask) >>> 0`. */
  function NetworkAddress(base: int, prefix: nat): int
    requires 8 <= prefix <= 32
  {
    BitAnd(base, SubnetMask(prefix), 32)
  }

  /** The network address is the start of the aligned block of 2^(32-prefix)
      addresses that holds the base (taken modulo 2^32). */
  lemma NetworkAddressFacts(base: int, prefix: nat)
    requires 8 <= prefix <= 32
    ensures NetworkAddress(base, prefix) == ToUint32(base) - LowBits(ToUint32(base), 32 - prefix)
  {
    var k := 32 - prefix;
    var m := SubnetMask(prefix);
    assert m == TWO_32 - Pow2(k) by {
      SubnetMaskValue(prefix);
    }
    MaskedIsCleared(base, k, m);
  }

  /** AND with the mask of 32 - k ones and k zeros clears the k low bits of
      the unsigned value. */
  lemma MaskedIsCleared(base: int, k: nat, mask: int)
    requires k <= 32 && mask == TWO_32 - Pow2(k)
    ensures BitAnd(base, mask, 32) == ToUint32(base) - LowBits(ToUint32(base), k)
  {
    assert TWO_32 == Pow2(32) by {
      Pow2Constants();
    }
    AndWithMask(base, 32, k, 32);
    LowBits32(base);
    LowBitsModulo(base, k);
  }

  /** Clearing the k low bits of an unsigned 32-bit value gives the start of
      the aligned block of 2^k addresses that holds it. */
  lemma ClearedBlock(u: int, k: nat)
    requires 0 <= u < TWO_32 && k <= 32
    ensures 0 <= u - LowBits(u, k) <= u < u - LowBits(u, k) + Pow2(k) <= TWO_32
  {
    var low := LowBits(u, k);
    LowBitsBound(u, k);
    LowBitsAtMost(u, k);
    ClearedIsAligned(u, k);
    assert u < Pow2(32) by {
      Pow2Constants();
    }
    AlignedBlockFits(u - low, k, 32);
    Pow2Constants();
  }

  /** The low bits of a non-negative number are at most the number. */
  lemma {:induction false} LowBitsAtMost(x: int, k: nat)
    requires 0 <= x
    ensures LowBits(x, k) <= x
    decreases k
  {
    if k > 0 {
      LowBitsAtMost(x / 2, k - 1);
    }
  }

  /** The k <= 32 low bits of x and of x modulo 2^32 agree. */
  lemma LowBitsModulo(x: int, k: nat)
    requires k <= 32
    ensures LowBits(ToUint32(x), k) == LowBits(x, k)
  {
    var u := ToUint32(x);
    var q := Pow2(k);
    var m := x / TWO_32 * Pow2(32 - k);
    assert x == u + m * q by {
      var r := Pow2(32 - k);
      EuclidTWO_32(x);
      assert q * r == TWO_32 by {
        Pow2Add(k, 32 - k);
        Pow2Constants();
      }
      Regroup(x, u, x / TWO_32, q, r, TWO_32);
    }
    LowBitsShift(u, x, m, k, q);
  }

  lemma EuclidTWO_32(x: int)
    ensures x == x % TWO_32 + x / TWO_32 * TWO_32
  {
  }

  /** Pure arithmetic: x = u + d * (q * r) regrouped as u + (d * r) * q. */
  lemma Regroup(x: int, u: int, d: int, q: int, r: int, t: int)
    requires x == u + d * t && q * r == t
    ensures x == u + (d * r) * q
  {
  }

  /** Adding a multiple of 2^k does not change the k low bits. */
  lemma {:induction false} LowBitsShift(x: int, y: int, m: int, k: nat, p: int)
    requires p == Pow2(k) && y == x + m * p
    ensures LowBits(y, k) == LowBits(x, k)
    decreases k
  {
    if k > 0 {
      var t := m * Pow2(k - 1);
      assert m * p == 2 * t;
      assert y / 2 == x / 2 + t && y % 2 == x % 2;
      LowBitsShift(x / 2, y / 2, m, k - 1, Pow2(k - 1));
    }
  }

  /** `0xFFFFFFFF >>> prefix`: JavaScript takes the shift count modulo 32. */
  function HostMask(prefix: nat): int {
    ShiftRightUnsigned(0xFFFF_FFFF, prefix % 32)
  }

  /** Line 44: `(networkAddress | (0xFFFFFFFF >>> prefix)) >>> 0`. */
  function BroadcastAddress(network: int, prefix: nat): int {
    BitOr(network, HostMask(prefix), 32)
  }

  /** Up to /31 the broadcast address is the last address of the block the
      network address starts; for a /32 the shift count wraps to 0, the host
      mask is all ones and the result is 255.255.255.255 whatever the
      network. */
  lemma BroadcastAddressValue(n: int, prefix: nat)
    requires 8 <= prefix <= 32
    requires 0 <= n < TWO_32 && Aligned(n, 32 - prefix)
    ensures BroadcastAddress(n, prefix) == if prefix == 32 then TWO_32 - 1 else n + Pow2(32 - prefix) - 1
  {
    var s := prefix % 32;
    var j := 32 - s;
    var ones := HostMask(prefix);
    assert ones == Pow2(j) - 1 by {
      HostMaskValue(s);
    }
    if prefix == 32 {
      BroadcastAllOnes(n, ones);
    } else {
      BroadcastOfAligned(n, 32 - prefix, ones);
    }
  }

  lemma BroadcastAllOnes(n: int, ones: int)
    requires 0 <= n < TWO_32 && ones == Pow2(32) - 1
    ensures BitOr(n, ones, 32) == TWO_32 - 1
  {
    OrLowOnesAt(n, 32, ones);
    assert LowBits(n, 32) == n by {
      Pow2Constants();
      LowBitsOfSmall(n, 32);
    }
    Pow2Constants();
  }

  lemma BroadcastOfAligned(n: int, k: nat, ones: int)
    requires 0 <= n < TWO_32 && k <= 32 && Aligned(n, k) && ones == Pow2(k) - 1
    ensures BitOr(n, ones, 32) == n + Pow2(k) - 1
  {
    OrLowOnesAt(n, k, ones);
  }

  /** `0xFFFFFFFF >>> s` is 32 - s one bits. */
  lemma HostMaskValue(s: nat)
    requires s < 32
    ensures ShiftRightUnsigned(0xFFFF_FFFF, s) == Pow2(32 - s) - 1
  {
    assert ToUint32(0xFFFF_FFFF) == Pow2(32) - 1 by {
      Pow2Constants();
    }
    DropBitsOfOnes(32, s);
  }

  /** OR of an unsigned value with j low one bits. */
  lemma OrLowOnesAt(n: int, j: nat, ones: int)
    requires 0 <= n < TWO_32 && j <= 32 && ones == Pow2(j) - 1
    ensures BitOr(n, ones, 32) == n - LowBits(n, j) + ones
  {
    assert LowBits(n, 32) == n by {
      Pow2Constants();
      LowBitsOfSmall(n, 32);
    }
    OrWithLowOnes(n, j, 32);
  }

}
