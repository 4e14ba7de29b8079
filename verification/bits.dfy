/**
  Unsigned machine integers and the bit operations the predictor performs on
  them (`&` with a low-bit mask, `^`, and the one-bit left shift of the
  history register), written as arithmetic on natural numbers so that each
  operation's meaning can be stated bit by bit.
 */
module Bits {

  /** `uint32_t`: the program counter of a branch. */
  type uint32 = x: int | 0 <= x < 0x1_0000_0000

  /** `uint64_t`: the global history register. */
  type uint64 = x: int | 0 <= x < 0x1_0000_0000_0000_0000

  /** Width in bits of the global history register. */
  const HistoryWidth: nat := 64

  /** 2^n, the value of `1 << n`. */
  function Pow2(n: nat): (r: nat)
    ensures r >= 1
    ensures n > 0 ==> r % 2 == 0
  {
    if n == 0 then 1 else 2 * Pow2(n - 1)
  }

  /** Bit i of x (bit 0 is the least significant). */
  function Bit(x: nat, i: nat): (b: nat)
    ensures b < 2
  {
    if i == 0 then x % 2 else Bit(x / 2, i - 1)
  }

  /** `x & (2^n - 1)`: the low n bits of x. */
  function Low(x: nat, n: nat): (r: nat)
    ensures r < Pow2(n)
  {
    if n == 0 then 0 else 2 * Low(x / 2, n - 1) + x % 2
  }

  /** `(a & (2^n - 1)) ^ (b & (2^n - 1))`: exclusive or of the low n bits. */
  function Xor(a: nat, b: nat, n: nat): (r: nat)
    ensures r < Pow2(n)
  {
    if n == 0 then 0
    else 2 * Xor(a / 2, b / 2, n - 1) + (if a % 2 != b % 2 then 1 else 0)
  }

  /** `(h << 1) | b` on a register `width` bits wide: the top bit falls off. */
  function ShiftIn(h: nat, b: nat, width: nat): (r: nat)
    requires b < 2
    ensures r < Pow2(width)
    ensures r == (2 * h + b) % Pow2(width)
  {
    LowIsMod(2 * h + b, width);
    Low(2 * h + b, width)
  }

  lemma {:induction false} Pow2Add(a: nat, b: nat)
    ensures Pow2(a + b) == Pow2(a) * Pow2(b)
  {
    if a > 0 {
      Pow2Add(a - 1, b);
    }
  }

  /** The register bound 2^64 is the `uint64` range. */
  lemma Pow2Of64()
    ensures Pow2(HistoryWidth) == 0x1_0000_0000_0000_0000
  {
    assert Pow2(2) == 4;
    assert Pow2(4) == 16;
    Pow2Add(4, 4);
    Pow2Add(8, 8);
    Pow2Add(16, 16);
    Pow2Add(32, 32);
  }

  /** A value is determined by its low n bits when it has no others. */
  lemma {:induction false} LowOfSmall(x: nat, n: nat)
    requires x < Pow2(n)
    ensures Low(x, n) == x
  {
    if n > 0 {
      LowOfSmall(x / 2, n - 1);
    }
  }

  /** The low n bits of x are its remainder modulo 2^n. */
  lemma {:induction false} LowIsMod(x: nat, n: nat)
    ensures Low(x, n) == x % Pow2(n)
  {
    if n > 0 {
      var h, p := x / 2, Pow2(n - 1);
      LowIsMod(h, n - 1);
      assert Low(x, n) == 2 * Low(h, n - 1) + x % 2;
      DivModHalf(x, p);
      assert Pow2(n) == 2 * p;
    }
  }

  /** Remainder modulo 2p from the remainder of x / 2 modulo p. */
  lemma DivModHalf(x: nat, p: nat)
    requires p > 0
    ensures x % (2 * p) == 2 * ((x / 2) % p) + x % 2
  {
    var h := x / 2;
    var q, r := h / p, h % p;
    assert x == (2 * p) * q + (2 * r + x % 2);
    ModUnique(x, 2 * p, q, 2 * r + x % 2);
  }

  /** Euclidean division has one quotient and remainder. */
  lemma ModUnique(x: nat, m: nat, q: nat, r: nat)
    requires m > 0
    requires x == m * q + r && r < m
    ensures x % m == r
  {
    var q' := x / m;
    if q < q' {
      MulGap(m, q', q);
      assert false;
    } else if q > q' {
      MulGap(m, q, q');
      assert false;
    }
  }

  /** Multiples of m that differ in the factor differ by at least m. */
  lemma {:induction false} MulGap(m: nat, a: nat, b: nat)
    requires a > b
    ensures m * a >= m * b + m
    decreases a
  {
    if a > b + 1 {
      MulGap(m, a - 1, b);
      assert m * a == m * (a - 1) + m;
    }
  }

  /** Masking keeps exactly the bits below n and clears the rest. */
  lemma {:induction false} LowBit(x: nat, n: nat, i: nat)
    ensures Bit(Low(x, n), i) == if i < n then Bit(x, i) else 0
  {
    if n == 0 {
      ZeroBit(i);
    } else if i > 0 {
      LowBit(x / 2, n - 1, i - 1);
    }
  }

  lemma {:induction false} ZeroBit(i: nat)
    ensures Bit(0, i) == 0
  {
    if i > 0 {
      ZeroBit(i - 1);
    }
  }

  /** Masking with n bits and then with m <= n bits is masking with m bits. */
  lemma {:induction false} LowLow(x: nat, n: nat, m: nat)
    requires m <= n
    ensures Low(Low(x, n), m) == Low(x, m)
  {
    if m > 0 {
      LowLow(x / 2, n - 1, m - 1);
    }
  }

  /** Bit i of the result is set exactly when i is below n and a and b differ there. */
  lemma {:induction false} XorBit(a: nat, b: nat, n: nat, i: nat)
    ensures Bit(Xor(a, b, n), i) == if i < n && Bit(a, i) != Bit(b, i) then 1 else 0
  {
    if n == 0 {
      ZeroBit(i);
    } else if i > 0 {
      XorBit(a / 2, b / 2, n - 1, i - 1);
    }
  }

  /** Only the low n bits of either operand reach the result. */
  lemma {:induction false} XorOfLow(a: nat, b: nat, n: nat)
    ensures Xor(a, b, n) == Xor(Low(a, n), Low(b, n), n)
  {
    if n > 0 {
      XorOfLow(a / 2, b / 2, n - 1);
    }
  }

  /** Exclusive or with a zero operand keeps the low bits of the other one. */
  lemma {:induction false} XorZero(a: nat, n: nat)
    ensures Xor(a, 0, n) == Low(a, n)
  {
    if n > 0 {
      XorZero(a / 2, n - 1);
    }
  }

  /** After the shift, bit 0 is the new bit and bit i is old bit i - 1. */
  lemma ShiftInBit(h: nat, b: nat, width: nat, i: nat)
    requires b < 2
    requires i < width
    ensures Bit(ShiftIn(h, b, width), i) == if i == 0 then b else Bit(h, i - 1)
  {
    LowBit(2 * h + b, width, i);
    assert (2 * h + b) / 2 == h;
  }

  /**
    Seen through an n-bit mask (n at most the register width), the shift
    moves the low n - 1 old bits up by one and puts the new bit at 0.
   */
  lemma ShiftInLow(h: nat, b: nat, width: nat, n: nat)
    requires b < 2
    requires 1 <= n <= width
    ensures Low(ShiftIn(h, b, width), n) == 2 * Low(h, n - 1) + b
  {
    LowLow(2 * h + b, width, n);
    assert (2 * h + b) / 2 == h;
  }
}
