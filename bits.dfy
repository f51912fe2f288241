/**
 * Little-endian bit strings and the shift and mask operations the codec
 * performs on its 32-bit accumulators. Shifts are defined one bit at a time,
 * which keeps every proof in linear arithmetic. The codec's accumulators stay
 * non-negative and below 2^12, so C#'s `&` with a 5- or 8-bit mask and its
 * `(byte)` cast are `% 32` and `% 256`, and `|` is BitOr, which adds when the
 * two operands have no bit in common.
 */
module Bits {

  function Pow2(n: nat): (r: nat)
    ensures r >= 1
  {
    if n == 0 then 1 else 2 * Pow2(n - 1)
  }

  lemma Pow2Constants()
    ensures Pow2(2) == 4 && Pow2(3) == 8 && Pow2(4) == 16 && Pow2(5) == 32
    ensures Pow2(8) == 256 && Pow2(10) == 1024 && Pow2(12) == 4096
  {
  }

  lemma {:induction false} Pow2Monotone(m: nat, n: nat)
    requires m <= n
    ensures Pow2(m) <= Pow2(n)
  {
    if m < n {
      Pow2Monotone(m, n - 1);
    }
  }

  /** `x << k` */
  function Shl(x: int, k: nat): int {
    if k == 0 then x else 2 * Shl(x, k - 1)
  }

  /** `x >> k`, arithmetic: on a negative x it rounds toward minus infinity, as Dafny's `/ 2` does. */
  function Shr(x: int, k: nat): int
    decreases k
  {
    if k == 0 then x else Shr(x / 2, k - 1)
  }

  lemma ShlConstants(x: int)
    ensures Shl(x, 1) == 2 * x && Shl(x, 2) == 4 * x && Shl(x, 3) == 8 * x && Shl(x, 4) == 16 * x
    ensures Shl(x, 5) == 32 * x && Shl(x, 8) == 256 * x
  {
    assert Shl(x, 1) == 2 * x;
    assert Shl(x, 2) == 4 * x;
    assert Shl(x, 3) == 8 * x;
    assert Shl(x, 4) == 16 * x;
    assert Shl(x, 5) == 32 * x;
    assert Shl(x, 6) == 64 * x;
    assert Shl(x, 7) == 128 * x;
  }

  lemma {:induction false} ShlBound(x: nat, n: nat, k: nat)
    requires x < Pow2(n)
    ensures 0 <= Shl(x, k) < Pow2(n + k)
  {
    if k > 0 {
      ShlBound(x, n, k - 1);
    }
  }

  lemma {:induction false} Pow2Eight(n: nat)
    ensures Pow2(n + 8) == 256 * Pow2(n)
  {
    assert Pow2(n + 8) == 2 * Pow2(n + 7);
    assert Pow2(n + 7) == 2 * Pow2(n + 6);
    assert Pow2(n + 6) == 2 * Pow2(n + 5);
    assert Pow2(n + 5) == 2 * Pow2(n + 4);
    assert Pow2(n + 4) == 2 * Pow2(n + 3);
    assert Pow2(n + 3) == 2 * Pow2(n + 2);
    assert Pow2(n + 2) == 2 * Pow2(n + 1);
  }

  lemma {:induction false} ShrAdd(x: int, a: nat, b: nat)
    decreases a
    ensures Shr(x, a + b) == Shr(Shr(x, a), b)
  {
    if a > 0 {
      ShrAdd(x / 2, a - 1, b);
    }
  }

  /** The low k bits and the bits above them make up x again. */
  lemma {:induction false} LowShr(x: int, k: nat)
    ensures Low(x, k) + Shl(Shr(x, k), k) == x
    decreases k
  {
    if k > 0 {
      LowShr(x / 2, k - 1);
    }
  }

  /** For the widths the codec uses, shifting and masking are division and remainder. */
  lemma ShiftConstants(x: int)
    ensures Low(x, 5) == x % 32 && Shr(x, 5) == x / 32
    ensures Low(x, 8) == x % 256 && Shr(x, 8) == x / 256
  {
    Pow2Constants();
    LowShr(x, 5);
    ShlConstants(Shr(x, 5));
    DivModUnique(x, 32, Shr(x, 5), Low(x, 5));
    LowShr(x, 8);
    ShlConstants(Shr(x, 8));
    DivModUnique(x, 256, Shr(x, 8), Low(x, 8));
  }

  lemma DivModUnique(x: int, d: int, q: int, r: int)
    requires d > 0 && 0 <= r < d && x == r + d * q
    ensures x / d == q && x % d == r
  {
    var q0, r0 := x / d, x % d;
    assert (q - q0) * d == r0 - r;
    if q > q0 {
      MulAtLeast(q - q0, d);
    } else if q < q0 {
      MulAtLeast(q0 - q, d);
    }
  }

  lemma MulAtLeast(a: int, d: int)
    requires a >= 1 && d > 0
    ensures a * d >= d
  {
    assert a * d == (a - 1) * d + d;
  }

  /** The value of a bit string whose first bit is the least significant one. */
  function Value(bits: seq<bool>): (r: nat)
    ensures r < Pow2(|bits|)
  {
    if bits == [] then 0 else (if bits[0] then 1 else 0) + 2 * Value(bits[1..])
  }

  /** The `w` low bits of `x`, least significant first. */
  function ToBits(x: int, w: nat): (r: seq<bool>)
    ensures |r| == w
    decreases w
  {
    if w == 0 then [] else [x % 2 == 1] + ToBits(x / 2, w - 1)
  }

  /** The number held in the `k` low bits of `x`: `x & (2^k - 1)`. */
  function Low(x: int, k: nat): (r: nat)
    ensures r < Pow2(k)
    decreases k
  {
    if k == 0 then 0 else x % 2 + 2 * Low(x / 2, k - 1)
  }

  lemma {:induction false} ValueAppend(a: seq<bool>, b: seq<bool>)
    ensures Value(a + b) == Value(a) + Shl(Value(b), |a|)
  {
    if a != [] {
      assert (a + b)[1..] == a[1..] + b;
      assert (a + b)[0] == a[0];
      ValueAppend(a[1..], b);
    } else {
      assert a + b == b;
    }
  }

  lemma {:induction false} ValueToBits(x: int, w: nat)
    ensures Value(ToBits(x, w)) == Low(x, w)
    decreases w
  {
    if w > 0 {
      ValueToBits(x / 2, w - 1);
    }
  }

  lemma {:induction false} LowOfSmall(x: nat, w: nat)
    requires x < Pow2(w)
    ensures Low(x, w) == x
  {
    if w > 0 {
      LowOfSmall(x / 2, w - 1);
    }
  }

  lemma {:induction false} ToBitsValue(bits: seq<bool>)
    ensures ToBits(Value(bits), |bits|) == bits
  {
    if bits != [] {
      ToBitsValue(bits[1..]);
      var v := Value(bits);
      assert v % 2 == (if bits[0] then 1 else 0) && v / 2 == Value(bits[1..]);
    }
  }

  lemma {:induction false} ToBitsTake(x: int, w: nat, k: nat)
    requires k <= w
    ensures ToBits(x, w)[..k] == ToBits(x, k)
    decreases k
  {
    if k > 0 {
      ToBitsTake(x / 2, w - 1, k - 1);
      var u := ToBits(x / 2, w - 1);
      assert ToBits(x, w) == [x % 2 == 1] + u;
      assert ToBits(x, k) == [x % 2 == 1] + ToBits(x / 2, k - 1);
      assert ToBits(x, w)[..k] == [x % 2 == 1] + u[..k - 1];
    }
  }

  lemma {:induction false} ToBitsDrop(x: int, w: nat, k: nat)
    requires k <= w
    ensures ToBits(x, w)[k..] == ToBits(Shr(x, k), w - k)
    decreases k
  {
    if k > 0 {
      ToBitsDrop(x / 2, w - 1, k - 1);
      var u := ToBits(x / 2, w - 1);
      assert ToBits(x, w) == [x % 2 == 1] + u;
      assert ToBits(x, w)[k..] == u[k - 1..];
    }
  }

  /** C#'s `|` on non-negative integers. */
  function BitOr(x: nat, y: nat): nat
    decreases x + y
  {
    if x == 0 then y
    else if y == 0 then x
    else 2 * BitOr(x / 2, y / 2) + (if x % 2 == 1 || y % 2 == 1 then 1 else 0)
  }

  /** Or-ing in bits that lie above all bits of `x` is addition. */
  lemma {:induction false} BitOrDisjoint(x: nat, y: nat, k: nat)
    requires x < Pow2(k)
    ensures Shl(y, k) >= 0
    ensures BitOr(x, Shl(y, k)) == x + Shl(y, k)
  {
    PowAbove(y);
    ShlBound(y, y, k);
    if x != 0 && Shl(y, k) != 0 {
      assert k > 0;
      BitOrDisjoint(x / 2, y, k - 1);
      assert Shl(y, k) == 2 * Shl(y, k - 1);
    }
  }

  lemma {:induction false} PowAbove(n: nat)
    ensures n < Pow2(n)
  {
    if n > 0 {
      PowAbove(n - 1);
    }
  }
}
