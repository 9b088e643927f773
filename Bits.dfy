// Unsigned integer arithmetic shared by the address-space models.
//
// JavaScript's 32-bit `&`, `|` and `~` followed by `>>>0`, and BigInt `&`
// on non-negative operands, are all plain bitwise operations on natural
// numbers.  They are modelled by BitAnd / BitOr below and related to
// Down(x, k), "x with its low k bits cleared", which is how prefix masks
// are reasoned about in the rest of the project.
module Bits {

  function Pow2(k: nat): (r: nat)
    ensures r >= 1
  {
    if k == 0 then 1 else 2 * Pow2(k - 1)
  }

  /** x with its k low-order bits cleared (x rounded down to a multiple of 2^k). */
  function Down(x: nat, k: nat): nat
  {
    if k == 0 then x else 2 * Down(x / 2, k - 1)
  }

  /** Bitwise AND of two non-negative integers. */
  function BitAnd(x: nat, y: nat): nat
  {
    if x == 0 || y == 0 then 0
    else 2 * BitAnd(x / 2, y / 2) + (if x % 2 == 1 && y % 2 == 1 then 1 else 0)
  }

  /** Bitwise OR of two non-negative integers. */
  function BitOr(x: nat, y: nat): nat
  {
    if x == 0 then y
    else if y == 0 then x
    else 2 * BitOr(x / 2, y / 2) + (if x % 2 == 1 || y % 2 == 1 then 1 else 0)
  }

  /** The w-bit mask whose bits k .. w-1 are set. */
  function HighMask(w: nat, k: nat): nat
    requires k <= w
  {
    Pow2Mono(k, w);
    Pow2(w) - Pow2(k)
  }

  /** The w-bit mask with every bit set except bit j. */
  function AllBut(w: nat, j: nat): nat
    requires j < w
  {
    Pow2Mono(j, w);
    Pow2(w) - 1 - Pow2(j)
  }

  /** `~x >>> 0` for a 32-bit unsigned x. */
  function Not32(x: nat): nat
    requires x < 0x1_0000_0000
  {
    0xFFFF_FFFF - x
  }

  // ---------------------------------------------------------------------
  // Powers of two

  lemma {:induction false} Pow2Mono(a: nat, b: nat)
    requires a <= b
    ensures Pow2(a) <= Pow2(b)
    ensures a < b ==> 2 * Pow2(a) <= Pow2(b)
  {
    if a < b {
      Pow2Mono(a, b - 1);
    }
  }

  /** The size of the 32-bit address space. */
  lemma Pow32()
    ensures Pow2(32) == 0x1_0000_0000
  {
    Pow2Values();
  }

  /** The width of the IPv6 network part the free view works on. */
  const W64: nat := 64

  lemma {:induction false} Pow2Add(a: nat, b: nat)
    ensures Pow2(a + b) == Pow2(a) * Pow2(b)
    decreases a
  {
    if a > 0 {
      Pow2Add(a - 1, b);
    }
  }

  /** The size of a 64-bit space. */
  lemma Pow64()
    ensures Pow2(W64) == 0x1_0000_0000_0000_0000
  {
    Pow2Add(32, 32);
    Pow32();
  }

  lemma Pow2Values()
    ensures Pow2(8) == 0x100 && Pow2(16) == 0x1_0000 && Pow2(18) == 0x4_0000
    ensures Pow2(24) == 0x100_0000 && Pow2(32) == 0x1_0000_0000
  {
    assert Pow2(8) == 256 by {
      assert Pow2(4) == 16;
    }
    assert Pow2(16) == 0x1_0000;
    assert Pow2(18) == 0x4_0000;
    assert Pow2(24) == 0x100_0000;
    assert Pow2(32) == 0x1_0000_0000;
  }

  // ---------------------------------------------------------------------
  // Rounding down to a power of two

  lemma {:induction false} DownBounds(x: nat, k: nat)
    ensures Down(x, k) <= x < Down(x, k) + Pow2(k)
  {
    if k > 0 {
      DownBounds(x / 2, k - 1);
    }
  }

  /** Down(x, k) is the only multiple of 2^k within 2^k below x. */
  lemma {:induction false} DownUnique(x: nat, s: nat, k: nat)
    requires Down(s, k) == s
    requires s <= x < s + Pow2(k)
    ensures Down(x, k) == s
  {
    if k > 0 {
      assert s == 2 * Down(s / 2, k - 1);
      DownUnique(x / 2, s / 2, k - 1);
    }
  }

  lemma {:induction false} DownAligned(x: nat, k: nat)
    ensures Down(Down(x, k), k) == Down(x, k)
  {
    if k > 0 {
      DownAligned(x / 2, k - 1);
      assert (2 * Down(x / 2, k - 1)) / 2 == Down(x / 2, k - 1);
    }
  }

  /** Rounding down to a finer power first does not change the result. */
  lemma {:induction false} DownDown(x: nat, j: nat, k: nat)
    requires j <= k
    ensures Down(Down(x, j), k) == Down(x, k)
  {
    if j > 0 {
      assert (2 * Down(x / 2, j - 1)) / 2 == Down(x / 2, j - 1);
      DownDown(x / 2, j - 1, k - 1);
    }
  }

  /** A multiple of 2^k is also a multiple of every smaller power. */
  lemma {:induction false} AlignedWeaken(s: nat, j: nat, k: nat)
    requires j <= k
    requires Down(s, k) == s
    ensures Down(s, j) == s
  {
    DownDown(s, j, k);
    DownBounds(s, j);
    DownBounds(Down(s, j), k);
    // Down(s, k) <= Down(s, j) <= s
    DownMono(Down(s, j), s, k);
  }

  lemma {:induction false} DownMono(x: nat, y: nat, k: nat)
    requires x <= y
    ensures Down(x, k) <= Down(y, k)
  {
    if k > 0 {
      DownMono(x / 2, y / 2, k - 1);
    }
  }

  lemma {:induction false} DownAddPow(x: nat, k: nat)
    ensures Down(x + Pow2(k), k) == Down(x, k) + Pow2(k)
  {
    if k > 0 {
      assert (x + Pow2(k)) / 2 == x / 2 + Pow2(k - 1);
      DownAddPow(x / 2, k - 1);
    }
  }

  lemma {:induction false} DownZero(k: nat)
    ensures Down(0, k) == 0
  {
    if k > 0 {
      DownZero(k - 1);
    }
  }

  lemma {:induction false} DownSmall(x: nat, k: nat)
    requires x < Pow2(k)
    ensures Down(x, k) == 0
  {
    DownZero(k);
    DownUnique(x, 0, k);
  }

  /** A multiple of 2^k is its own rounding. */
  lemma {:induction false} DownMultiple(q: nat, k: nat)
    ensures Down(q * Pow2(k), k) == q * Pow2(k)
  {
    if k > 0 {
      assert q * Pow2(k) / 2 == q * Pow2(k - 1);
      DownMultiple(q, k - 1);
    }
  }

  /** Membership in the block of size 2^k starting at the aligned value s. */
  lemma InBlockIff(x: nat, s: nat, k: nat)
    requires Down(s, k) == s
    ensures Down(x, k) == s <==> s <= x < s + Pow2(k)
  {
    DownBounds(x, k);
    if s <= x < s + Pow2(k) {
      DownUnique(x, s, k);
    }
  }

  /** The two halves of an aligned block of size 2^(k+1). */
  lemma {:induction false} Halves(x: nat, s: nat, k: nat)
    requires Down(s, k + 1) == s
    ensures Down(s, k) == s && Down(s + Pow2(k), k) == s + Pow2(k)
    ensures Down(x, k + 1) == s <==> (Down(x, k) == s || Down(x, k) == s + Pow2(k))
  {
    AlignedWeaken(s, k, k + 1);
    DownAddPow(s, k);
    InBlockIff(x, s, k + 1);
    InBlockIff(x, s, k);
    InBlockIff(x, s + Pow2(k), k);
  }

  /** s + 2^k is not a multiple of 2^(k+1) when s is one. */
  lemma {:induction false} UpperHalfNotAligned(s: nat, k: nat, j: nat)
    requires Down(s, k + 1) == s
    requires k + 1 <= j
    ensures Down(s + Pow2(k), j) != s + Pow2(k)
  {
    if Down(s + Pow2(k), j) == s + Pow2(k) {
      AlignedWeaken(s + Pow2(k), k + 1, j);
      InBlockIff(s + Pow2(k), s, k + 1);
      assert false;
    }
  }

  lemma {:induction false} HighMaskAligned(w: nat, k: nat)
    requires k <= w
    ensures Down(HighMask(w, k), k) == HighMask(w, k)
  {
    if k > 0 {
      Pow2Mono(k, w);
      assert HighMask(w, k) / 2 == HighMask(w - 1, k - 1);
      HighMaskAligned(w - 1, k - 1);
    }
  }

  // ---------------------------------------------------------------------
  // Bitwise operations against prefix masks

  lemma {:induction false} AndOnes(x: nat, w: nat)
    requires x < Pow2(w)
    ensures BitAnd(x, Pow2(w) - 1) == x
  {
    if x != 0 {
      assert w > 0;
      assert (Pow2(w) - 1) / 2 == Pow2(w - 1) - 1;
      AndOnes(x / 2, w - 1);
    }
  }

  lemma {:induction false} AndComm(x: nat, y: nat)
    ensures BitAnd(x, y) == BitAnd(y, x)
  {
    if x != 0 && y != 0 {
      AndComm(x / 2, y / 2);
    }
  }

  /** AND with the mask that keeps the bits from k up to w clears the k low bits. */
  lemma {:induction false} AndMask(x: nat, w: nat, k: nat)
    requires k <= w && x < Pow2(w)
    ensures BitAnd(x, HighMask(w, k)) == Down(x, k)
  {
    Pow2Mono(k, w);
    if k == 0 {
      AndOnes(x, w);
    } else if k == w {
      DownSmall(x, k);
    } else if x == 0 {
      DownSmall(0, k);
    } else {
      Pow2Mono(k - 1, w - 1);
      var half := Pow2(w - 1) - Pow2(k - 1);
      assert HighMask(w, k) == 2 * half;
      assert HighMask(w - 1, k - 1) == half;
      AndMask(x / 2, w - 1, k - 1);
      assert BitAnd(x, 2 * half) == 2 * BitAnd(x / 2, half);
    }
  }

  /** Setting bit j of x when that bit is clear adds 2^j. */
  lemma {:induction false} OrBit(x: nat, j: nat)
    requires x - Down(x, j + 1) < Pow2(j)
    ensures BitOr(x, Pow2(j)) == x + Pow2(j)
  {
    if x != 0 {
      if j == 0 {
        assert BitOr(x / 2, 0) == x / 2;
      } else {
        DownBounds(x / 2, j);
        OrBit(x / 2, j - 1);
      }
    }
  }

  /** Clearing bit j of x when that bit is already clear changes nothing. */
  lemma {:induction false} AndNotBit(x: nat, j: nat, w: nat)
    requires j < w && x < Pow2(w)
    requires x - Down(x, j + 1) < Pow2(j)
    ensures BitAnd(x, AllBut(w, j)) == x
  {
    if x != 0 {
      var m := AllBut(w, j);
      assert Down(x, j + 1) == 2 * Down(x / 2, j);
      AllButHalf(w, j);
      if j == 0 {
        assert x % 2 == 0;
        AndOnes(x / 2, w - 1);
        assert BitAnd(x, m) == 2 * BitAnd(x / 2, m / 2);
      } else {
        AndNotBit(x / 2, j - 1, w - 1);
        assert BitAnd(x, m) == 2 * BitAnd(x / 2, m / 2) + x % 2;
      }
    }
  }

  /** Dropping the low bit of the mask that clears bit j gives the mask that clears bit j - 1. */
  lemma AllButHalf(w: nat, j: nat)
    requires j < w
    ensures j == 0 ==> AllBut(w, j) % 2 == 0 && AllBut(w, j) / 2 == Pow2(w - 1) - 1
    ensures j > 0 ==> AllBut(w, j) % 2 == 1 && AllBut(w, j) / 2 == AllBut(w - 1, j - 1)
  {
    Pow2Mono(j, w);
    if j > 0 {
      Pow2Mono(j - 1, w - 1);
      assert AllBut(w, j) == 2 * (Pow2(w - 1) - Pow2(j - 1)) - 1;
    }
  }

  /** Adding bit 0 to an even mask does not change AND with an even number. */
  lemma AndLowBit(x: nat, y: nat)
    requires x % 2 == 0 && y % 2 == 0
    ensures BitAnd(x, y + 1) == BitAnd(x, y)
  {
  }

  /** AND never yields more than either operand. */
  lemma {:induction false} AndBelow(x: nat, y: nat)
    ensures BitAnd(x, y) <= x && BitAnd(x, y) <= y
  {
    if x != 0 && y != 0 {
      AndBelow(x / 2, y / 2);
    }
  }

  lemma {:induction false} AndHighBit(x: nat, w: nat)
    requires x < Pow2(w)
    ensures BitAnd(x, Pow2(w)) == 0
  {
    if x != 0 {
      AndHighBit(x / 2, w - 1);
    }
  }

  // ---------------------------------------------------------------------
  // Division

  lemma MulMono(d: int, k: int)
    requires d > 0 && k >= 1
    ensures d * k >= d
  {
  }

  lemma MulLe(a: nat, u: nat, v: nat)
    requires u <= v
    ensures a * u <= a * v
  {
    assert a * v == a * u + a * (v - u);
  }

  /** Quotient and remainder are the only ones with the defining property. */
  lemma DivUnique(x: int, d: int, q: int, r: int)
    requires d > 0 && 0 <= r < d && x == d * q + r
    ensures x / d == q && x % d == r
  {
    var q' := x / d;
    var r' := x % d;
    assert d * q' + r' == d * q + r;
    if q' > q {
      assert d * (q' - q) == d * q' - d * q;
      MulMono(d, q' - q);
    } else if q' < q {
      assert d * (q - q') == d * q - d * q';
      MulMono(d, q - q');
    }
  }

  lemma DivTwice(x: nat, a: nat, b: nat)
    requires a > 0 && b > 0
    ensures x / a / b == x / (a * b)
  {
    var q := x / a;
    var r := x % a;
    var q2 := q / b;
    var r2 := q % b;
    assert x == a * q + r;
    assert q == b * q2 + r2;
    assert a * q == a * (b * q2) + a * r2;
    assert a * (b * q2) == (a * b) * q2;
    MulLe(a, r2, b - 1);
    assert a * (b - 1) == a * b - a;
    DivUnique(x, a * b, q2, a * r2 + r);
  }

  /** A 32-bit value is the sum of its four bytes, most significant first. */
  lemma Bytes32(x: nat)
    requires x < 0x1_0000_0000
    ensures (x / 0x100_0000) % 256 == x / 0x100_0000
    ensures x == (x / 0x100_0000) * 0x100_0000 + ((x / 0x1_0000) % 256) * 0x1_0000 + ((x / 256) % 256) * 256 + x % 256
  {
    var y := x / 256;
    var z := y / 256;
    var w := z / 256;
    DivTwice(x, 256, 256);
    DivTwice(x, 0x1_0000, 256);
    assert x == 256 * y + x % 256;
    assert y == 256 * z + y % 256;
    assert z == 256 * w + z % 256;
    DivUnique(w, 256, 0, w);
  }

  // ---------------------------------------------------------------------
  // Random indices.  Math.random() is a parameter r with 0 <= r < 1.

  /** `Math.round(r * n)`: JavaScript rounds halves up. */
  function RoundScaled(r: real, n: nat): (k: nat)
    requires 0.0 <= r < 1.0
    ensures k <= n
  {
    var x := r * n as real + 0.5;
    ScaledBelow(r, n);
    x.Floor
  }

  /** `Math.round(r * n)` reaches n itself: one past the last index of an n-element array. */
  lemma RoundScaledOverruns(n: nat)
    requires n > 0
    ensures RoundScaled(1.0 - 1.0 / (2 * n) as real, n) == n
  {
    var r := 1.0 - 1.0 / (2 * n) as real;
    assert r * n as real == n as real - 0.5;
  }

  lemma ScaledBelow(r: real, n: nat)
    requires 0.0 <= r < 1.0
    ensures 0.0 <= r * n as real <= n as real
    ensures n > 0 ==> r * n as real < n as real
  {
    assert n as real - r * n as real == (1.0 - r) * n as real;
  }

  /** `Math.floor(r * n)`: an index of an n-element array. */
  function FloorScaled(r: real, n: nat): (k: nat)
    requires 0.0 <= r < 1.0 && n > 0
    ensures k < n
  {
    var x := r * n as real;
    ScaledBelow(r, n);
    x.Floor
  }
}
