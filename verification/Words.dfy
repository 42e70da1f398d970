/** Fixed-width words as bounded integers, and the bit operations the emulator applies to them. */
module Words {

  type byte = x: int | 0 <= x < 0x100
  type uint16 = x: int | 0 <= x < 0x1_0000
  type uint32 = x: int | 0 <= x < 0x1_0000_0000
  type uint64 = x: int | 0 <= x < 0x1_0000_0000_0000_0000
  type int64 = x: int | -0x8000_0000_0000_0000 <= x < 0x8000_0000_0000_0000

  const TWO31: int := 0x8000_0000
  const TWO32: int := 0x1_0000_0000
  const TWO63: int := 0x8000_0000_0000_0000
  const TWO64: int := 0x1_0000_0000_0000_0000

  datatype Option<+T> = None | Some(value: T)

  /** The two operand widths of the integer instructions. */
  datatype Width = W32 | W64 {
    function Bits(): nat { if W32? then 32 else 64 }
    function Modulus(): nat { if W32? then TWO32 else TWO64 }
    function Half(): nat { if W32? then TWO31 else TWO63 }
  }

  // ---------- powers of two ----------

  function Pow2(n: nat): (p: nat)
    ensures p >= 1
  {
    if n == 0 then 1 else 2 * Pow2(n - 1)
  }

  lemma Pow2Widths()
    ensures Pow2(1) == 2 && Pow2(3) == 8 && Pow2(8) == 0x100 && Pow2(16) == 0x1_0000 && Pow2(31) == TWO31
    ensures Pow2(32) == TWO32 && Pow2(63) == TWO63 && Pow2(64) == TWO64
  {
    assert Pow2(4) == 16;
    Pow2Add(4, 4);
    Pow2Add(8, 8);
    Pow2Add(16, 16);
    Pow2Add(32, 32);
    assert Pow2(32) == 2 * Pow2(31) && Pow2(64) == 2 * Pow2(63);
  }

  lemma PowStep(n: nat)
    ensures n > 0 ==> Pow2(n) == 2 * Pow2(n - 1)
  {
  }

  lemma WidthPowers(w: Width)
    ensures Pow2(w.Bits()) == w.Modulus() && Pow2(w.Bits() - 1) == w.Half() && w.Modulus() == 2 * w.Half()
  {
    Pow2Widths();
  }

  lemma {:induction false} Pow2Add(m: nat, n: nat)
    ensures Pow2(m + n) == Pow2(m) * Pow2(n)
  {
    if m == 0 {
    } else {
      Pow2Add(m - 1, n);
      assert 2 * (Pow2(m - 1) * Pow2(n)) == (2 * Pow2(m - 1)) * Pow2(n);
    }
  }

  lemma {:induction false} Pow2Monotone(m: nat, n: nat)
    requires m <= n
    ensures Pow2(m) <= Pow2(n)
    ensures m < n ==> 2 * Pow2(m) <= Pow2(n)
    decreases n - m
  {
    if m < n {
      Pow2Monotone(m + 1, n);
    }
  }

  // ---------- division by a positive divisor ----------

  lemma MultipleBelow(k: int, d: int)
    requires -d < k * d < d
    ensures k == 0
  {
    assert k >= 1 ==> k * d >= d;
    assert k <= -1 ==> k * d <= -d;
  }

  /** Quotient and remainder are the only pair with these two properties. */
  lemma DivModUnique(a: int, d: int, q: int, r: int)
    requires d > 0 && 0 <= r < d && a == q * d + r
    ensures a / d == q && a % d == r
  {
    var q', r' := a / d, a % d;
    assert (q - q') * d == r' - r by {
      assert a == q' * d + r';
      assert (q - q') * d == q * d - q' * d;
    }
    MultipleBelow(q - q', d);
  }

  lemma MulMonotone(a: int, b: int, k: int)
    requires a <= b && k >= 0
    ensures a * k <= b * k
  {
  }

  lemma DivBelow(a: int, p: int, q: int)
    requires p > 0 && a < p * q
    ensures a / p < q
  {
    if a / p >= q {
      MulMonotone(q, a / p, p);
    }
  }

  lemma DivAtLeast(a: int, p: int, q: int)
    requires p > 0 && q * p <= a
    ensures a / p >= q
  {
    if a / p < q {
      MulMonotone(a / p + 1, q, p);
    }
  }

  lemma DivDiv(a: int, m: int, n: int)
    requires m > 0 && n > 0
    ensures m * n > 0 && (a / m) / n == a / (m * n)
    ensures a % (m * n) == m * ((a / m) % n) + a % m
  {
    var q, r := (a / m) / n, (a / m) % n;
    assert a / m == q * n + r;
    assert a == (a / m) * m + a % m;
    assert a == (q * n + r) * m + a % m;
    assert (q * n) * m == q * (m * n);
    assert r * m <= (n - 1) * m;
    assert (n - 1) * m == m * n - m;
    DivModUnique(a, m * n, q, r * m + a % m);
  }

  lemma ModAddMultiple(a: int, k: int, m: int)
    requires m > 0
    ensures (a + k * m) % m == a % m
    ensures (a + k * m) / m == a / m + k
  {
    assert a == (a / m) * m + a % m;
    assert a + k * m == (a / m + k) * m + a % m;
    DivModUnique(a + k * m, m, a / m + k, a % m);
  }

  lemma ModMulLeft(a: int, b: int, m: int)
    requires m > 0
    ensures ((a % m) * b) % m == (a * b) % m
  {
    assert a == (a / m) * m + a % m;
    assert a * b == (a % m) * b + ((a / m) * b) * m;
    ModAddMultiple((a % m) * b, (a / m) * b, m);
  }

  lemma ModDifference(x: int, y: int, m: int)
    requires m > 0 && x % m == y % m
    ensures x == y + (x / m - y / m) * m
  {
    assert x == x / m * m + x % m && y == y / m * m + y % m;
  }

  lemma SumCongruent(a: int, x: int, y: int, m: int)
    requires m > 0 && x % m == y % m
    ensures (a + x) % m == (a + y) % m && (a - x) % m == (a - y) % m
  {
    var k := x / m - y / m;
    ModDifference(x, y, m);
    ModAddMultiple(a + y, k, m);
    ModAddMultiple(a - y, -k, m);
    assert -k * m == -(k * m);
  }

  lemma SumMod(a: int, b: int, m: int)
    requires m > 0
    ensures (a + b) % m == (a % m + b % m) % m
  {
    ModTwice(b, m);
    SumCongruent(a, b, b % m, m);
    ModTwice(a, m);
    SumCongruent(b % m, a, a % m, m);
  }

  lemma ModTwice(x: int, m: int)
    requires m > 0
    ensures x % m % m == x % m
  {
    DivModUnique(x % m, m, 0, x % m);
  }

  // ---------- bitwise operations ----------

  function And(a: nat, b: nat): (r: nat)
    ensures r <= a && r <= b
  {
    if a == 0 || b == 0 then 0
    else 2 * And(a / 2, b / 2) + (if a % 2 == 1 && b % 2 == 1 then 1 else 0)
  }

  function Or(a: nat, b: nat): (r: nat)
    ensures r >= a && r >= b
  {
    if a == 0 then b
    else if b == 0 then a
    else 2 * Or(a / 2, b / 2) + (if a % 2 == 1 || b % 2 == 1 then 1 else 0)
  }

  function Xor(a: nat, b: nat): nat {
    if a == 0 then b
    else if b == 0 then a
    else 2 * Xor(a / 2, b / 2) + (if a % 2 == b % 2 then 0 else 1)
  }

  /** Bit `k` of `a`, counted from the least significant. */
  predicate Bit(a: nat, k: nat) {
    a / Pow2(k) % 2 == 1
  }

  /** Neither operation produces a bit above the highest of its operands. */
  lemma {:induction false} BitwiseBound(a: nat, b: nat, n: nat)
    requires a < Pow2(n) && b < Pow2(n)
    ensures Or(a, b) < Pow2(n) && Xor(a, b) < Pow2(n)
  {
    if n > 0 {
      BitwiseBound(a / 2, b / 2, n - 1);
    }
  }

  /** The top bit of each bitwise operation on (k+1)-bit operands is the operation on their top bits. */
  lemma {:induction false} TopBit(a: nat, b: nat, k: nat)
    requires a < 2 * Pow2(k) && b < 2 * Pow2(k)
    ensures Xor(a, b) < 2 * Pow2(k)
    ensures Xor(a, b) >= Pow2(k) <==> (a >= Pow2(k)) != (b >= Pow2(k))
    ensures And(a, b) >= Pow2(k) <==> a >= Pow2(k) && b >= Pow2(k)
  {
    if k > 0 {
      TopBit(a / 2, b / 2, k - 1);
    }
  }

  lemma {:induction false} AndSingleBit(a: nat, k: nat)
    requires a < 2 * Pow2(k)
    ensures And(a, Pow2(k)) != 0 <==> a >= Pow2(k)
  {
    if k > 0 {
      AndSingleBit(a / 2, k - 1);
    }
  }

  lemma {:induction false} AndMask(a: nat, n: nat)
    ensures And(a, Pow2(n) - 1) == a % Pow2(n)
  {
    if n == 0 {
      assert Pow2(n) == 1;
    } else {
      AndMask(a / 2, n - 1);
      assert (Pow2(n) - 1) / 2 == Pow2(n - 1) - 1;
      DivDiv(a, 2, Pow2(n - 1));
    }
  }

  lemma {:induction false} XorCancel(a: nat, b: nat, c: nat)
    requires Xor(a, b) == Xor(a, c)
    ensures b == c
  {
    if a != 0 {
      XorParity(a, b);
      XorParity(a, c);
      XorCancel(a / 2, b / 2, c / 2);
    }
  }

  lemma XorParity(a: nat, b: nat)
    ensures Xor(a, b) / 2 == Xor(a / 2, b / 2)
    ensures Xor(a, b) % 2 == 0 <==> a % 2 == b % 2
  {
  }

  lemma {:induction false} OrSelf(a: nat)
    ensures Or(a, a) == a
  {
    if a != 0 {
      OrSelf(a / 2);
    }
  }

  lemma OrDouble(h: nat, b: nat)
    ensures Or(2 * h, b) == 2 * Or(h, b / 2) + b % 2
    ensures Or(b, 2 * h) == 2 * Or(b / 2, h) + b % 2
  {
    hide Or;
    OrStep(2 * h, b);
    OrStep(b, 2 * h);
    assert 2 * h / 2 == h && 2 * h % 2 == 0;
  }

  lemma OrStep(a: nat, b: nat)
    ensures Or(a, b) == 2 * Or(a / 2, b / 2) + (if a % 2 == 1 || b % 2 == 1 then 1 else 0)
  {
  }

  lemma ProductHalves(q: nat, m: nat)
    requires m % 2 == 0
    ensures q * m == 2 * (q * (m / 2)) && q * (m / 2) >= 0
  {
    assert m == 2 * (m / 2);
  }

  /** Or of parts that share no bits is their sum; `m` is a power of two. */
  lemma {:induction false} OrApart(q: nat, k: nat, m: nat, b: nat)
    requires m == Pow2(k) && b < m
    ensures q * m >= 0 && Or(q * m, b) == q * m + b && Or(b, q * m) == q * m + b
    decreases k
  {
    hide Or;
    if k > 0 {
      OrApart(q, k - 1, m / 2, b / 2);
      ProductHalves(q, m);
      OrDouble(q * (m / 2), b);
    } else {
      OrNothing(q);
    }
  }

  lemma OrNothing(q: nat)
    ensures Or(q, 0) == q && Or(0, q) == q
  {
  }

  lemma AndHalves(a: nat, b: nat)
    ensures And(a, b) == 2 * And(a / 2, b / 2) + (if a % 2 == 1 && b % 2 == 1 then 1 else 0)
  {
  }

  lemma AndParts(a: nat, b: nat)
    ensures And(a, b) / 2 == And(a / 2, b / 2) && And(a, b) % 2 == if a % 2 == 1 && b % 2 == 1 then 1 else 0
  {
    AndHalves(a, b);
    hide And;
  }

  lemma LowHalves(a: nat, k: nat)
    requires k > 0
    ensures a % Pow2(k) / 2 == a / 2 % Pow2(k - 1) && a % Pow2(k) % 2 == a % 2
    ensures a % Pow2(k) == 2 * (a / 2 % Pow2(k - 1)) + a % 2
  {
    DivDiv(a, 2, Pow2(k - 1));
  }

  /** The low bits of a bitwise operation are the operation on the low bits. */
  lemma {:induction false} AndLow(a: nat, b: nat, k: nat)
    ensures And(a, b) % Pow2(k) == And(a % Pow2(k), b % Pow2(k))
  {
    if k == 0 {
      assert Pow2(0) == 1 && And(0, 0) == 0;
    } else {
      hide And, Pow2;
      AndLow(a / 2, b / 2, k - 1);
      LowHalves(a, k);
      LowHalves(b, k);
      LowHalves(And(a, b), k);
      AndParts(a, b);
      AndHalves(a % Pow2(k), b % Pow2(k));
    }
  }

  lemma {:induction false} XorLow(a: nat, b: nat, k: nat)
    ensures Xor(a, b) % Pow2(k) == Xor(a % Pow2(k), b % Pow2(k))
  {
    if k == 0 {
      assert Pow2(0) == 1 && Xor(0, 0) == 0;
    } else {
      hide Xor, Pow2;
      XorLow(a / 2, b / 2, k - 1);
      LowHalves(a, k);
      LowHalves(b, k);
      LowHalves(Xor(a, b), k);
      XorParity(a, b);
      XorParity(a % Pow2(k), b % Pow2(k));
    }
  }

  lemma {:induction false} OrLow(a: nat, b: nat, k: nat)
    ensures Or(a, b) % Pow2(k) == Or(a % Pow2(k), b % Pow2(k))
  {
    if k == 0 {
      assert Pow2(0) == 1 && Or(0, 0) == 0;
    } else {
      hide Or, Pow2;
      OrLow(a / 2, b / 2, k - 1);
      LowHalves(a, k);
      LowHalves(b, k);
      LowHalves(Or(a, b), k);
      OrParts(a, b);
      OrStep(a % Pow2(k), b % Pow2(k));
    }
  }

  lemma OrParts(a: nat, b: nat)
    ensures Or(a, b) / 2 == Or(a / 2, b / 2) && Or(a, b) % 2 == if a % 2 == 1 || b % 2 == 1 then 1 else 0
  {
    OrStep(a, b);
    hide Or;
  }

  /** Only the low bits of the second operand meet a first operand below 2^k. */
  lemma AndBelow(a: nat, b: nat, k: nat)
    requires a < Pow2(k)
    ensures And(a, b) == And(a, b % Pow2(k))
  {
    hide And, Pow2;
    AndLow(a, b, k);
    DivModUnique(a, Pow2(k), 0, a);
    DivModUnique(And(a, b), Pow2(k), 0, And(a, b));
  }

  lemma {:induction false} AndOnes(b: nat, k: nat)
    ensures And(Pow2(k) - 1, b) == b % Pow2(k)
  {
    if k == 0 {
      assert Pow2(0) == 1;
    } else {
      hide And;
      PowStep(k);
      hide Pow2;
      AndOnes(b / 2, k - 1);
      AndHalves(Pow2(k) - 1, b);
      LowHalves(b, k);
      assert (Pow2(k) - 1) / 2 == Pow2(k - 1) - 1 && (Pow2(k) - 1) % 2 == 1;
    }
  }

  function And64(a: uint64, b: uint64): uint64 { And(a, b) }

  function Or64(a: uint64, b: uint64): uint64 {
    Pow2Widths();
    BitwiseBound(a, b, 64);
    Or(a, b)
  }

  function Xor64(a: uint64, b: uint64): uint64 {
    Pow2Widths();
    BitwiseBound(a, b, 64);
    Xor(a, b)
  }

  // ---------- two's complement ----------

  function Wrap64(a: int): uint64 { a % TWO64 }

  lemma WrapMod(x: int, w: Width)
    ensures Wrap64(x) % w.Modulus() == x % w.Modulus()
  {
  }

  function Not64(a: uint64): uint64 { TWO64 - 1 - a }

  /** The signed reading of a `w`-wide word. */
  function Signed(a: nat, w: Width): int {
    if a < w.Half() then a else a - w.Modulus()
  }

  /** Sign extension of the low `bits` bits of a value to 64 bits. */
  function SignExtend(a: nat, bits: nat): uint64
    requires 0 < bits <= 64
  {
    var low := a % Pow2(bits);
    Wrap64(if low >= Pow2(bits - 1) then low - Pow2(bits) else low)
  }

  // ---------- shifts; the amount is already reduced below the width ----------

  function ShiftLeft(a: nat, k: nat, w: Width): (r: nat)
    ensures r < w.Modulus()
  {
    a * Pow2(k) % w.Modulus()
  }

  function ShiftRight(a: nat, k: nat): (r: nat)
    ensures r <= a
  {
    QuotientBelow(a, Pow2(k));
    a / Pow2(k)
  }

  function ShiftRightArith(a: nat, k: nat, w: Width): (r: nat)
    requires a < w.Modulus()
    ensures r < w.Modulus()
  {
    (Signed(a, w) / Pow2(k)) % w.Modulus()
  }

  function RotateRight(a: nat, k: nat, w: Width): (r: nat)
    requires a < w.Modulus() && k < w.Bits()
    ensures r < w.Modulus()
  {
    RotateBound(a, k, w);
    a / Pow2(k) + (a % Pow2(k)) * Pow2(w.Bits() - k)
  }

  lemma QuotientBelow(a: nat, p: nat)
    requires p > 0
    ensures 0 <= a / p <= a
  {
    MulMonotone(1, p, a / p);
  }

  lemma DigitsBound(x: int, y: int, p: int, q: int)
    requires 0 <= x < q && 0 <= y < p
    ensures x + y * q < p * q
  {
    MulMonotone(y, p - 1, q);
    assert (p - 1) * q == p * q - q;
  }

  lemma RotateArith(a: nat, p: nat, q: nat)
    requires p > 0 && q > 0 && a < p * q
    ensures 0 <= a / p + (a % p) * q < p * q
  {
    DivBelow(a, p, q);
    DigitsBound(a / p, a % p, p, q);
    MulMonotone(0, a % p, q);
  }

  lemma RotateBound(a: nat, k: nat, w: Width)
    requires a < w.Modulus() && k < w.Bits()
    ensures 0 <= a / Pow2(k) + (a % Pow2(k)) * Pow2(w.Bits() - k) < w.Modulus()
  {
    Pow2Add(k, w.Bits() - k);
    Pow2Widths();
    RotateArith(a, Pow2(k), Pow2(w.Bits() - k));
  }

  // ---------- little-endian bytes ----------

  function Le(a: nat, n: nat): (s: seq<byte>)
    ensures |s| == n
  {
    if n == 0 then [] else [a % 0x100] + Le(a / 0x100, n - 1)
  }

  function FromLe(s: seq<byte>): nat {
    if s == [] then 0 else s[0] + 0x100 * FromLe(s[1..])
  }

  lemma {:induction false} FromLeBound(s: seq<byte>)
    ensures FromLe(s) < Pow2(8 * |s|)
  {
    if s != [] {
      FromLeBound(s[1..]);
      Pow2Add(8, 8 * |s[1..]|);
      Pow2Widths();
    }
  }

  lemma {:induction false} FromLeLe(a: nat, n: nat)
    requires a < Pow2(8 * n)
    ensures FromLe(Le(a, n)) == a
  {
    if n > 0 {
      Pow2Add(8, 8 * (n - 1));
      Pow2Widths();
      FromLeLe(a / 0x100, n - 1);
      assert Le(a, n)[1..] == Le(a / 0x100, n - 1);
    } else {
      assert Pow2(0) == 1;
    }
  }

  /** Byte `i` of the encoding is digit `i` of the number to base 256, least significant first. */
  lemma {:induction false} LeDigits(a: nat, n: nat, i: nat)
    requires i < n
    ensures Le(a, n)[i] == a / Pow2(8 * i) % 0x100
  {
    if i == 0 {
      assert Pow2(0) == 1;
    } else {
      LeDigits(a / 0x100, n - 1, i - 1);
      Pow2Add(8, 8 * (i - 1));
      Pow2Widths();
      DivDiv(a, 0x100, Pow2(8 * (i - 1)));
    }
  }

  lemma {:induction false} LeFromLe(s: seq<byte>)
    ensures Le(FromLe(s), |s|) == s
  {
    if s != [] {
      LeFromLe(s[1..]);
      assert FromLe(s) / 0x100 == FromLe(s[1..]);
      assert s == [s[0]] + s[1..];
    }
  }

  function FromLe32(s: seq<byte>): uint32
    requires |s| == 4
  {
    FromLeBound(s);
    Pow2Widths();
    FromLe(s)
  }

  function FromLe64(s: seq<byte>): uint64
    requires |s| == 8
  {
    FromLeBound(s);
    Pow2Widths();
    FromLe(s)
  }

  lemma LeRoundTrip64(a: uint64)
    ensures FromLe64(Le(a, 8)) == a
  {
    Pow2Widths();
    FromLeLe(a, 8);
  }
}
