/**
 * Machine types and small helpers shared by the model of the FrontPanel
 * device adapter: the fixed-width integer types of common.h, the C++
 * narrowing conversions the adapter relies on, and a result type for the
 * `std::out_of_range` exception thrown by `std::string::substr`.
 */
module Common {

  /** `byte` (unsigned char). */
  newtype Byte = x: int | 0 <= x < 0x100

  /** `u32`. */
  newtype U32 = x: int | 0 <= x < 0x1_0000_0000

  /** `int`. */
  newtype Int32 = x: int | -0x8000_0000 <= x < 0x8000_0000

  /** `char` on the platforms the adapter targets (signed, 8 bits). */
  newtype Int8 = x: int | -0x80 <= x < 0x80

  const TWO_32: int := 0x1_0000_0000

  /** A position or `std::string::npos`. */
  datatype Option<+T> = None | Some(value: T)

  /** Moves a found position right by `k`. */
  function Shift(o: Option<nat>, k: nat): (r: Option<nat>)
    ensures r.Some? <==> o.Some?
    ensures r.Some? ==> r.value == o.value + k
  {
    match o
    case None => None
    case Some(i) => Some(i + k)
  }

  /** Either a value or the `std::out_of_range` exception. */
  datatype Result<+T> = Ok(value: T) | OutOfRange

  /** Prefixes `items` to a successful result; an exception propagates. */
  function Prepend<T>(items: seq<T>, r: Result<seq<T>>): (p: Result<seq<T>>)
    ensures p.Ok? <==> r.Ok?
    ensures p.Ok? ==> p.value == items + r.value
    ensures items == [] ==> p == r
  {
    match r
    case Ok(v) => assert items == [] ==> items + v == v; Ok(items + v)
    case OutOfRange => OutOfRange
  }

  lemma PrependTwice<T>(a: seq<T>, b: seq<T>, r: Result<seq<T>>)
    ensures Prepend(a, Prepend(b, r)) == Prepend(a + b, r)
  {
    if r.Ok? {
      assert a + (b + r.value) == (a + b) + r.value;
    }
  }

  function Min(a: int, b: int): int { if a <= b then a else b }

  function Max(a: int, b: int): int { if a >= b then a else b }

  /**
   * The value a conversion to a 32-bit two's-complement `int` yields: the
   * low 32 bits of `x`, read as signed.
   */
  function ToInt32(x: int): (r: int)
    ensures -0x8000_0000 <= r < 0x8000_0000
    ensures (r - x) % TWO_32 == 0
    ensures -0x8000_0000 <= x < 0x8000_0000 ==> r == x
  {
    var low := x % TWO_32;
    if low < 0x8000_0000 then low else low - TWO_32
  }

  /** The value a conversion to `u32` yields: `x` modulo 2^32. */
  function ToU32(x: int): (r: U32)
    ensures (r as int - x) % TWO_32 == 0
    ensures 0 <= x < TWO_32 ==> r as int == x
  {
    (x % TWO_32) as U32
  }

  /** `n` zero bytes: what a value-initialised `std::vector<byte>(n)` holds. */
  function Zeros(n: nat): (z: seq<Byte>)
    ensures |z| == n && forall i :: 0 <= i < n ==> z[i] == 0
  {
    seq(n, _ => 0)
  }

  /** `n` copies of `v`: what `std::vector::assign(n, v)` leaves. */
  function Fill(n: nat, v: Byte): (f: seq<Byte>)
    ensures |f| == n && forall i :: 0 <= i < n ==> f[i] == v
  {
    seq(n, _ => v)
  }

  // ---------------------------------------------------------------------
  // Arithmetic facts the digit encodings rely on
  // ---------------------------------------------------------------------

  function Pow2(n: nat): (r: nat)
    ensures r > 0
  {
    if n == 0 then 1 else 2 * Pow2(n - 1)
  }

  function Pow16(n: nat): (r: nat)
    ensures r > 0
  {
    if n == 0 then 1 else 16 * Pow16(n - 1)
  }

  lemma {:induction false} Pow2Nibbles(k: nat)
    ensures Pow2(4 * k) == Pow16(k)
  {
    if k > 0 {
      Pow2Nibbles(k - 1);
      var n := 4 * (k - 1);
      assert Pow2(n + 4) == 2 * Pow2(n + 3) == 4 * Pow2(n + 2);
      assert Pow2(n + 2) == 2 * Pow2(n + 1) == 4 * Pow2(n);
    }
  }

  /** Division by `b * c` is division by `b`, then by `c`; the remainders nest likewise. */
  lemma DivMod2(a: int, b: int, c: int)
    requires b > 0 && c > 0
    ensures a / (b * c) == (a / b) / c
    ensures a % (b * c) == b * ((a / b) % c) + a % b
  {
    var q1, r1 := a / b, a % b;
    var q2, r2 := q1 / c, q1 % c;
    Regroup(a, b, c, q1, r1, q2, r2);
    DivModUnique(a, b * c, q2, b * r2 + r1);
  }

  lemma Regroup(a: int, b: int, c: int, q1: int, r1: int, q2: int, r2: int)
    requires b > 0 && c > 0
    requires a == b * q1 + r1 && 0 <= r1 < b
    requires q1 == c * q2 + r2 && 0 <= r2 < c
    ensures a == (b * c) * q2 + (b * r2 + r1)
    ensures 0 <= b * r2 + r1 < b * c
  {
    assert b * q1 == (b * c) * q2 + b * r2;
    assert b * r2 <= b * (c - 1);
  }

  lemma DivModUnique(a: int, m: int, q: int, r: int)
    requires m > 0 && a == m * q + r && 0 <= r < m
    ensures a / m == q && a % m == r
  {
    var q0, r0 := a / m, a % m;
    if q0 > q {
      MulAtLeast(m, q0 - q);
      assert false;
    } else if q0 < q {
      MulAtLeast(m, q - q0);
      assert false;
    }
  }

  lemma {:induction false} MulAtLeast(m: int, d: int)
    requires m > 0 && d >= 1
    ensures m * d >= m
  {
    if d > 1 {
      MulAtLeast(m, d - 1);
      assert m * d == m * (d - 1) + m;
    }
  }

  lemma MulSucc(c: int, d: int)
    ensures (1 + c) * d == d + c * d
  {
  }
}
