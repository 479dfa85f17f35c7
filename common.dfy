/** Java-level building blocks shared by every part of the model: failure
    values standing for the exceptions the source can raise, 32-bit `int`
    arithmetic, the ceiling divisions the source writes with `Math.ceil`, and
    the big-endian byte order of `ByteBuffer.putInt`/`getInt`. */
module Common {

  datatype Option<+T> = None | Some(value: T)

  /** The exceptions of the source that the model keeps apart. */
  datatype Failure =
    | IllegalArgument       // IllegalArgumentException (also: negative ByteBuffer capacity)
    | BufferOverflow        // BufferOverflowException from a put past the limit
    | BufferUnderflow       // BufferUnderflowException from a get past the limit
    | IndexOutOfBounds      // ArrayIndexOutOfBoundsException
    | NegativeArraySize     // NegativeArraySizeException
    | NumberFormat          // NumberFormatException from Integer.parseInt
    | NullPointer           // NullPointerException
    | IOFailure             // IOException
    | Arithmetic            // ArithmeticException from an integer `%` by zero

  datatype Result<+T> = Ok(value: T) | Err(error: Failure)

  /** A Java `byte`, held as its unsigned value (the bit pattern read as a
      number from 0 to 255). */
  newtype byte = x: int | 0 <= x < 0x100

  const INT_MIN: int := -0x8000_0000
  const INT_MAX: int := 0x7fff_ffff
  const TWO32: int := 0x1_0000_0000

  /** The values of a Java `int`. */
  predicate IsInt(x: int) { INT_MIN <= x <= INT_MAX }

  /** Two's-complement wrap-around of a Java `int` operation whose exact
      result is `x`. */
  function Wrap32(x: int): (r: int)
    ensures IsInt(r)
    ensures (x - r) % TWO32 == 0
    ensures IsInt(x) ==> r == x
  {
    (x - INT_MIN) % TWO32 + INT_MIN
  }

  /** Java's `/` on `int` by a positive divisor: the quotient is truncated
      toward zero. */
  function JavaDiv(a: int, b: int): (q: int)
    requires b > 0
    ensures a >= 0 ==> q == a / b
  {
    if a >= 0 then a / b else -((-a) / b)
  }

  /** Java's `%` on `int` by a non-zero divisor: the remainder has the sign
      of the dividend and is smaller than the divisor in magnitude; the
      divisor's sign does not matter. */
  function JavaRem(a: int, b: int): (r: int)
    requires b != 0
    ensures b > 0 ==> a == JavaDiv(a, b) * b + r
    ensures b < 0 ==> a == JavaDiv(a, -b) * (-b) + r
    ensures a >= 0 ==> 0 <= r < Abs(b)
    ensures a < 0 ==> 0 <= -r < Abs(b)
  {
    RemPositive(a, Abs(b))
  }

  function RemPositive(a: int, b: int): (r: int)
    requires b > 0
    ensures a == JavaDiv(a, b) * b + r
    ensures a >= 0 ==> 0 <= r < b
    ensures a < 0 ==> -b < r <= 0
  {
    if a >= 0 then a % b else -((-a) % b)
  }

  function Abs(x: int): nat {
    if x < 0 then -x else x
  }

  /** `x` where it is not negative, 0 otherwise: how many times a loop
      `for (i = 0; i < x; i++)` runs. */
  function NonNeg(x: int): (r: nat)
    ensures x >= 0 ==> r == x
    ensures x < 0 ==> r == 0
  {
    if x < 0 then 0 else x
  }

  /** The least `r` with `a <= r * b`, for non-negative `a` and positive `b`:
      `a / b` rounded up. */
  function CeilDiv(a: nat, b: nat): (r: nat)
    requires b > 0
    ensures a <= r * b
    ensures r > 0 ==> (r - 1) * b < a
  {
    if a == 0 then 0 else (a - 1) / b + 1
  }

  /** `(int) Math.ceil((double) a / b)` on Java `int`s. For `b != 0` the
      double quotient is within 2^-22 / |b| of `a / b`, closer than any
      non-integer quotient gets to an integer, so the ceiling is the exact
      integer ceiling, and only `INT_MIN / -1` leaves the `int` range, where
      the cast saturates. For `b == 0` the quotient is an infinity, cast to
      `INT_MAX` or `INT_MIN`, or `0 / 0`, NaN, cast to 0. */
  function JavaCeilDiv(a: int, b: int): (r: int)
    requires IsInt(a) && IsInt(b)
    ensures IsInt(r)
    ensures b > 0 ==> a <= r * b < a + b
    ensures b < 0 && !(a == INT_MIN && b == -1) ==> r * b <= a < r * b - b
    ensures a == INT_MIN && b == -1 ==> r == INT_MAX
    ensures b == 0 ==> r == if a > 0 then INT_MAX else if a < 0 then INT_MIN else 0
    ensures 0 <= a && 0 < b ==> r == CeilDiv(a, b)
  {
    if b == 0 then (if a > 0 then INT_MAX else if a < 0 then INT_MIN else 0)
    else if b > 0 then CeilPos(a, b)
    else if a == INT_MIN && b == -1 then INT_MAX
    else CeilNeg(a, b)
  }

  function CeilPos(a: int, b: int): (r: int)
    requires IsInt(a) && 0 < b <= INT_MAX
    ensures IsInt(r) && a <= r * b < a + b
    ensures 0 <= a ==> r == CeilDiv(a, b)
  {
    if a > 0 then
      DivAtMost(a - 1, b);
      CeilDiv(a, b)
    else
      DivAtMost(-a, b);
      assert -a == ((-a) / b) * b + (-a) % b;
      -((-a) / b)
  }

  function CeilNeg(a: int, b: int): (r: int)
    requires IsInt(a) && INT_MIN <= b < 0 && !(a == INT_MIN && b == -1)
    ensures IsInt(r) && r * b <= a < r * b - b
  {
    var c := -b;
    var q := a / c;
    assert a == q * c + a % c && 0 <= a % c < c;
    assert (-q) * b == q * c;
    assert -INT_MAX <= q <= -INT_MIN by {
      if a >= 0 {
        DivAtMost(a, c);
      } else {
        FloorDivNegative(a, c);
      }
    }
    -q
  }

  /** Euclidean division of a natural number by a positive one does not
      grow it. */
  lemma DivAtMost(x: nat, b: int)
    requires b >= 1
    ensures 0 <= x / b <= x
  {
    var q := x / b;
    assert q * b <= x;
    MulAtLeast(q, b);
  }

  lemma MulAtLeast(q: int, b: int)
    requires q >= 0 && b >= 1
    ensures q * b >= q
  {
    assert q * b == q + q * (b - 1);
  }

  /** Multiplying by a positive number keeps the order. */
  lemma MulMonotone(x: int, y: int, p: int)
    requires x <= y && p >= 1
    ensures x * p <= y * p
  {
    assert y * p - x * p == (y - x) * p;
    MulAtLeast(y - x, p);
  }

  /** The product of a non-positive and a non-negative number is not
      positive. */
  lemma MulNonPositive(x: int, y: int)
    requires x <= 0 && y >= 0
    ensures x * y <= 0
  {
    assert x * y == -((-x) * y);
  }

  /** Dividing a negative number by a positive one rounds toward minus
      infinity, but by 2 or more at least halves it. */
  lemma FloorDivNegative(a: int, c: int)
    requires a < 0 && c >= 1
    ensures a / c < 0
    ensures c == 1 ==> a / c == a
    ensures c >= 2 ==> 2 * (a / c) > a - 2
  {
    var q, m := a / c, a % c;
    assert a == q * c + m && 0 <= m < c;
    MulAtLeast(if q >= 0 then q else 0, c);
    assert q >= 0 ==> q * c >= 0;
    assert (q + 1) * c == q * c + c;
    if c >= 2 {
      assert (q + 1) * c == 2 * (q + 1) + (q + 1) * (c - 2);
      MulNonPositive(q + 1, c - 2);
    }
  }

  /** The unsigned value of the four low bytes of `x`, most significant first,
      as `ByteBuffer.putInt` writes them. */
  function BE32(x: int): (r: seq<byte>)
    requires IsInt(x)
    ensures |r| == 4
  {
    var u := if x < 0 then x + TWO32 else x;
    [(u / 0x100_0000) as byte, (u / 0x1_0000 % 0x100) as byte,
     (u / 0x100 % 0x100) as byte, (u % 0x100) as byte]
  }

  /** `ByteBuffer.getInt`: four bytes, most significant first, read as a
      two's-complement `int`. */
  function BE32Signed(b: seq<byte>): (r: int)
    requires |b| == 4
    ensures IsInt(r)
  {
    var u := b[0] as int * 0x100_0000 + b[1] as int * 0x1_0000 + b[2] as int * 0x100 + b[3] as int;
    if u > INT_MAX then u - TWO32 else u
  }

  /** Splitting a value below 2^32 into base-256 digits and recombining them
      gives the value back. */
  lemma Base256Digits(u: int)
    requires 0 <= u < TWO32
    ensures u == (u / 0x100_0000) * 0x100_0000 + (u / 0x1_0000 % 0x100) * 0x1_0000
                 + (u / 0x100 % 0x100) * 0x100 + u % 0x100
  {
    var v := u / 0x100;
    var w := v / 0x100;
    assert u == v * 0x100 + u % 0x100;
    assert v == w * 0x100 + v % 0x100;
    assert w == (w / 0x100) * 0x100 + w % 0x100;
    assert u / 0x1_0000 == w;
    assert u / 0x100_0000 == w / 0x100;
  }

  /** Reading back what `putInt` wrote yields the same `int`. */
  lemma BE32RoundTrip(x: int)
    requires IsInt(x)
    ensures BE32Signed(BE32(x)) == x
  {
    var u := if x < 0 then x + TWO32 else x;
    Base256Digits(u);
  }

  /** Writing back what `getInt` read gives the same four bytes. */
  lemma BE32OfSigned(b: seq<byte>)
    requires |b| == 4
    ensures BE32(BE32Signed(b)) == b
  {
    var u := b[0] as int * 0x100_0000 + b[1] as int * 0x1_0000 + b[2] as int * 0x100 + b[3] as int;
    var v := b[0] as int * 0x1_0000 + b[1] as int * 0x100 + b[2] as int;
    var w := b[0] as int * 0x100 + b[1] as int;
    assert u == v * 0x100 + b[3] as int;
    assert v == w * 0x100 + b[2] as int;
    assert u / 0x100 == v && u % 0x100 == b[3] as int;
    assert v / 0x100 == w && v % 0x100 == b[2] as int;
    assert w / 0x100 == b[0] as int && w % 0x100 == b[1] as int;
    assert u / 0x1_0000 == w;
    assert u / 0x100_0000 == b[0] as int;
  }

  /** Distinct `int`s have distinct encodings. */
  lemma BE32Injective(x: int, y: int)
    requires IsInt(x) && IsInt(y) && BE32(x) == BE32(y)
    ensures x == y
  {
    BE32RoundTrip(x);
    BE32RoundTrip(y);
  }

  /** A byte sequence of `n` zero bytes. */
  function Zeros(n: nat): (r: seq<byte>)
    ensures |r| == n && forall i :: 0 <= i < n ==> r[i] == 0
  {
    seq(n, _ => 0)
  }

  /** What a read of `n` bytes from a stream holding `s` leaves in a fresh
      `n`-byte array: the first `n` bytes of `s`, zeros where `s` ran out. */
  function Padded(s: seq<byte>, n: nat): (r: seq<byte>)
    ensures |r| == n
    ensures forall k :: 0 <= k < n ==> r[k] == if k < |s| then s[k] else 0
  {
    if n <= |s| then s[..n] else s + Zeros(n - |s|)
  }

  /** What such a read leaves in the stream. */
  function Rest(s: seq<byte>, n: nat): (r: seq<byte>)
    ensures |r| == if n <= |s| then |s| - n else 0
  {
    if n <= |s| then s[n..] else []
  }
}
