/** Java's bitwise operators on `byte` values, on their unsigned value: bit
    `k` of a byte has weight `2^k`, and `&`, `~` and `|` act bit by bit. The
    operators are defined arithmetically, and the lemmas below give each one
    its bit-by-bit meaning. */
module Bits {
  import opened Common

  /** `1 << k` for the bit positions of a byte. */
  function Pow2(k: nat): int
    requires k < 8
  {
    match k
    case 0 => 1 case 1 => 2 case 2 => 4 case 3 => 8
    case 4 => 0x10 case 5 => 0x20 case 6 => 0x40 case _ => 0x80
  }

  /** `2^n` for `n <= 8`. */
  function Pow(n: nat): (r: nat)
    requires n <= 8
    ensures r >= 1
  {
    if n == 0 then 1 else 2 * Pow(n - 1)
  }

  /** Bit `k` of the number `v`. */
  predicate NatBit(v: nat, k: nat) {
    if k == 0 then v % 2 == 1 else NatBit(v / 2, k - 1)
  }

  /** Bit `k` of byte `b` is set. */
  predicate HasBit(b: byte, k: nat)
    requires k < 8
  {
    NatBit(b as nat, k)
  }

  /** `x & y`. */
  function And(x: byte, y: byte): (r: byte)
    ensures r <= x && r <= y
    decreases x
  {
    if x == 0 then 0
    else (2 * And(x / 2, y / 2) as int + (if x % 2 == 1 && y % 2 == 1 then 1 else 0)) as byte
  }

  /** `~x`, cut to the byte (`(byte) ~x`). */
  function Not(x: byte): byte {
    (0xff - x as int) as byte
  }

  /** `x | y`, cut to the byte; written through De Morgan's law. */
  function Or(x: byte, y: byte): byte {
    Not(And(Not(x), Not(y)))
  }

  lemma {:induction false} NatBitAnd(x: byte, y: byte, k: nat)
    ensures NatBit(And(x, y) as nat, k) <==> NatBit(x as nat, k) && NatBit(y as nat, k)
    decreases k
  {
    var a := And(x, y) as nat;
    if x == 0 {
      NatBitZero(k);
    } else {
      var h := And(x / 2, y / 2) as nat;
      assert a == 2 * h + (if x % 2 == 1 && y % 2 == 1 then 1 else 0);
      assert a % 2 == (if x % 2 == 1 && y % 2 == 1 then 1 else 0);
      assert a / 2 == h;
      if k > 0 {
        NatBitAnd(x / 2, y / 2, k - 1);
        assert (x / 2) as nat == x as nat / 2 && (y / 2) as nat == y as nat / 2;
      }
    }
  }

  lemma {:induction false} NatBitZero(k: nat)
    ensures !NatBit(0, k)
  {
    if k > 0 {
      NatBitZero(k - 1);
    }
  }

  /** Complementing a value below `2^n` flips each of its `n` low bits. */
  lemma {:induction false} NatBitComplement(x: nat, n: nat, k: nat)
    requires n <= 8 && x < Pow(n) && k < n
    ensures NatBit(Pow(n) - 1 - x, k) <==> !NatBit(x, k)
    decreases k
  {
    var c := Pow(n) - 1 - x;
    assert Pow(n) == 2 * Pow(n - 1);
    assert c % 2 == 1 - x % 2;
    if k > 0 {
      assert c / 2 == Pow(n - 1) - 1 - x / 2;
      NatBitComplement(x / 2, n - 1, k - 1);
    }
  }

  /** `&` keeps the bits set in both operands. */
  lemma HasBitAnd(x: byte, y: byte, k: nat)
    requires k < 8
    ensures HasBit(And(x, y), k) <==> HasBit(x, k) && HasBit(y, k)
  {
    NatBitAnd(x, y, k);
  }

  /** `~` flips every bit of the byte. */
  lemma HasBitNot(x: byte, k: nat)
    requires k < 8
    ensures HasBit(Not(x), k) <==> !HasBit(x, k)
  {
    assert Pow(8) == 0x100;
    NatBitComplement(x as nat, 8, k);
  }

  /** `|` keeps the bits set in either operand. */
  lemma HasBitOr(x: byte, y: byte, k: nat)
    requires k < 8
    ensures HasBit(Or(x, y), k) <==> HasBit(x, k) || HasBit(y, k)
  {
    HasBitNot(x, k);
    HasBitNot(y, k);
    HasBitAnd(Not(x), Not(y), k);
    HasBitNot(And(Not(x), Not(y)), k);
  }

  /** `1 << k` has exactly bit `k` set. */
  lemma {:induction false} HasBitPow2(k: nat, i: nat)
    requires k < 8 && i < 8
    ensures HasBit(Pow2(k) as byte, i) <==> i == k
    decreases k
  {
    if k == 0 {
      if i > 0 {
        NatBitZero(i - 1);
      }
    } else if i > 0 {
      HasBitPow2(k - 1, i - 1);
      assert (Pow2(k) as byte) as nat / 2 == Pow2(k - 1);
    }
  }

  /** A value below `2^n` with none of its `n` low bits set is zero. */
  lemma {:induction false} NatBitsZero(v: nat, n: nat)
    requires n <= 8 && v < Pow(n)
    requires forall k :: 0 <= k < n ==> !NatBit(v, k)
    ensures v == 0
    decreases n
  {
    if n > 0 {
      assert !NatBit(v, 0);
      forall k | 0 <= k < n - 1
        ensures !NatBit(v / 2, k)
      {
        assert !NatBit(v, k + 1);
      }
      NatBitsZero(v / 2, n - 1);
    }
  }

  /** A byte is non-zero exactly when one of its eight bits is set. */
  lemma NonZeroHasBit(b: byte)
    ensures b != 0 <==> exists k :: 0 <= k < 8 && HasBit(b, k)
  {
    if b == 0 {
      forall k | 0 <= k < 8
        ensures !HasBit(b, k)
      {
        NatBitZero(k);
      }
    } else if forall k :: 0 <= k < 8 ==> !HasBit(b, k) {
      assert Pow(8) == 0x100;
      var v: nat := b as nat;
      forall k | 0 <= k < 8
        ensures !NatBit(v, k)
      {
        assert !HasBit(b, k);
      }
      NatBitsZero(v, 8);
    }
  }

  /** Bytes with the same eight bits are equal. */
  lemma {:induction false} NatBitsEqual(x: nat, y: nat, n: nat)
    requires n <= 8 && x < Pow(n) && y < Pow(n)
    requires forall k :: 0 <= k < n ==> (NatBit(x, k) <==> NatBit(y, k))
    ensures x == y
    decreases n
  {
    if n > 0 {
      assert NatBit(x, 0) <==> NatBit(y, 0);
      forall k | 0 <= k < n - 1
        ensures NatBit(x / 2, k) <==> NatBit(y / 2, k)
      {
        assert NatBit(x, k + 1) <==> NatBit(y, k + 1);
      }
      NatBitsEqual(x / 2, y / 2, n - 1);
    }
  }

  lemma BytesEqual(x: byte, y: byte)
    requires forall k :: 0 <= k < 8 ==> (HasBit(x, k) <==> HasBit(y, k))
    ensures x == y
  {
    assert Pow(8) == 0x100;
    var u: nat, v: nat := x as nat, y as nat;
    forall k | 0 <= k < 8
      ensures NatBit(u, k) <==> NatBit(v, k)
    {
      assert HasBit(x, k) <==> HasBit(y, k);
    }
    NatBitsEqual(u, v, 8);
  }

  /** The source's single-bit test `(b & (1 << k)) != 0` reads bit `k`. */
  lemma MaskTest(b: byte, k: nat)
    requires k < 8
    ensures And(b, Pow2(k) as byte) != 0 <==> HasBit(b, k)
  {
    var a := And(b, Pow2(k) as byte);
    forall i | 0 <= i < 8
      ensures HasBit(a, i) <==> i == k && HasBit(b, k)
    {
      HasBitAnd(b, Pow2(k) as byte, i);
      HasBitPow2(k, i);
    }
    NonZeroHasBit(a);
    if HasBit(b, k) {
      assert HasBit(a, k);
    }
  }
}
