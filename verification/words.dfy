/** Unsigned 32-bit words and bytes as bounded integers, with the bit-level view
    needed for the NAND instruction. */
module Words {

  const WordModulus: int := 0x1_0000_0000
  /** The word with every bit set: C's `~0` converted to `uint32_t`. */
  const MaxWord: int := 0xFFFF_FFFF

  /** A C `uint32_t`. */
  type Word = x: int | 0 <= x < WordModulus

  /** A value `getc` can deliver or `putchar` can emit, other than EOF. */
  type Byte = x: int | 0 <= x < 256

  /** Bit `k` of `x`, counting from the least significant bit. */
  predicate Bit(x: nat, k: nat)
  {
    if k == 0 then x % 2 == 1 else Bit(x / 2, k - 1)
  }

  /** The number whose low `n` bits are set and whose other bits are clear. */
  function Ones(n: nat): nat
  {
    if n == 0 then 0 else 2 * Ones(n - 1) + 1
  }

  lemma OnesOfWordWidth()
    ensures Ones(32) == MaxWord
  {
    assert Ones(8) == 0xFF;
    assert Ones(16) == 0xFFFF;
    assert Ones(24) == 0xFF_FFFF;
  }

  /** Bitwise AND of the low `n` bits of `x` and `y`. */
  function AndBits(x: nat, y: nat, n: nat): (r: nat)
    ensures r <= x && r <= y
  {
    if n == 0 then 0
    else 2 * AndBits(x / 2, y / 2, n - 1) + (if x % 2 == 1 && y % 2 == 1 then 1 else 0)
  }

  /** `~(x & y)` on 32-bit operands: the complement of a word is its distance to `MaxWord`. */
  function NotAnd(x: Word, y: Word): Word
  {
    MaxWord - AndBits(x, y, 32)
  }

  lemma {:induction false} AndBitsBit(x: nat, y: nat, n: nat, k: nat)
    requires k < n
    ensures Bit(AndBits(x, y, n), k) == (Bit(x, k) && Bit(y, k))
  {
    var rest := AndBits(x / 2, y / 2, n - 1);
    var low := if x % 2 == 1 && y % 2 == 1 then 1 else 0;
    assert AndBits(x, y, n) == 2 * rest + low;
    if k > 0 {
      assert (2 * rest + low) / 2 == rest;
      AndBitsBit(x / 2, y / 2, n - 1, k - 1);
    }
  }

  /** Below `n` bits, subtracting from `Ones(n)` flips every bit. */
  lemma {:induction false} ComplementBit(z: nat, n: nat, k: nat)
    requires z <= Ones(n) && k < n
    ensures Bit(Ones(n) - z, k) == !Bit(z, k)
  {
    var q, d := z / 2, z % 2;
    assert Ones(n) - z == 2 * (Ones(n - 1) - q) + (1 - d);
    if k > 0 {
      assert (Ones(n) - z) / 2 == Ones(n - 1) - q;
      ComplementBit(q, n - 1, k - 1);
    }
  }

  /** Below `n` bits, AND with itself gives the value back. */
  lemma {:induction false} AndBitsSelf(x: nat, n: nat)
    requires x <= Ones(n)
    ensures AndBits(x, x, n) == x
  {
    if n > 0 {
      AndBitsSelf(x / 2, n - 1);
    }
  }

  /** Each of the 32 bits of `NotAnd(x, y)` is the NAND of the matching bits of `x` and `y`. */
  lemma NotAndIsBitwise(x: Word, y: Word, k: nat)
    requires k < 32
    ensures Bit(NotAnd(x, y), k) == !(Bit(x, k) && Bit(y, k))
  {
    OnesOfWordWidth();
    AndBitsBit(x, y, 32, k);
    ComplementBit(AndBits(x, y, 32), 32, k);
  }

  /** NAND of a word with itself is its complement, the idiom UM programs use for NOT. */
  lemma NotAndSelf(x: Word)
    ensures NotAnd(x, x) == MaxWord - x
  {
    OnesOfWordWidth();
    AndBitsSelf(x, 32);
  }

  /** The two NAND facts quoted for the instruction: all ones gives zero, zero gives all ones. */
  lemma NotAndExtremes()
    ensures NotAnd(MaxWord, MaxWord) == 0
    ensures NotAnd(0, 0) == MaxWord
  {
    NotAndSelf(MaxWord);
  }
}
