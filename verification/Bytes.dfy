/** Fixed-width integers and bitwise AND/OR, defined bit by bit on natural numbers. */
module Bytes {

  /** C's uint8_t and uint16_t. */
  type byte = x: int | 0 <= x < 0x100
  type word = x: int | 0 <= x < 0x1_0000

  /** A value stored in a uint8_t. */
  function Wrap8(x: nat): (r: byte)
    ensures x < 0x100 ==> r == x
    ensures 0x100 <= x < 0x200 ==> r == x - 0x100
  {
    x % 0x100
  }

  datatype Option<+T> = None | Some(value: T)

  predicate Bit(x: nat, i: nat) {
    if i == 0 then x % 2 == 1 else Bit(x / 2, i - 1)
  }

  function And(a: nat, b: nat): (r: nat)
    ensures r <= a && r <= b
    decreases a
  {
    if a == 0 || b == 0 then 0
    else (if a % 2 == 1 && b % 2 == 1 then 1 else 0) + 2 * And(a / 2, b / 2)
  }

  function Or(a: nat, b: nat): (r: nat)
    ensures a <= r && b <= r
    decreases a + b
  {
    if a == 0 then b else if b == 0 then a
    else (if a % 2 == 1 || b % 2 == 1 then 1 else 0) + 2 * Or(a / 2, b / 2)
  }

  lemma ZeroHasNoBits(i: nat)
    ensures !Bit(0, i)
  {
  }

  lemma {:induction false} BitOfAnd(a: nat, b: nat, i: nat)
    ensures Bit(And(a, b), i) <==> Bit(a, i) && Bit(b, i)
    decreases i
  {
    if a == 0 || b == 0 {
      ZeroHasNoBits(i);
    } else if i > 0 {
      BitOfAnd(a / 2, b / 2, i - 1);
    }
  }

  lemma {:induction false} BitOfOr(a: nat, b: nat, i: nat)
    ensures Bit(Or(a, b), i) <==> Bit(a, i) || Bit(b, i)
    decreases i
  {
    if a == 0 || b == 0 {
      ZeroHasNoBits(i);
    } else if i > 0 {
      BitOfOr(a / 2, b / 2, i - 1);
    }
  }

  lemma {:induction false} OrFits(a: nat, b: nat, n: nat)
    requires a < Pow2(n) && b < Pow2(n)
    ensures Or(a, b) < Pow2(n)
    decreases n
  {
    if a != 0 && b != 0 && n > 0 {
      OrFits(a / 2, b / 2, n - 1);
    }
  }

  /** `|=` on 16-bit operands. */
  function OrWord(a: word, b: word): (r: word)
    ensures r == Or(a, b)
  {
    assert Or(a, b) < 0x1_0000 by {
      OrFits(a, b, 16);
      assert Pow2(16) == 0x1_0000 by { assert Pow2(12) == 0x1000 by { assert Pow2(8) == 0x100 by { assert Pow2(4) == 16; } } }
    }
    Or(a, b)
  }

  function Pow2(n: nat): (r: nat)
    ensures r >= 1
  {
    if n == 0 then 1 else 2 * Pow2(n - 1)
  }

  /** The little-endian 16-bit value of two bytes. */
  function Le16(lo: byte, hi: byte): word { lo as int + 0x100 * hi as int }

  /** A C `short` read from an unsigned 16-bit pattern. */
  function Signed16(w: word): int { if w >= 0x8000 then w - 0x1_0000 else w }

  /** memcpy between distinct buffers. */
  method CopyBytes(src: array<byte>, from: nat, dst: array<byte>, to: nat, n: nat)
    requires from + n <= src.Length && to + n <= dst.Length && src != dst
    modifies dst
    ensures forall k :: to <= k < to + n ==> dst[k] == src[k - to + from]
    ensures forall k :: 0 <= k < to || to + n <= k < dst.Length ==> dst[k] == old(dst[k])
  {
    forall k | 0 <= k < n { dst[to + k] := src[from + k]; }
  }
}
