/** Unsigned words and the bitwise operators the CRC code applies to them.

    A JavaScript bitwise operator works on 32-bit patterns; a pattern is modelled by its
    unsigned value, so `>>> 1` is division by two and `& 0xff` the remainder modulo 256. */
module Words {

  newtype byte = x: int | 0 <= x < 256

  const WORD_LIMIT: nat := 0x1_0000_0000
  type word = w: nat | w < WORD_LIMIT

  predicate Odd(w: nat) { w % 2 == 1 }

  /** The operator `^`. */
  function Xor(a: nat, b: nat): nat
    decreases a + b
  {
    if a == 0 then b
    else if b == 0 then a
    else 2 * Xor(a / 2, b / 2) + (if Odd(a) != Odd(b) then 1 else 0)
  }

  lemma {:induction false} XorUnfold(a: nat, b: nat)
    ensures Xor(a, b) / 2 == Xor(a / 2, b / 2)
    ensures Odd(Xor(a, b)) == (Odd(a) != Odd(b))
  {}

  lemma {:induction false} XorComm(a: nat, b: nat)
    ensures Xor(a, b) == Xor(b, a)
    decreases a + b
  {
    if a != 0 && b != 0 {
      XorComm(a / 2, b / 2);
    }
  }

  lemma {:induction false} XorSelf(a: nat)
    ensures Xor(a, a) == 0
  {
    if a != 0 {
      XorSelf(a / 2);
    }
  }

  lemma {:induction false} XorAssoc(a: nat, b: nat, c: nat)
    ensures Xor(Xor(a, b), c) == Xor(a, Xor(b, c))
    decreases a + b + c
  {
    if a != 0 && b != 0 && c != 0 {
      XorAssoc(a / 2, b / 2, c / 2);
      XorUnfold(a, b);
      XorUnfold(b, c);
      XorUnfold(Xor(a, b), c);
      XorUnfold(a, Xor(b, c));
    }
  }

  lemma XorSwap(a: nat, b: nat, c: nat, d: nat)
    ensures Xor(Xor(a, b), Xor(c, d)) == Xor(Xor(a, c), Xor(b, d))
  {
    XorAssoc(a, b, Xor(c, d));
    XorAssoc(b, c, d);
    XorComm(b, c);
    XorAssoc(c, b, d);
    XorAssoc(a, c, Xor(b, d));
  }

  /** `w` without its lowest `n` bits. */
  function Drop(w: nat, n: nat): nat
    decreases n
  {
    if n == 0 then w else Drop(w / 2, n - 1)
  }

  /** The lowest `n` bits of `w`, as a number. */
  function Low(w: nat, n: nat): nat
    decreases n
  {
    if n == 0 then 0 else w % 2 + 2 * Low(w / 2, n - 1)
  }

  lemma {:induction false} DropDrop(w: nat, m: nat, n: nat)
    ensures Drop(w, m + n) == Drop(Drop(w, m), n)
    decreases m
  {
    if m > 0 {
      DropDrop(w / 2, m - 1, n);
    }
  }

  lemma LowPair(w: nat, n: nat)
    ensures Low(w, n + 2) == w % 4 + 4 * Low(w / 4, n)
    ensures Drop(w, n + 2) == Drop(w / 4, n)
  {
    assert w / 2 / 2 == w / 4;
    assert Low(w / 2, n + 1) == w / 2 % 2 + 2 * Low(w / 4, n);
  }

  lemma LowNibble(w: nat, n: nat)
    ensures Low(w, n + 4) == w % 16 + 16 * Low(w / 16, n)
    ensures Drop(w, n + 4) == Drop(w / 16, n)
  {
    LowPair(w, n + 2);
    LowPair(w / 4, n);
    NibbleFromPairs(w);
    hide *;
  }

  lemma NibbleFromPairs(w: nat)
    ensures w % 4 + 4 * (w / 4 % 4) == w % 16
    ensures w / 4 / 4 == w / 16
  {
    var k := w / 4 / 4;
    assert w == 16 * k + (4 * (w / 4 % 4) + w % 4);
  }

  lemma LowByte(w: nat)
    ensures Low(w, 8) == w % 256
    ensures Drop(w, 8) == w / 256
  {
    var h := w / 16;
    LowNone(h / 16);
    hide *;
    LowNibble(w, 4);
    LowNibble(h, 0);
    assert Low(h, 4) == h % 16 && Drop(h, 4) == h / 16;
    ByteFromNibbles(w, h);
  }

  lemma LowNone(w: nat)
    ensures Low(w, 0) == 0
    ensures Drop(w, 0) == w
  {}

  lemma ByteFromNibbles(w: nat, h: nat)
    requires h == w / 16
    ensures w % 16 + 16 * (h % 16) == w % 256
    ensures h / 16 == w / 256
  {
    var k := h / 16;
    assert w == 256 * k + (16 * (h % 16) + w % 16);
  }

  lemma WordIsNarrow(w: word)
    ensures Drop(w, 32) == 0
  {
    LowByte(w);
    LowByte(w / 256);
    LowByte(w / 256 / 256);
    LowByte(w / 256 / 256 / 256);
    hide *;
    DropDrop(w, 8, 24);
    DropDrop(w / 256, 8, 16);
    DropDrop(w / 256 / 256, 8, 8);
  }

  lemma {:induction false} DropXor(a: nat, b: nat, n: nat)
    ensures Drop(Xor(a, b), n) == Xor(Drop(a, n), Drop(b, n))
    decreases n
  {
    if n > 0 {
      XorUnfold(a, b);
      DropXor(a / 2, b / 2, n - 1);
    }
  }

  function Pow2(n: nat): (p: nat)
    ensures p > 0
  {
    if n == 0 then 1 else 2 * Pow2(n - 1)
  }

  lemma {:induction false} DropIsDivision(w: nat, n: nat)
    ensures Drop(w, n) == 0 <==> w < Pow2(n)
    decreases n
  {
    if n > 0 {
      DropIsDivision(w / 2, n - 1);
    }
  }

  lemma Pow2Values()
    ensures Pow2(32) == WORD_LIMIT
  {
    assert Pow2(8) == 256;
    assert Pow2(16) == 65536;
    assert Pow2(24) == 0x100_0000;
  }

  lemma XorIsWord(a: word, b: word)
    ensures Xor(a, b) < WORD_LIMIT
  {
    Pow2Values();
    DropXor(a, b, 32);
    DropIsDivision(a, 32);
    DropIsDivision(b, 32);
    DropIsDivision(Xor(a, b), 32);
  }
}
