/** The table-driven CRC-32 of evals/rpc.eval.ts, proved against the bit-serial register.

    `CrcTable` and `Crc32` are the two loops of the source.  `BitSerial` is the register that
    takes one message bit at a time (section 3.4 of RFC 2083); CrcPolynomial.dfy says what
    that register means. */
module Checksum {
  import opened Words

  /** The generator without its x^32 coefficient; the lowest bit is the coefficient of x^31. */
  const REFLECTED_GENERATOR: word := 0xedb88320
  const ALL_ONES: word := 0xffffffff

  // ---------------------------------------------------------------------------
  // The register, one bit at a time
  // ---------------------------------------------------------------------------

  function BitWord(b: bool): nat { if b then 1 else 0 }

  /** What leaves the register when its lowest bit is `b`: the generator or nothing. */
  function Feedback(b: bool): nat { if b then REFLECTED_GENERATOR else 0 }

  function Step(w: nat): nat { Xor(Feedback(Odd(w)), w / 2) }

  ghost function Steps(w: nat, n: nat): nat
    decreases n
  {
    if n == 0 then w else Steps(Step(w), n - 1)
  }

  /** Shift message bits into the register, the first bit first. */
  ghost function Feed(reg: nat, bits: seq<bool>): nat
    decreases bits
  {
    if bits == [] then reg else Feed(Step(Xor(reg, BitWord(bits[0]))), bits[1..])
  }

  /** The lowest `n` bits of a word, lowest first. */
  ghost function LowBits(w: nat, n: nat): (bits: seq<bool>)
    ensures |bits| == n
    decreases n
  {
    if n == 0 then [] else [Odd(w)] + LowBits(w / 2, n - 1)
  }

  /** The bits of a message in the order they enter the register. */
  ghost function Bits(data: seq<byte>): (bits: seq<bool>)
    ensures |bits| == 8 * |data|
  {
    if data == [] then [] else LowBits(data[0] as nat, 8) + Bits(data[1..])
  }

  /** The CRC by its bit-serial definition: register preset to ones, result complemented. */
  ghost function BitSerial(data: seq<byte>): nat {
    Xor(Feed(ALL_ONES, Bits(data)), ALL_ONES)
  }

  // ---------------------------------------------------------------------------
  // Linearity, and eight steps at once
  // ---------------------------------------------------------------------------

  lemma FeedbackXor(a: bool, b: bool)
    ensures Xor(Feedback(a), Feedback(b)) == Feedback(a != b)
  {
    XorSelf(REFLECTED_GENERATOR);
  }

  lemma StepXor(a: nat, b: nat)
    ensures Step(Xor(a, b)) == Xor(Step(a), Step(b))
  {
    XorUnfold(a, b);
    FeedbackXor(Odd(a), Odd(b));
    XorSwap(Feedback(Odd(a)), a / 2, Feedback(Odd(b)), b / 2);
  }

  lemma {:induction false} StepsXor(a: nat, b: nat, n: nat)
    ensures Steps(Xor(a, b), n) == Xor(Steps(a, n), Steps(b, n))
    decreases n
  {
    if n > 0 {
      StepXor(a, b);
      StepsXor(Step(a), Step(b), n - 1);
    }
  }

  lemma {:induction false} StepsLast(w: nat, n: nat)
    ensures Steps(w, n + 1) == Step(Steps(w, n))
    decreases n
  {
    if n > 0 {
      StepsLast(Step(w), n - 1);
    }
  }

  /** `n` steps depend on the lowest `n` bits alone; the rest of the word is only shifted. */
  lemma {:induction false} StepsLow(w: nat, n: nat)
    ensures Steps(w, n) == Xor(Steps(Low(w, n), n), Drop(w, n))
    decreases n
  {
    if n > 0 {
      hide Xor;
      var f, h, low := Feedback(Odd(w)), w / 2, Low(w / 2, n - 1);
      assert Low(w, n) / 2 == low && Odd(Low(w, n)) == Odd(w);
      StepsXor(f, h, n - 1);
      StepsLow(h, n - 1);
      StepsXor(f, low, n - 1);
      XorAssoc(Steps(f, n - 1), Steps(low, n - 1), Drop(h, n - 1));
    }
  }

  /** Feeding the bits of a word one by one is stepping the register with the word added in. */
  lemma {:induction false} FeedWord(reg: nat, w: nat, n: nat)
    requires Drop(w, n) == 0
    ensures Feed(reg, LowBits(w, n)) == Steps(Xor(reg, w), n)
    decreases n
  {
    if n == 0 {
      XorComm(reg, 0);
    } else {
      var bit := BitWord(Odd(w));
      XorUnfold(reg, w);
      XorUnfold(reg, bit);
      XorComm(reg / 2, 0);
      var next := Step(Xor(reg, bit));
      XorAssoc(Feedback(Odd(Xor(reg, w))), reg / 2, w / 2);
      assert Step(Xor(reg, w)) == Xor(next, w / 2);
      FeedWord(next, w / 2, n - 1);
      assert LowBits(w, n)[1..] == LowBits(w / 2, n - 1);
    }
  }

  lemma {:induction false} FeedConcat(reg: nat, first: seq<bool>, second: seq<bool>)
    ensures Feed(reg, first + second) == Feed(Feed(reg, first), second)
    decreases first
  {
    if first == [] {
      assert first + second == second;
    } else {
      assert (first + second)[1..] == first[1..] + second;
      FeedConcat(Step(Xor(reg, BitWord(first[0]))), first[1..], second);
    }
  }

  /** One table lookup does the work of eight bit-steps: the law the table exists for. */
  lemma ByteStep(reg: nat, b: byte)
    ensures Feed(reg, LowBits(b as nat, 8)) == Xor(Steps(Xor(reg, b as nat) % 256, 8), reg / 256)
  {
    var n := b as nat;
    LowByte(n);
    FeedWord(reg, n, 8);
    StepsLow(Xor(reg, n), 8);
    LowByte(Xor(reg, n));
    DropXor(reg, n, 8);
    LowByte(reg);
    XorComm(reg / 256, 0);
  }

  // ---------------------------------------------------------------------------
  // The loops of the source
  // ---------------------------------------------------------------------------

  ghost predicate IsCrcTable(table: seq<word>) {
    |table| == 256 && forall n: nat | n < 256 :: table[n] == Steps(n, 8)
  }

  /** The body of the inner table loop is one bit-step. */
  lemma TableBit(n: nat, k: nat, c: word)
    requires c == Steps(n, k)
    ensures (if c % 2 == 1 then Xor(REFLECTED_GENERATOR, c / 2) else c / 2) == Steps(n, k + 1)
    ensures Steps(n, k + 1) < WORD_LIMIT
  {
    StepsLast(n, k);
    XorIsWord(Feedback(Odd(c)), c / 2);
  }

  /** The body of the message loop is eight bit-steps. */
  lemma TableByte(table: seq<word>, crc: word, b: byte, rest: seq<bool>)
    requires IsCrcTable(table)
    ensures Xor(table[Xor(crc, b as nat) % 256], crc / 256) < WORD_LIMIT
    ensures Feed(crc, LowBits(b as nat, 8) + rest)
         == Feed(Xor(table[Xor(crc, b as nat) % 256], crc / 256), rest)
  {
    var index := Xor(crc, b as nat) % 256;
    assert table[index] == Steps(index, 8);
    XorIsWord(table[index], crc / 256);
    ByteStep(crc, b);
    FeedConcat(crc, LowBits(b as nat, 8), rest);
  }

  lemma StepsNone(w: nat)
    ensures Steps(w, 0) == w
  {}

  ghost predicate Filled(table: seq<word>, n: nat) {
    n <= |table| && forall m: nat | m < n :: table[m] == Steps(m, 8)
  }

  method CrcTable() returns (table: array<word>)
    ensures fresh(table)
    ensures IsCrcTable(table[..])
  {
    table := new word[256];
    for n := 0 to 256
      invariant Filled(table[..], n)
    {
      hide *;
      var c: word := n;
      StepsNone(n);
      ghost var before := table[..];
      for k := 0 to 8
        invariant c == Steps(n, k)
        invariant table[..] == before
      {
        TableBit(n, k, c);
        c := if c % 2 == 1 then Xor(REFLECTED_GENERATOR, c / 2) else c / 2;
      }
      table[n] := c;
      FilledNext(before, n, c);
      assert table[..] == before[n := c];
    }
  }

  lemma FilledNext(table: seq<word>, n: nat, c: word)
    requires n < |table| && Filled(table, n) && c == Steps(n, 8)
    ensures Filled(table[n := c], n + 1)
  {}

  /** The source's loop over the bytes.  Fast form and bit-serial form agree on every message. */
  method Crc32(table: array<word>, buf: seq<byte>) returns (r: word)
    requires IsCrcTable(table[..])
    ensures r == BitSerial(buf)
  {
    var crc: word := ALL_ONES;
    for i := 0 to |buf|
      invariant Feed(ALL_ONES, Bits(buf)) == Feed(crc, Bits(buf[i..]))
    {
      TableByte(table[..], crc, buf[i], Bits(buf[i..][1..]));
      assert buf[i..][1..] == buf[i + 1..];
      crc := Xor(table[Xor(crc, buf[i] as nat) % 256], crc / 256);
    }
    XorIsWord(crc, ALL_ONES);
    r := Xor(crc, ALL_ONES);
  }
}
