/** What the CRC register means: the remainder of a polynomial division over GF(2).

    A polynomial is the sequence of its coefficients, highest power first.  From the division
    follow the exact set of corruptions the CRC misses (the multiples of the generator) and
    the detection of every burst of up to 32 bits. */
module CrcPolynomial {
  import opened Words
  import opened Checksum

  type poly = seq<bool>

  function Zeros(n: nat): poly { seq(n, i => false) }
  function Ones(n: nat): poly { seq(n, i => true) }

  function Add(p: poly, q: poly): (r: poly)
    requires |p| == |q|
    ensures |r| == |p|
  {
    seq(|p|, i requires 0 <= i < |p| => p[i] != q[i])
  }

  predicate IsZero(p: poly) { forall i | 0 <= i < |p| :: !p[i] }

  /** The powers of x in the generator, as section 3.4 of RFC 2083 lists them. */
  const GENERATOR_POWERS: set<int> := {32, 26, 23, 22, 16, 12, 11, 10, 8, 7, 5, 4, 2, 1, 0}

  function Generator(): (g: poly)
    ensures |g| == 33 && g[0] && g[32]
  {
    seq(33, i => 32 - i in GENERATOR_POWERS)
  }

  /** The product of `q` and the generator. */
  function Multiply(q: poly): (r: poly)
    ensures |r| == |q| + 32
  {
    if q == [] then Zeros(32) else Add(Scaled(q[0], |q| - 1), [false] + Multiply(q[1..]))
  }

  /** `b` times the generator, times x^n. */
  function Scaled(b: bool, n: nat): (r: poly)
    ensures |r| == 33 + n
  {
    (if b then Generator() else Zeros(33)) + Zeros(n)
  }

  // ---------------------------------------------------------------------------
  // The constant in the source is the generator of the standard
  // ---------------------------------------------------------------------------

  lemma Nibble(w: nat, high: nat, b0: bool, b1: bool, b2: bool, b3: bool, n: nat)
    requires w == 16 * high + 8 * BitWord(b3) + 4 * BitWord(b2) + 2 * BitWord(b1) + BitWord(b0)
    ensures LowBits(w, n + 4) == [b0, b1, b2, b3] + LowBits(high, n)
  {
    var h3 := 2 * high + BitWord(b3);
    var h2 := 2 * h3 + BitWord(b2);
    var h1 := 2 * h2 + BitWord(b1);
    hide *;
    assert w == 2 * h1 + BitWord(b0);
    NextBit(high, b3, n);
    NextBit(h3, b2, n + 1);
    NextBit(h2, b1, n + 2);
    NextBit(h1, b0, n + 3);
  }

  lemma NextBit(high: nat, b: bool, n: nat)
    ensures LowBits(2 * high + BitWord(b), n + 1) == [b] + LowBits(high, n)
  {}

  /** The powers, read off as coefficients. */
  lemma GeneratorBits()
    ensures var g := Generator();
      && !g[1] && !g[2] && !g[3] && !g[4] && !g[5] && g[6] && !g[7] && !g[8]
      && g[9] && g[10] && !g[11] && !g[12] && !g[13] && !g[14] && !g[15] && g[16]
      && !g[17] && !g[18] && !g[19] && g[20] && g[21] && g[22] && !g[23] && g[24]
      && g[25] && !g[26] && g[27] && g[28] && !g[29] && g[30] && g[31] && g[32]
  {}

  lemma GeneratorTail()
    ensures Generator()[1..] == LowBits(REFLECTED_GENERATOR, 32)
  {
    var g := Generator();
    GeneratorBits();
    hide Generator;
    NibblesOfConstant(g);
  }

  lemma NibblesOfConstant(g: poly)
    requires |g| == 33
    requires g[1..5] == [false, false, false, false] && g[5..9] == [false, true, false, false]
    requires g[9..13] == [true, true, false, false] && g[13..17] == [false, false, false, true]
    requires g[17..21] == [false, false, false, true] && g[21..25] == [true, true, false, true]
    requires g[25..29] == [true, false, true, true] && g[29..33] == [false, true, true, true]
    ensures g[1..] == LowBits(REFLECTED_GENERATOR, 32)
  {
    hide LowBits;
    var f, t := false, true;
    Nibble(0xedb88320, 0xedb8832, f, f, f, f, 28);
    Nibble(0xedb8832, 0xedb883, f, t, f, f, 24);
    Nibble(0xedb883, 0xedb88, t, t, f, f, 20);
    Nibble(0xedb88, 0xedb8, f, f, f, t, 16);
    Nibble(0xedb8, 0xedb, f, f, f, t, 12);
    Nibble(0xedb, 0xed, t, t, f, t, 8);
    Nibble(0xed, 0xe, t, f, t, t, 4);
    Nibble(0xe, 0, f, t, t, t, 0);
    LowBitsZero(0);
    assert g[1..] == g[1..5] + (g[5..9] + (g[9..13] + (g[13..17]
                   + (g[17..21] + (g[21..25] + (g[25..29] + (g[29..33] + [])))))));
  }

  lemma {:induction false} LowBitsSplit(w: nat, m: nat, n: nat)
    ensures LowBits(w, m + n) == LowBits(w, m) + LowBits(Drop(w, m), n)
    decreases m
  {
    if m > 0 {
      LowBitsSplit(w / 2, m - 1, n);
    }
  }

  /** The bits of a byte from the lowest up. */
  function ByteBits(n: nat): (bits: poly)
    ensures |bits| == 8
  {
    [n % 2 == 1, n / 2 % 2 == 1, n / 4 % 2 == 1, n / 8 % 2 == 1,
     n / 16 % 2 == 1, n / 32 % 2 == 1, n / 64 % 2 == 1, n / 128 % 2 == 1]
  }

  lemma LowBitsNext(w: nat, n: nat)
    ensures LowBits(w, n + 1) == [w % 2 == 1] + LowBits(w / 2, n)
  {}

  lemma NibbleOf(w: nat, n: nat)
    ensures LowBits(w, n + 4)
         == [w % 2 == 1, w / 2 % 2 == 1, w / 4 % 2 == 1, w / 8 % 2 == 1] + LowBits(w / 16, n)
  {
    hide LowBits;
    LowBitsNext(w, n + 3);
    LowBitsNext(w / 2, n + 2);
    LowBitsNext(w / 4, n + 1);
    LowBitsNext(w / 8, n);
    Halves(w);
  }

  lemma Halves(w: nat)
    ensures w / 2 / 2 == w / 4 && w / 4 / 2 == w / 8 && w / 8 / 2 == w / 16
  {}

  lemma LowBitsOfByte(n: nat)
    ensures LowBits(n, 8) == ByteBits(n)
  {
    hide *;
    NibbleOf(n, 4);
    NibbleOf(n / 16, 0);
    NoLowBits(n / 16 / 16);
    Halves(n / 16);
    Sixteenths(n);
    ByteBitsAre(n);
  }

  lemma ByteBitsAre(n: nat)
    ensures ByteBits(n) == [n % 2 == 1, n / 2 % 2 == 1, n / 4 % 2 == 1, n / 8 % 2 == 1]
                         + ([n / 16 % 2 == 1, n / 32 % 2 == 1, n / 64 % 2 == 1, n / 128 % 2 == 1] + [])
  {}

  lemma NoLowBits(w: nat)
    ensures LowBits(w, 0) == []
  {}

  lemma Sixteenths(n: nat)
    ensures n / 16 / 2 == n / 32 && n / 16 / 4 == n / 64 && n / 16 / 8 == n / 128
  {}

  lemma SliceBehind<T>(a: seq<T>, b: seq<T>, k: nat, n: nat)
    requires k + n <= |b|
    ensures (a + b)[|a| + k..|a| + k + n] == b[k..k + n]
  {}

  lemma BitsNext(data: seq<byte>)
    requires data != []
    ensures Bits(data) == ByteBits(data[0] as nat) + Bits(data[1..])
  {
    LowBitsOfByte(data[0] as nat);
    hide LowBits, ByteBits;
  }

  /** The order of the message: byte by byte, and each byte from its lowest bit up. */
  lemma {:induction false} BitsExact(data: seq<byte>, i: nat)
    requires i < |data|
    ensures Bits(data)[8 * i..8 * i + 8] == ByteBits(data[i] as nat)
  {
    hide Bits, ByteBits;
    BitsNext(data);
    if i > 0 {
      BitsExact(data[1..], i - 1);
      SliceBehind(ByteBits(data[0] as nat), Bits(data[1..]), 8 * (i - 1), 8);
    }
  }

  lemma {:induction false} LowBitsXor(a: nat, b: nat, n: nat)
    ensures LowBits(Xor(a, b), n) == Add(LowBits(a, n), LowBits(b, n))
    decreases n
  {
    if n > 0 {
      XorUnfold(a, b);
      LowBitsXor(a / 2, b / 2, n - 1);
    }
  }

  lemma {:induction false} LowBitsZero(n: nat)
    ensures LowBits(0, n) == Zeros(n)
  {
    if n > 0 {
      LowBitsZero(n - 1);
    }
  }

  lemma HalfWordBits(w: word)
    ensures LowBits(w / 2, 32) == LowBits(w, 32)[1..] + [false]
  {
    WordIsNarrow(w);
    assert Drop(w / 2, 31) == 0;
    LowBitsSplit(w / 2, 31, 1);
    NextBit(0, false, 0);
  }

  lemma ScaledBits(b: bool, n: nat)
    ensures Scaled(b, n) == ([b] + LowBits(Feedback(b), 32)) + Zeros(n)
  {
    GeneratorTail();
    LowBitsZero(32);
    hide LowBits;
  }

  // ---------------------------------------------------------------------------
  // Division: message times x^32 = quotient times generator + register
  // ---------------------------------------------------------------------------

  function Quotient(reg: nat, bits: poly): (q: poly)
    ensures |q| == |bits|
    decreases bits
  {
    if bits == [] then [] else
    var c := Xor(reg, BitWord(bits[0]));
    [Odd(c)] + Quotient(Step(c), bits[1..])
  }

  /** The message times x^32, with the register's bits added to its first 32. */
  ghost function Dividend(reg: nat, bits: poly): (r: poly)
    ensures |r| == |bits| + 32
  {
    Add(bits + Zeros(32), LowBits(reg, 32) + Zeros(|bits|))
  }

  lemma StepBound(w: word)
    ensures Step(w) < WORD_LIMIT
  {
    XorIsWord(Feedback(Odd(w)), w / 2);
  }

  /** The division step on coefficients: `reg` is the register, `f` what the generator adds. */
  lemma StepCoefficients(bits: poly, reg: poly, f: poly, b: bool)
    requires bits != [] && |reg| == |f| == 32 && b == (bits[0] != reg[0])
    ensures Add(bits + Zeros(32), reg + Zeros(|bits|))
         == Add(([b] + f) + Zeros(|bits| - 1),
                [false] + Add(bits[1..] + Zeros(32),
                              Add(f, reg[1..] + [false]) + Zeros(|bits| - 1)))
  {
    var rest, next := bits[1..], Add(f, reg[1..] + [false]);
    forall i | 0 < i < |bits| + 32
      ensures (bits + Zeros(32))[i] == (rest + Zeros(32))[i - 1]
      ensures (reg + Zeros(|bits|))[i]
           == ((([b] + f) + Zeros(|rest|))[i] != (next + Zeros(|rest|))[i - 1])
    {
      if i <= 32 {
        assert next[i - 1] == (f[i - 1] != (reg[1..] + [false])[i - 1]);
      }
    }
  }

  lemma DividendStep(reg: word, bits: poly)
    requires bits != []
    ensures var c := Xor(reg, BitWord(bits[0]));
            Dividend(reg, bits) == Add(Scaled(Odd(c), |bits| - 1),
                                       [false] + Dividend(Step(c), bits[1..]))
  {
    var c := Xor(reg, BitWord(bits[0]));
    XorUnfold(reg, BitWord(bits[0]));
    XorComm(reg / 2, 0);
    HalfWordBits(reg);
    ScaledBits(Odd(c), |bits| - 1);
    LowBitsXor(Feedback(Odd(c)), reg / 2, 32);
    assert LowBits(reg, 32)[0] == Odd(reg);
    hide Xor, Generator, Feedback, LowBits, Scaled, Add;
    StepCoefficients(bits, LowBits(reg, 32), LowBits(Feedback(Odd(c)), 32), Odd(c));
  }

  lemma AddRegroup(s: poly, p: poly, r: poly)
    requires |s| == |p| + 1 == |r| + 1
    ensures Add(s, [false] + Add(p, r)) == Add(Add(s, [false] + p), [false] + r)
  {}

  lemma {:induction false} Division(reg: word, bits: poly)
    ensures Dividend(reg, bits)
         == Add(Multiply(Quotient(reg, bits)), Zeros(|bits|) + LowBits(Feed(reg, bits), 32))
    decreases bits
  {
    if bits == [] {
      DivisionOfNothing(LowBits(reg, 32));
    } else {
      var c := Xor(reg, BitWord(bits[0]));
      var rest := bits[1..];
      XorIsWord(reg, BitWord(bits[0]));
      StepBound(c);
      DividendStep(reg, bits);
      Division(Step(c), rest);
      var q, r := Quotient(Step(c), rest), LowBits(Feed(reg, bits), 32);
      assert Quotient(reg, bits) == [Odd(c)] + q && Feed(reg, bits) == Feed(Step(c), rest);
      hide *;
      MultiplyCons(Odd(c), q);
      AddRegroup(Scaled(Odd(c), |rest|), Multiply(q), Zeros(|rest|) + r);
      ZerosCons(|rest|, r);
    }
  }

  lemma DivisionOfNothing(r: poly)
    requires |r| == 32
    ensures Add([] + Zeros(32), r + Zeros(0)) == Add(Multiply([]), Zeros(0) + r)
  {}

  lemma MultiplyCons(b: bool, q: poly)
    ensures Multiply([b] + q) == Add(Scaled(b, |q|), [false] + Multiply(q))
  {
    hide Generator, Scaled;
    assert ([b] + q)[1..] == q;
  }

  lemma ZerosCons(n: nat, r: poly)
    ensures [false] + (Zeros(n) + r) == Zeros(n + 1) + r
  {}

  // ---------------------------------------------------------------------------
  // Multiples of the generator
  // ---------------------------------------------------------------------------

  lemma {:induction false} MultiplyZero(q: poly)
    requires IsZero(q)
    ensures IsZero(Multiply(q))
  {
    if q != [] {
      MultiplyZero(q[1..]);
    }
  }

  lemma {:induction false} FirstTerm(q: poly, i: nat)
    requires i < |q| && q[i] && forall j | 0 <= j < i :: !q[j]
    ensures Multiply(q)[i]
  {
    if i > 0 {
      FirstTerm(q[1..], i - 1);
      assert !Scaled(q[0], |q| - 1)[i];
    }
  }

  lemma {:induction false} LastTerm(q: poly, i: nat)
    requires i < |q| && q[i] && forall j | i < j < |q| :: !q[j]
    ensures Multiply(q)[i + 32]
  {
    if i > 0 {
      LastTerm(q[1..], i - 1);
    } else {
      MultiplyZero(q[1..]);
    }
  }

  lemma FirstAndLast(q: poly) returns (i: nat, k: nat)
    requires !IsZero(q)
    ensures i <= k < |q| && q[i] && q[k]
    ensures forall j | 0 <= j < i :: !q[j]
    ensures forall j | k < j < |q| :: !q[j]
  {
    i, k := 0, |q| - 1;
    while !q[i]
      invariant i < |q| && forall j | 0 <= j < i :: !q[j]
      decreases |q| - i
    {
      i := i + 1;
    }
    while !q[k]
      invariant i <= k < |q| && forall j | k < j < |q| :: !q[j]
      decreases k
    {
      k := k - 1;
    }
  }

  lemma {:induction false} MultiplyShift(q: poly, n: nat)
    ensures Multiply(q + Zeros(n)) == Multiply(q) + Zeros(n)
  {
    if q == [] {
      assert q + Zeros(n) == Zeros(n);
      MultiplyZero(Zeros(n));
    } else {
      MultiplyShift(q[1..], n);
      assert q == [q[0]] + q[1..];
      assert q + Zeros(n) == [q[0]] + (q[1..] + Zeros(n));
      ShiftCons(q[0], q[1..], n);
    }
  }

  lemma ShiftCons(b: bool, q: poly, n: nat)
    requires Multiply(q + Zeros(n)) == Multiply(q) + Zeros(n)
    ensures Multiply([b] + (q + Zeros(n))) == Multiply([b] + q) + Zeros(n)
  {
    MultiplyCons(b, q);
    MultiplyCons(b, q + Zeros(n));
    ScaledShift(b, |q|, n);
    AddShift(Scaled(b, |q|), Multiply(q), n);
    hide *;
  }

  lemma AddShift(p: poly, q: poly, n: nat)
    requires |p| == |q| + 1
    ensures Add(p + Zeros(n), [false] + (q + Zeros(n))) == Add(p, [false] + q) + Zeros(n)
  {}

  lemma ScaledShift(b: bool, m: nat, n: nat)
    ensures Scaled(b, m + n) == Scaled(b, m) + Zeros(n)
  {
    hide Generator;
  }

  // ---------------------------------------------------------------------------
  // Differences between messages
  // ---------------------------------------------------------------------------

  lemma BitWordXor(a: bool, b: bool)
    ensures Xor(BitWord(a), BitWord(b)) == BitWord(a != b)
  {
    XorSelf(1);
  }

  lemma {:induction false} FeedXor(r: nat, p: poly, s: nat, q: poly)
    requires |p| == |q|
    ensures Xor(Feed(r, p), Feed(s, q)) == Feed(Xor(r, s), Add(p, q))
    decreases p
  {
    if p != [] {
      BitWordXor(p[0], q[0]);
      XorSwap(r, BitWord(p[0]), s, BitWord(q[0]));
      StepXor(Xor(r, BitWord(p[0])), Xor(s, BitWord(q[0])));
      FeedXor(Step(Xor(r, BitWord(p[0]))), p[1..], Step(Xor(s, BitWord(q[0]))), q[1..]);
      assert Add(p, q)[1..] == Add(p[1..], q[1..]);
    }
  }

  lemma {:induction false} FeedZeros(n: nat)
    ensures Feed(0, Zeros(n)) == 0
  {
    if n > 0 {
      FeedZeros(n - 1);
      assert Zeros(n)[1..] == Zeros(n - 1);
    }
  }

  lemma {:induction false} StepsZero(n: nat)
    ensures Steps(0, n) == 0
  {
    if n > 0 {
      StepsZero(n - 1);
    }
  }

  lemma FeedScaled(b: bool, n: nat)
    ensures Feed(0, Scaled(b, n)) == 0
  {
    var f := Feedback(b);
    ScaledBits(b, n);
    FeedFeedback(b);
    hide Generator, Scaled, LowBits, Feedback;
    var bits, tail := LowBits(f, 32), Zeros(n);
    assert ([b] + bits) + tail == [b] + (bits + tail);
    FeedConcat(0, [b], bits + tail);
    FeedConcat(f, bits, tail);
    FeedZeros(n);
  }

  lemma FeedFeedback(b: bool)
    ensures Feed(0, [b]) == Feedback(b)
    ensures Feed(Feedback(b), LowBits(Feedback(b), 32)) == 0
  {
    var f := Feedback(b);
    XorComm(f, 0);
    assert Feed(0, [b]) == f;
    WordIsNarrow(f);
    FeedWord(f, f, 32);
    XorSelf(f);
    StepsZero(32);
  }

  lemma {:induction false} FeedMultiple(q: poly)
    ensures Feed(0, Multiply(q)) == 0
  {
    if q == [] {
      FeedZeros(32);
    } else {
      var s, m := Scaled(q[0], |q| - 1), [false] + Multiply(q[1..]);
      FeedScaled(q[0], |q| - 1);
      FeedMultiple(q[1..]);
      assert m[1..] == Multiply(q[1..]);
      FeedXor(0, s, 0, m);
    }
  }

  lemma XorZeroMeansEqual(a: nat, b: nat)
    ensures Xor(a, b) == 0 <==> a == b
  {
    XorSelf(a);
    XorAssoc(a, a, b);
    XorComm(a, Xor(a, b));
    if Xor(a, b) == 0 {
      XorAssoc(a, b, b);
      XorSelf(b);
      XorComm(a, 0);
    }
  }

  ghost function Difference(a: seq<byte>, b: seq<byte>): poly
    requires |a| == |b|
  {
    Add(Bits(a), Bits(b))
  }

  lemma SameCrc(a: seq<byte>, b: seq<byte>)
    requires |a| == |b|
    ensures BitSerial(a) == BitSerial(b) <==> Feed(0, Difference(a, b)) == 0
  {
    var x, y := Feed(ALL_ONES, Bits(a)), Feed(ALL_ONES, Bits(b));
    FeedXor(ALL_ONES, Bits(a), ALL_ONES, Bits(b));
    XorSelf(ALL_ONES);
    XorZeroMeansEqual(x, y);
    XorZeroMeansEqual(BitSerial(a), BitSerial(b));
    XorSwap(x, ALL_ONES, y, ALL_ONES);
    XorComm(Xor(x, y), 0);
  }

  lemma {:induction false} ByteBitsInjective(x: nat, y: nat, n: nat)
    requires Drop(x, n) == Drop(y, n) && LowBits(x, n) == LowBits(y, n)
    ensures x == y
    decreases n
  {
    if n > 0 {
      assert LowBits(x, n)[0] == Odd(x) && LowBits(y, n)[0] == Odd(y);
      assert LowBits(x, n)[1..] == LowBits(x / 2, n - 1);
      assert LowBits(y, n)[1..] == LowBits(y / 2, n - 1);
      ByteBitsInjective(x / 2, y / 2, n - 1);
    }
  }

  lemma {:induction false} BitsInjective(a: seq<byte>, b: seq<byte>)
    requires |a| == |b| && Bits(a) == Bits(b)
    ensures a == b
  {
    if a != [] {
      var x, y := a[0] as nat, b[0] as nat;
      LowByte(x);
      LowByte(y);
      assert Bits(a)[..8] == LowBits(x, 8) && Bits(b)[..8] == LowBits(y, 8);
      assert Bits(a)[8..] == Bits(a[1..]) && Bits(b)[8..] == Bits(b[1..]);
      ByteBitsInjective(x, y, 8);
      BitsInjective(a[1..], b[1..]);
    }
  }

  lemma DifferentBits(a: seq<byte>, b: seq<byte>)
    requires |a| == |b| && a != b
    ensures !IsZero(Difference(a, b))
  {
    if IsZero(Difference(a, b)) {
      forall i | 0 <= i < |Bits(a)| ensures Bits(a)[i] == Bits(b)[i] {
        assert !Difference(a, b)[i];
      }
      BitsInjective(a, b);
    }
  }

  // ---------------------------------------------------------------------------
  // The remainder is unique
  // ---------------------------------------------------------------------------

  /** `p` is `q` times the generator plus the remainder `r`. */
  ghost predicate Divides(p: poly, q: poly, r: poly) {
    |r| == 32 && |p| == |q| + 32 && p == Add(Multiply(q), Zeros(|q|) + r)
  }

  ghost predicate IsRemainder(p: poly, r: poly) { exists q: poly :: Divides(p, q, r) }

  lemma ScaledAdd(a: bool, b: bool, n: nat)
    ensures Add(Scaled(a, n), Scaled(b, n)) == Scaled(a != b, n)
  {
    hide Generator;
  }

  lemma AddSwap(p: poly, q: poly, x: poly, y: poly)
    requires |p| == |q| == |x| + 1 == |y| + 1
    ensures Add(Add(p, [false] + x), Add(q, [false] + y)) == Add(Add(p, q), [false] + Add(x, y))
  {}

  lemma {:induction false} MultiplyAdd(p: poly, q: poly)
    requires |p| == |q|
    ensures Multiply(Add(p, q)) == Add(Multiply(p), Multiply(q))
  {
    if p != [] {
      MultiplyAdd(p[1..], q[1..]);
      assert Add(p, q)[1..] == Add(p[1..], q[1..]);
      ScaledAdd(p[0], q[0], |p| - 1);
      AddSwap(Scaled(p[0], |p| - 1), Scaled(q[0], |p| - 1), Multiply(p[1..]), Multiply(q[1..]));
      hide Scaled;
    }
  }

  /** The difference of two divisions of one dividend has its quotient in the remainders' place. */
  lemma DifferenceOfDivisions(p: poly, q: poly, r: poly, other: poly, s: poly, i: nat)
    requires Divides(p, q, r) && Divides(p, other, s) && i < |p|
    ensures |q| == |other|
    ensures Multiply(Add(q, other))[i] == if i < |q| then false else r[i - |q|] != s[i - |q|]
  {
    MultiplyAdd(q, other);
    assert p[i] == (Multiply(q)[i] != (Zeros(|q|) + r)[i]);
    assert p[i] == (Multiply(other)[i] != (Zeros(|q|) + s)[i]);
    hide Multiply;
  }

  lemma RemainderIsUnique(p: poly, q: poly, r: poly, other: poly, s: poly)
    requires Divides(p, q, r) && Divides(p, other, s)
    ensures q == other && r == s
  {
    var d := Add(q, other);
    if !IsZero(d) {
      var i, k := FirstAndLast(d);
      FirstTerm(d, i);
      DifferenceOfDivisions(p, q, r, other, s, i);
      assert false;
    }
    MultiplyZero(d);
    forall i | 0 <= i < |q| ensures q[i] == other[i] {
      assert !d[i];
    }
    forall i: nat | i < 32 ensures r[i] == s[i] {
      DifferenceOfDivisions(p, q, r, other, s, |q| + i);
      assert !Multiply(d)[|q| + i];
    }
  }

  /** A difference the register does not see is, times x^32, a multiple of the generator. */
  lemma Undetected(d: poly) returns (q: poly)
    requires Feed(0, d) == 0
    ensures |q| == |d| && d + Zeros(32) == Multiply(q)
  {
    q := Quotient(0, d);
    Division(0, d);
    LowBitsZero(32);
    assert Zeros(|d|) + Zeros(32) == Zeros(|d| + 32);
    assert Zeros(32) + Zeros(|d|) == Zeros(|d| + 32);
    assert Dividend(0, d) == d + Zeros(32);
  }

  /** The two outermost ones of an undetected difference are at least 32 bits apart. */
  lemma UndetectedSpan(d: poly, q: poly) returns (i: nat, k: nat)
    requires |q| == |d| && d + Zeros(32) == Multiply(q) && !IsZero(d)
    ensures i <= k && k + 32 < |d| && d[i] && d[k + 32]
    ensures forall j | k < j < |q| :: !q[j]
  {
    var n :| 0 <= n < |d| && d[n];
    assert Multiply(q)[n] == (d + Zeros(32))[n] == d[n];
    if IsZero(q) {
      MultiplyZero(q);
    }
    i, k := FirstAndLast(q);
    FirstTerm(q, i);
    LastTerm(q, k);
    assert (d + Zeros(32))[i] && (d + Zeros(32))[k + 32];
  }

  // ---------------------------------------------------------------------------
  // Main results
  // ---------------------------------------------------------------------------

  /** Section 3.4 of RFC 2083: complement the first 32 bits of the message, multiply by x^32,
      divide by the generator; the complemented remainder, the only one there is, is the CRC. */
  lemma CrcIsRemainder(data: seq<byte>, r: poly)
    requires |r| == 32
    ensures IsRemainder(Add(Bits(data) + Zeros(32), Ones(32) + Zeros(8 * |data|)), r)
       <==> r == LowBits(Xor(BitSerial(data), ALL_ONES), 32)
  {
    var bits := Bits(data);
    var reg := Feed(ALL_ONES, bits);
    Division(ALL_ONES, bits);
    XorAssoc(reg, ALL_ONES, ALL_ONES);
    XorSelf(ALL_ONES);
    XorComm(reg, 0);
    AllOnesBits();
    var p := Add(bits + Zeros(32), Ones(32) + Zeros(8 * |data|));
    var q := Quotient(ALL_ONES, bits);
    assert Divides(p, q, LowBits(reg, 32));
    hide *;
    if IsRemainder(p, r) {
      var other: poly :| Divides(p, other, r);
      RemainderIsUnique(p, q, LowBits(reg, 32), other, r);
    }
  }

  lemma AllOnesBits()
    ensures LowBits(ALL_ONES, 32) == Ones(32)
  {
    hide LowBits;
    LowBitsZero(0);
    Nibble(0xffffffff, 0xfffffff, true, true, true, true, 28);
    Nibble(0xfffffff, 0xffffff, true, true, true, true, 24);
    Nibble(0xffffff, 0xfffff, true, true, true, true, 20);
    Nibble(0xfffff, 0xffff, true, true, true, true, 16);
    Nibble(0xffff, 0xfff, true, true, true, true, 12);
    Nibble(0xfff, 0xff, true, true, true, true, 8);
    Nibble(0xff, 0xf, true, true, true, true, 4);
    Nibble(0xf, 0, true, true, true, true, 0);
  }

  /** Two messages of one length collide exactly when they differ by a multiple of the
      generator. */
  lemma CollisionsAreMultiples(a: seq<byte>, b: seq<byte>)
    requires |a| == |b|
    ensures BitSerial(a) == BitSerial(b)
       <==> (a == b || exists q: poly :: Difference(a, b) == Multiply(q))
  {
    var d := Difference(a, b);
    SameCrc(a, b);
    if a != b && BitSerial(a) == BitSerial(b) {
      var q := Undetected(d);
      DifferentBits(a, b);
      var i, k := UndetectedSpan(d, q);
      var head := q[..|d| - 32];
      assert q == head + Zeros(32);
      MultiplyShift(head, 32);
      assert d == (d + Zeros(32))[..|d|] == Multiply(head);
    }
    if q: poly :| d == Multiply(q) {
      FeedMultiple(q);
    }
  }

  /** Every burst of at most 32 bits changes the CRC, wherever it falls. */
  lemma BurstDetected(a: seq<byte>, b: seq<byte>, start: int)
    requires |a| == |b| && a != b
    requires forall i | 0 <= i < 8 * |a| && Bits(a)[i] != Bits(b)[i] :: start <= i < start + 32
    ensures BitSerial(a) != BitSerial(b)
  {
    var d := Difference(a, b);
    SameCrc(a, b);
    DifferentBits(a, b);
    if Feed(0, d) == 0 {
      var q := Undetected(d);
      var i, k := UndetectedSpan(d, q);
    }
  }
}
