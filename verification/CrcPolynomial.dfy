/** The CRC register is the remainder of a division of polynomials over GF(2). */
module CrcPolynomial {
  import opened Crc32

  // ----- Coefficients -----

  /** Coefficient of x^i in the CRC polynomial of section 3.4 of RFC 2083. */
  predicate Generator(i: nat) {
    i in {32, 26, 23, 22, 16, 12, 11, 10, 8, 7, 5, 4, 2, 1, 0}
  }

  /** Bit `i` of a register, least significant first. */
  predicate Bit(r: bv32, i: nat)
    decreases i
  {
    if i == 0 then Odd(r) else Bit(Half(r), i - 1)
  }

  /** Coefficient of x^i in the polynomial a register stands for: its low bit is the one of x^31. */
  predicate Coefficient(r: bv32, i: nat) {
    i < 32 && Bit(r, 31 - i)
  }

  /** Coefficient of x^i in the product of `q`, highest coefficient first, and the generator (Horner's rule). */
  predicate TimesGenerator(q: seq<bool>, i: nat)
    decreases |q|
  {
    q != [] && (i > 0 && TimesGenerator(q[..|q| - 1], i - 1)) != (q[|q| - 1] && Generator(i))
  }

  /**
   Coefficient of x^i in what is divided: the data bits, first bit highest, times x^32, plus 32
   ones that start 32 places above the first data bit.
   */
  predicate Dividend(bits: seq<bool>, i: nat) {
    (i >= 32 && i - 32 < |bits| && bits[|bits| - 1 - (i - 32)]) != (|bits| <= i < |bits| + 32)
  }

  // ----- Bits -----

  /** The bits of a buffer in the order section 3.4 of RFC 2083 feeds them. */
  function Bits(buffer: seq<Byte>): (bits: seq<bool>) {
    if buffer == [] then [] else Bits(buffer[..|buffer| - 1]) + LowBits(buffer[|buffer| - 1] as bv32, 8)
  }

  /** The low `n` bits of a word, least significant first. */
  function LowBits(w: bv32, n: nat): (bits: seq<bool>)
    decreases n
  {
    if n == 0 then [] else [Odd(w)] + LowBits(Half(w), n - 1)
  }

  /** The register after one more data bit. */
  function FeedBit(r: bv32, bit: bool): bv32 { Step(Xor(r, if bit then 1 else 0)) }

  function FeedAll(r: bv32, bits: seq<bool>): bv32
    decreases |bits|
  {
    if bits == [] then r else FeedBit(FeedAll(r, bits[..|bits| - 1]), bits[|bits| - 1])
  }

  lemma {:induction false} FeedAllConcat(r: bv32, a: seq<bool>, b: seq<bool>)
    ensures FeedAll(r, a + b) == FeedAll(FeedAll(r, a), b)
    decreases |b|
  {
    hide FeedBit;
    if b == [] {
      assert a + b == a;
    } else {
      var n := |a + b| - 1;
      assert (a + b)[..n] == a + b[..|b| - 1];
      FeedAllConcat(r, a, b[..|b| - 1]);
    }
  }

  lemma {:induction false} FeedLowBits(r: bv32, w: bv32, n: nat)
    ensures FeedBits(r, w, n) == FeedAll(r, LowBits(w, n))
    decreases n
  {
    hide FeedBit;
    if n > 0 {
      FeedLowBits(FeedBit(r, Odd(w)), Half(w), n - 1);
      FeedAllConcat(r, [Odd(w)], LowBits(Half(w), n - 1));
      FeedOne(r, w);
    }
  }

  lemma FeedOne(r: bv32, w: bv32)
    ensures FeedAll(r, [Odd(w)]) == FeedBit(r, Odd(w)) == Step(Xor(r, w & 1))
  {
    hide Step, Xor;
    assert [Odd(w)][..0] == [];
    LowBit(w);
  }

  lemma LowBit(w: bv32)
    ensures w & 1 == if Odd(w) then 1 else 0
  {
  }

  lemma {:induction false} RegisterFeeds(r: bv32, buffer: seq<Byte>)
    ensures Register(r, buffer) == FeedAll(r, Bits(buffer))
    decreases |buffer|
  {
    hide FeedAll, FeedBits, LowBits;
    if buffer == [] {
      FeedNone(r);
    } else {
      var init, last := buffer[..|buffer| - 1], buffer[|buffer| - 1];
      RegisterFeeds(r, init);
      RegisterLast(r, init, last);
      assert buffer == init + [last];
      FeedAllConcat(r, Bits(init), LowBits(last as bv32, 8));
      FeedLowBits(Register(r, init), last as bv32, 8);
    }
  }

  lemma FeedNone(r: bv32)
    ensures FeedAll(r, []) == r
  {
  }

  lemma {:induction false} RegisterLast(r: bv32, init: seq<Byte>, last: Byte)
    ensures Register(r, init + [last]) == FeedBits(Register(r, init), last as bv32, 8)
    decreases |init|
  {
    hide FeedBits;
    if init == [] {
      assert (init + [last])[1..] == [];
    } else {
      assert (init + [last])[1..] == init[1..] + [last];
      RegisterLast(FeedBits(r, init[0] as bv32, 8), init[1..], last);
    }
  }

  // ----- The register as a polynomial -----

  lemma {:induction false} BitXor(a: bv32, b: bv32, i: nat)
    ensures Bit(Xor(a, b), i) <==> Bit(a, i) != Bit(b, i)
    decreases i
  {
    hide Xor, Odd, Half;
    if i == 0 {
      OddXor(a, b);
    } else {
      HalfXor(a, b);
      BitXor(Half(a), Half(b), i - 1);
    }
  }

  lemma {:induction false} BitHalves(r: bv32, n: nat, i: nat)
    ensures Bit(r, n + i) == Bit(Halves(r, n), i)
    decreases n
  {
    hide Half, Odd;
    if n > 0 { BitHalves(Half(r), n - 1, i); }
  }

  function Down(r: bv32): bv32 { r >> 8 }

  lemma BitDown(r: bv32, i: nat)
    ensures Bit(r, 8 + i) == Bit(Down(r), i)
  {
    hide Bit, Halves;
    BitHalves(r, 8, i);
    Halves8(r);
  }

  /** There is nothing above bit 31. */
  lemma NoBit32(r: bv32)
    ensures !Bit(r, 32)
  {
    hide Half, Odd, Down, Bit;
    BitDown(r, 24);
    BitDown(Down(r), 16);
    BitDown(Down(Down(r)), 8);
    BitDown(Down(Down(Down(r))), 0);
    AllOut(r);
  }

  lemma AllOut(r: bv32)
    ensures !Bit(Down(Down(Down(Down(r)))), 0)
  {
  }

  lemma LowFour(r: bv32)
    ensures Bit(r, 0) == Odd(r) && Bit(r, 1) == Odd(Half(r))
    ensures Bit(r, 2) == Odd(Half(Half(r))) && Bit(r, 3) == Odd(Half(Half(Half(r))))
  {
    hide Half, Odd;
    assert Bit(r, 2) == Bit(Half(r), 1);
    assert Bit(r, 3) == Bit(Half(r), 2);
    assert Bit(Half(r), 2) == Bit(Half(Half(r)), 1);
  }

  /** The reversed polynomial without its `k` lowest hexadecimal digits. */
  function PolyFrom(k: nat): bv32
    requires k < 8
  {
    match k
    case 0 => 0xedb88320
    case 1 => 0x0edb8832
    case 2 => 0x00edb883
    case 3 => 0x000edb88
    case 4 => 0x0000edb8
    case 5 => 0x00000edb
    case 6 => 0x000000ed
    case _ => 0xe
  }

  lemma PolyFromStart()
    ensures PolyFrom(0) == Poly
  {
  }

  lemma PolyFromStep(k: nat)
    requires k < 7
    ensures Half(Half(Half(Half(PolyFrom(k))))) == PolyFrom(k + 1)
  {
  }

  lemma {:induction false} PolyBit(k: nat, j: nat)
    requires k < 8
    ensures Bit(Poly, 4 * k + j) == Bit(PolyFrom(k), j)
    decreases k
  {
    hide Bit, Half, Halves, PolyFrom;
    if k == 0 {
      PolyFromStart();
    } else {
      PolyBit(k - 1, 4 + j);
      BitHalves(PolyFrom(k - 1), 4, j);
      FourHalves(PolyFrom(k - 1));
      PolyFromStep(k - 1);
    }
  }

  lemma FourHalves(r: bv32)
    ensures Halves(r, 4) == Half(Half(Half(Half(r))))
  {
    hide Half;
    assert Halves(r, 4) == Halves(Half(Half(r)), 2);
  }

  /** The digits of the constant in the code are the polynomial of the specification. */
  lemma PolyDigit(k: nat, j: nat)
    requires k < 8 && j < 4
    ensures Bit(PolyFrom(k), j) == Generator(31 - (4 * k + j))
  {
    LowFour(PolyFrom(k));
  }

  lemma {:induction false} PolyIsGenerator(i: nat)
    requires i < 32
    ensures Coefficient(Poly, i) == Generator(i)
  {
    hide Bit, Generator;
    var b := 31 - i;
    PolyBit(b / 4, b % 4);
    PolyDigit(b / 4, b % 4);
  }

  // ----- One division step -----

  lemma FeedBitCoefficient(r: bv32, bit: bool, i: nat)
    ensures Coefficient(FeedBit(r, bit), i) <==>
            i < 32 && (i > 0 && Coefficient(r, i - 1)) != (Coefficient(r, 31) != bit && Generator(i))
  {
    hide Bit, Generator, Half, Odd, Xor;
    var x := Xor(r, if bit then 1 else 0);
    FeedLow(r, bit);
    if i < 32 {
      HalfBit(r, i);
      PolyIsGenerator(i);
      BitXor(Poly, Half(x), 31 - i);
    }
  }

  lemma FeedLow(r: bv32, bit: bool)
    ensures var x := Xor(r, if bit then 1 else 0);
            Half(x) == Half(r) && (Odd(x) <==> Coefficient(r, 31) != bit)
  {
  }

  lemma HalfBit(r: bv32, i: nat)
    requires i < 32
    ensures Bit(Half(r), 31 - i) <==> i > 0 && Coefficient(r, i - 1)
  {
    hide Half, Odd;
    if i == 0 { NoBit32(r); }
  }

  // ----- Division -----

  /** `q` times the generator plus the polynomial of `r` is what was divided. */
  ghost predicate Divides(bits: seq<bool>, q: seq<bool>, r: bv32) {
    forall i: nat :: Dividend(bits, i) <==> TimesGenerator(q, i) != Coefficient(r, i)
  }

  /** The quotient: one bit for every data bit, set when the polynomial was subtracted. */
  function Quotient(bits: seq<bool>): (q: seq<bool>)
    ensures |q| == |bits|
  {
    if bits == [] then []
    else
      var init := bits[..|bits| - 1];
      Quotient(init) + [Coefficient(FeedAll(0xffff_ffff, init), 31) != bits[|bits| - 1]]
  }

  lemma {:induction false} FeedDivides(bits: seq<bool>)
    ensures Divides(bits, Quotient(bits), FeedAll(0xffff_ffff, bits))
    decreases |bits|
  {
    hide FeedBit, Coefficient;
    if bits == [] {
      forall i: nat ensures Dividend(bits, i) <==> TimesGenerator([], i) != Coefficient(0xffff_ffff, i) { AllOnes(i); }
    } else {
      var init, bit := bits[..|bits| - 1], bits[|bits| - 1];
      FeedDivides(init);
      DivideStep(init, bit, Quotient(init), FeedAll(0xffff_ffff, init));
      assert init + [bit] == bits;
    }
  }

  lemma DivideStep(init: seq<bool>, bit: bool, q: seq<bool>, r: bv32)
    requires Divides(init, q, r)
    ensures Divides(init + [bit], q + [Coefficient(r, 31) != bit], FeedBit(r, bit))
  {
    hide FeedBit, Coefficient, Dividend, TimesGenerator;
    var feed := Coefficient(r, 31) != bit;
    forall i: nat
      ensures Dividend(init + [bit], i) <==> TimesGenerator(q + [feed], i) != Coefficient(FeedBit(r, bit), i)
    {
      DividendStep(init, bit, i);
      TimesStep(q, feed, i);
      FeedBitCoefficient(r, bit, i);
      if i > 0 {
        assert Dividend(init, i - 1) <==> TimesGenerator(q, i - 1) != Coefficient(r, i - 1);
      }
      Degree(r, i);
    }
  }

  lemma DividendStep(init: seq<bool>, bit: bool, i: nat)
    ensures Dividend(init + [bit], i) <==> (i > 0 && Dividend(init, i - 1)) != (bit && i == 32)
  {
  }

  lemma TimesStep(q: seq<bool>, feed: bool, i: nat)
    ensures TimesGenerator(q + [feed], i) <==> (i > 0 && TimesGenerator(q, i - 1)) != (feed && Generator(i))
  {
    hide Generator;
    assert (q + [feed])[..|q|] == q;
  }

  lemma Degree(r: bv32, i: nat)
    ensures i > 32 ==> !Generator(i) && !Coefficient(r, i - 1)
    ensures i >= 32 ==> !Coefficient(r, i)
    ensures Generator(32)
  {
    hide Bit;
  }

  /** The initial register without its `k` lowest hexadecimal digits. */
  function OnesFrom(k: nat): bv32
    requires k < 8
  {
    match k
    case 0 => 0xffffffff
    case 1 => 0x0fffffff
    case 2 => 0x00ffffff
    case 3 => 0x000fffff
    case 4 => 0x0000ffff
    case 5 => 0x00000fff
    case 6 => 0x000000ff
    case _ => 0xf
  }

  lemma OnesFromStart()
    ensures OnesFrom(0) == 0xffff_ffff
  {
  }

  lemma OnesFromStep(k: nat)
    requires k < 7
    ensures Half(Half(Half(Half(OnesFrom(k))))) == OnesFrom(k + 1)
  {
  }

  lemma {:induction false} OnesBit(k: nat, j: nat)
    requires k < 8
    ensures Bit(0xffff_ffff, 4 * k + j) == Bit(OnesFrom(k), j)
    decreases k
  {
    hide Bit, Half, Halves, OnesFrom;
    if k == 0 {
      OnesFromStart();
    } else {
      OnesBit(k - 1, 4 + j);
      BitHalves(OnesFrom(k - 1), 4, j);
      FourHalves(OnesFrom(k - 1));
      OnesFromStep(k - 1);
    }
  }

  lemma OnesDigit(k: nat, j: nat)
    requires k < 8 && j < 4
    ensures Bit(OnesFrom(k), j)
  {
    LowFour(OnesFrom(k));
  }

  lemma AllOnes(i: nat)
    ensures Coefficient(0xffff_ffff, i) <==> i < 32
  {
    hide Bit;
    if i < 32 {
      var b := 31 - i;
      OnesBit(b / 4, b % 4);
      OnesDigit(b / 4, b % 4);
    }
  }

  /**
   The inverted CRC of a buffer is the remainder of its bits divided by the polynomial of
   section 3.4 of RFC 2083; a remainder has degree below 32 by definition.
   */
  lemma {:induction false} CrcIsRemainder(buffer: seq<Byte>)
    ensures Divides(Bits(buffer), Quotient(Bits(buffer)), Xor(Crc(buffer), 0xffff_ffff))
  {
    hide Divides, Register, Xor;
    var r := Register(0xffff_ffff, buffer);
    RegisterFeeds(0xffff_ffff, buffer);
    FeedDivides(Bits(buffer));
    XorCommutes(r, 0xffff_ffff);
    XorCommutes(Crc(buffer), 0xffff_ffff);
    XorCancels(0xffff_ffff, r);
  }

  // ----- The remainder is unique -----

  /** A product with the generator of degree below 32 is zero. */
  lemma {:induction false} ProductIsLong(q: seq<bool>, j: nat)
    requires j < |q| && q[j] && forall k :: 0 <= k < j ==> !q[k]
    ensures TimesGenerator(q, 31 + |q| - j)
    decreases |q|
  {
    hide Generator;
    Degree(0, 31 + |q| - j);
    var init := q[..|q| - 1];
    if j == |q| - 1 {
      ZeroProduct(init, 31);
    } else {
      ProductIsLong(init, j);
    }
  }

  lemma {:induction false} ZeroProduct(q: seq<bool>, i: nat)
    requires forall k :: 0 <= k < |q| ==> !q[k]
    ensures !TimesGenerator(q, i)
    decreases |q|
  {
    if q != [] && i > 0 { ZeroProduct(q[..|q| - 1], i - 1); }
  }

  function XorBits(a: seq<bool>, b: seq<bool>): (c: seq<bool>)
    requires |a| == |b|
    ensures |c| == |a|
  {
    seq(|a|, i requires 0 <= i < |a| => a[i] != b[i])
  }

  lemma {:induction false} ProductXor(a: seq<bool>, b: seq<bool>, i: nat)
    requires |a| == |b|
    ensures TimesGenerator(XorBits(a, b), i) <==> TimesGenerator(a, i) != TimesGenerator(b, i)
    decreases |a|
  {
    hide Generator;
    if a != [] {
      var c := XorBits(a, b);
      assert c[..|c| - 1] == XorBits(a[..|a| - 1], b[..|b| - 1]);
      if i > 0 { ProductXor(a[..|a| - 1], b[..|b| - 1], i - 1); }
    }
  }

  // ----- A register is its coefficients -----

  /** Only the lowest `n` bits can be set. */
  ghost predicate Short(r: bv32, n: nat)
    decreases n
  {
    if n == 0 then r == 0 else Short(Half(r), n - 1)
  }

  lemma HalfOdd(a: bv32, b: bv32)
    requires Half(a) == Half(b) && (Odd(a) <==> Odd(b))
    ensures a == b
  {
  }

  lemma {:induction false} SameBits(a: bv32, b: bv32, n: nat)
    requires Short(a, n) && Short(b, n) && forall i :: 0 <= i < n ==> (Bit(a, i) <==> Bit(b, i))
    ensures a == b
    decreases n
  {
    hide Half, Odd;
    if n > 0 {
      assert Bit(a, 0) <==> Bit(b, 0);
      forall i | 0 <= i < n - 1 ensures Bit(Half(a), i) <==> Bit(Half(b), i) {
        assert Bit(a, i + 1) <==> Bit(b, i + 1);
      }
      SameBits(Half(a), Half(b), n - 1);
      HalfOdd(a, b);
    }
  }

  function Eighth(r: bv32): bv32 { Half(Half(Half(Half(Half(Half(Half(Half(r)))))))) }

  lemma EighthShort(r: bv32, n: nat)
    requires Short(Eighth(r), n)
    ensures Short(r, n + 8)
  {
    hide Half;
    var r2 := Half(Half(r));
    var r4 := Half(Half(r2));
    var r6 := Half(Half(r4));
    assert Short(Half(Half(r6)), n);
    assert Short(r6, n + 2);
    assert Short(r4, n + 4);
    assert Short(r2, n + 6);
  }

  function ByteDown(r: bv32): bv32 { r >> 8 }

  lemma EighthShifts(r: bv32)
    ensures Eighth(r) == ByteDown(r)
  {
  }

  lemma FourBytes(r: bv32)
    ensures ByteDown(ByteDown(ByteDown(ByteDown(r)))) == 0
  {
  }

  lemma FourEighths(r: bv32)
    ensures Eighth(Eighth(Eighth(Eighth(r)))) == 0
  {
    hide Eighth, ByteDown;
    EighthShifts(r);
    EighthShifts(ByteDown(r));
    EighthShifts(ByteDown(ByteDown(r)));
    EighthShifts(ByteDown(ByteDown(ByteDown(r))));
    FourBytes(r);
  }

  lemma AllShort(r: bv32)
    ensures Short(r, 32)
  {
    hide Eighth, Short;
    FourEighths(r);
    assert Short(0, 0) by { ZeroShort(); }
    EighthShort(Eighth(Eighth(Eighth(r))), 0);
    EighthShort(Eighth(Eighth(r)), 8);
    EighthShort(Eighth(r), 16);
    EighthShort(r, 24);
  }

  lemma ZeroShort()
    ensures Short(0, 0)
  {
  }

  lemma SameCoefficients(a: bv32, b: bv32)
    requires forall i: nat :: Coefficient(a, i) <==> Coefficient(b, i)
    ensures a == b
  {
    hide Bit, Short;
    AllShort(a);
    AllShort(b);
    forall i | 0 <= i < 32 ensures Bit(a, i) <==> Bit(b, i) {
      assert Coefficient(a, 31 - i) <==> Coefficient(b, 31 - i);
    }
    SameBits(a, b, 32);
  }

  /** Two divisions of the same bits with quotients of that length have the same quotient and the same remainder. */
  lemma {:induction false} RemainderUnique(bits: seq<bool>, q: seq<bool>, r: bv32, q': seq<bool>, r': bv32)
    requires |q| == |q'| && Divides(bits, q, r) && Divides(bits, q', r')
    ensures q == q' && r == r'
  {
    hide Coefficient, TimesGenerator, Dividend;
    if q == q' {
      SameCoefficients(r, r');
    } else {
      var c := XorBits(q, q');
      var k :| 0 <= k < |q| && q[k] != q'[k];
      var j := FirstSet(c, k);
      var top := 31 + |c| - j;
      ProductIsLong(c, j);
      ProductXor(q, q', top);
      Degree(r, top);
      Degree(r', top);
      assert false;
    }
  }

  /** Whoever divides the bits of a buffer, with a quotient of one bit per data bit, gets the inverted CRC as remainder. */
  lemma {:induction false} CrcIsTheRemainder(buffer: seq<Byte>, q: seq<bool>, r: bv32)
    requires |q| == |Bits(buffer)|
    ensures Divides(Bits(buffer), q, r) <==> q == Quotient(Bits(buffer)) && r == Xor(Crc(buffer), 0xffff_ffff)
  {
    hide Divides, Bits, Crc, Xor;
    CrcIsRemainder(buffer);
    if Divides(Bits(buffer), q, r) {
      RemainderUnique(Bits(buffer), q, r, Quotient(Bits(buffer)), Xor(Crc(buffer), 0xffff_ffff));
    }
  }

  lemma FirstSet(c: seq<bool>, k: nat) returns (j: nat)
    requires k < |c| && c[k]
    ensures j < |c| && c[j] && forall i :: 0 <= i < j ==> !c[i]
  {
    j := 0;
    while !c[j]
      invariant j <= k && forall i :: 0 <= i < j ==> !c[i]
      decreases k - j
    {
      j := j + 1;
    }
  }
}
