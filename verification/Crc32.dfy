/** The table-driven CRC of CyclicRedundancyCheck.cpp against the bit-by-bit one. */
module Crc32 {
  type Byte = bv8

  // ----- Register arithmetic -----

  // Wrapped, so that proofs can reason with the laws below instead of with single bits.

  function Xor(a: bv32, b: bv32): bv32 { a ^ b }

  function Half(r: bv32): bv32 { r >> 1 }

  predicate Odd(r: bv32) { r & 1 == 1 }

  lemma XorAssociative(a: bv32, b: bv32, c: bv32)
    ensures Xor(Xor(a, b), c) == Xor(a, Xor(b, c))
  {
  }

  lemma XorCommutes(a: bv32, b: bv32)
    ensures Xor(a, b) == Xor(b, a)
  {
  }

  lemma XorCancels(a: bv32, b: bv32)
    ensures Xor(a, Xor(a, b)) == b && Xor(a, 0) == a && Xor(0, a) == a
  {
  }

  /** The middle two of four change places. */
  lemma XorSwap(a: bv32, b: bv32, c: bv32, d: bv32)
    ensures Xor(Xor(a, b), Xor(c, d)) == Xor(Xor(a, c), Xor(b, d))
  {
    hide Xor;
    XorAssociative(a, b, Xor(c, d));
    XorAssociative(b, c, d);
    XorCommutes(b, c);
    XorAssociative(c, b, d);
    XorAssociative(a, c, Xor(b, d));
  }

  lemma HalfXor(a: bv32, b: bv32)
    ensures Half(Xor(a, b)) == Xor(Half(a), Half(b))
  {
  }

  lemma OddXor(a: bv32, b: bv32)
    ensures Odd(Xor(a, b)) <==> Odd(a) != Odd(b)
  {
  }

  // ----- One bit at a time -----

  /** The polynomial of section 3.4 of RFC 2083, bits reversed; the source writes it as -306674912. */
  const Poly: bv32 := 0xedb8_8320

  lemma {:induction false} PolyIsSourceConstant()
    ensures Poly as int == 0x1_0000_0000 - 306674912
  {
  }

  /** One division step: shift out the low bit and subtract the polynomial if it was set. */
  function Step(r: bv32): bv32 {
    if Odd(r) then Xor(Poly, Half(r)) else Half(r)
  }

  function Steps(r: bv32, n: nat): bv32
    decreases n
  {
    if n == 0 then r else Steps(Step(r), n - 1)
  }

  lemma StepXor(a: bv32, b: bv32)
    ensures Step(Xor(a, b)) == Xor(Step(a), Step(b))
  {
    hide Xor, Half, Odd;
    OddXor(a, b);
    HalfXor(a, b);
    XorCancels(Poly, Xor(Half(a), Half(b)));
    XorSwap(Poly, Half(a), Poly, Half(b));
    XorAssociative(Poly, Poly, Xor(Half(a), Half(b)));
    XorAssociative(Poly, Half(a), Half(b));
    XorCommutes(Poly, Half(b));
    XorAssociative(Half(a), Half(b), Poly);
    XorCommutes(Xor(Half(a), Half(b)), Poly);
  }

  lemma {:induction false} StepsXor(a: bv32, b: bv32, n: nat)
    ensures Steps(Xor(a, b), n) == Xor(Steps(a, n), Steps(b, n))
    decreases n
  {
    hide Xor, Step;
    if n > 0 {
      StepXor(a, b);
      StepsXor(Step(a), Step(b), n - 1);
    }
  }

  lemma StepInjective(a: bv32, b: bv32)
    requires Step(a) == Step(b)
    ensures a == b
  {
  }

  lemma {:induction false} StepsInjective(a: bv32, b: bv32, n: nat)
    requires Steps(a, n) == Steps(b, n)
    ensures a == b
    decreases n
  {
    hide Step;
    if n > 0 {
      StepsInjective(Step(a), Step(b), n - 1);
      StepInjective(a, b);
    }
  }

  // ----- Whole bytes -----

  function Halves(r: bv32, n: nat): bv32
    decreases n
  {
    if n == 0 then r else Halves(Half(r), n - 1)
  }

  /** The low `n` bits are zero. */
  predicate LowZero(r: bv32, n: nat)
    decreases n
  {
    n == 0 || (!Odd(r) && LowZero(Half(r), n - 1))
  }

  /** Without a bit to divide out, stepping is shifting. */
  lemma {:induction false} StepsShift(r: bv32, n: nat)
    requires LowZero(r, n)
    ensures Steps(r, n) == Halves(r, n)
    decreases n
  {
    hide Half, Odd;
    if n > 0 { StepsShift(Half(r), n - 1); }
  }

  lemma Halves8(r: bv32)
    ensures Halves(r, 8) == r >> 8
  {
    hide Half;
    var r2 := Half(Half(r));
    var r4 := Half(Half(r2));
    var r6 := Half(Half(r4));
    assert Halves(r, 8) == Halves(r2, 6);
    assert Halves(r2, 6) == Halves(r4, 4);
    assert Halves(r4, 4) == Halves(r6, 2);
    assert Halves(r6, 2) == Half(Half(r6));
    EightHalves(r);
  }

  lemma EightHalves(r: bv32)
    ensures Half(Half(Half(Half(Half(Half(Half(Half(r)))))))) == r >> 8
  {
  }

  /** The low byte and the rest of a register. */
  function Low(r: bv32): bv32 { r & 0xff }

  function High(r: bv32): bv32 { r & 0xffff_ff00 }

  lemma LowHigh(r: bv32)
    ensures r == Xor(Low(r), High(r)) && High(r) >> 8 == r >> 8 && (r >> 8) & 0x00ff_ffff == r >> 8
  {
  }

  lemma HighLowZero(r: bv32)
    ensures LowZero(High(r), 8)
  {
    hide Half, Odd;
    var h := High(r);
    EvenHalves(r);
    var h2 := Half(Half(h));
    var h4 := Half(Half(h2));
    var h6 := Half(Half(h4));
    assert LowZero(Half(Half(h6)), 0);
    assert LowZero(h6, 2);
    assert LowZero(h4, 4);
    assert LowZero(h2, 6);
  }

  lemma EvenHalves(r: bv32)
    ensures var h := High(r);
            && !Odd(h) && !Odd(Half(h)) && !Odd(Half(Half(h))) && !Odd(Half(Half(Half(h))))
            && !Odd(Half(Half(Half(Half(h))))) && !Odd(Half(Half(Half(Half(Half(h))))))
            && !Odd(Half(Half(Half(Half(Half(Half(h))))))) && !Odd(Half(Half(Half(Half(Half(Half(Half(h))))))))
  {
  }

  /** Eight steps at once: look up the low byte and move the others down. */
  lemma Steps8Split(r: bv32)
    ensures Steps(r, 8) == Xor(Steps(Low(r), 8), r >> 8)
  {
    hide Xor, Low, High, Steps, Halves;
    LowHigh(r);
    StepsXor(Low(r), High(r), 8);
    HighLowZero(r);
    StepsShift(High(r), 8);
    Halves8(High(r));
  }

  // ----- Feeding data -----

  /** The register after feeding the `n` low bits of `w`, least significant first, one at a time. */
  function FeedBits(r: bv32, w: bv32, n: nat): bv32
    decreases n
  {
    if n == 0 then r else FeedBits(Step(Xor(r, w & 1)), Half(w), n - 1)
  }

  lemma OneBit(w: bv32)
    ensures w == Xor(w & 1, w & 0xffff_fffe) && !Odd(w & 0xffff_fffe) && Half(w & 0xffff_fffe) == Half(w)
  {
  }

  /** Adding a bit when its turn comes is the same as adding all of them before the first step. */
  lemma {:induction false} FeedBitsAtOnce(r: bv32, w: bv32, n: nat)
    requires Halves(w, n) == 0
    ensures FeedBits(r, w, n) == Steps(Xor(r, w), n)
    decreases n
  {
    hide Xor, Half, Odd;
    if n == 0 {
      XorCancels(r, w);
    } else {
      var bit, rest := w & 1, w & 0xffff_fffe;
      OneBit(w);
      XorAssociative(r, bit, rest);
      StepXor(Xor(r, bit), rest);
      FeedBitsAtOnce(Step(Xor(r, bit)), Half(w), n - 1);
    }
  }

  /** The register after feeding the whole buffer, each byte from its least to its most significant bit. */
  function Register(r: bv32, buffer: seq<Byte>): bv32
    decreases |buffer|
  {
    if buffer == [] then r else Register(FeedBits(r, buffer[0] as bv32, 8), buffer[1..])
  }

  /** The CRC of section 3.4 of RFC 2083: register all ones, data bit by bit, result inverted. */
  function Crc(buffer: seq<Byte>): bv32 {
    Xor(Register(0xffff_ffff, buffer), 0xffff_ffff)
  }

  lemma FeedByte(r: bv32, b: Byte)
    ensures FeedBits(r, b as bv32, 8) == Steps(Xor(r, b as bv32), 8)
  {
    hide Steps, FeedBits, Xor, Halves;
    Halves8(b as bv32);
    ByteShift(b);
    FeedBitsAtOnce(r, b as bv32, 8);
  }

  lemma ByteShift(b: Byte)
    ensures b as bv32 >> 8 == 0
  {
  }

  /** The table-driven update is feeding one byte bit by bit. */
  lemma {:induction false} FeedByteByTable(r: bv32, b: Byte)
    ensures FeedBits(r, b as bv32, 8) == Xor(Steps(Low(Xor(r, b as bv32)), 8), r >> 8)
  {
    hide Steps, FeedBits, Xor, Low;
    FeedByte(r, b);
    Steps8Split(Xor(r, b as bv32));
    ShiftByte(r, b);
  }

  lemma ShiftByte(r: bv32, b: Byte)
    ensures Xor(r, b as bv32) >> 8 == r >> 8
  {
  }
}
