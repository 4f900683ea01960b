/** Which changes of a buffer its CRC detects: every burst inside four bytes, but not every one inside five. */
module CrcBurst {
  import opened Crc32

  // ----- The register -----

  lemma {:induction false} RegisterConcat(r: bv32, s: seq<Byte>, t: seq<Byte>)
    ensures Register(r, s + t) == Register(Register(r, s), t)
    decreases |s|
  {
    hide FeedBits;
    if s == [] {
      assert s + t == t;
    } else {
      assert (s + t)[1..] == s[1..] + t;
      RegisterConcat(FeedBits(r, s[0] as bv32, 8), s[1..], t);
    }
  }

  lemma XorInjective(a: bv32, b: bv32, c: bv32)
    ensures Xor(a, c) == Xor(b, c) ==> a == b
    ensures Xor(c, a) == Xor(c, b) ==> a == b
  {
    hide Xor;
    XorCancels(c, a);
    XorCancels(c, b);
    XorCommutes(a, c);
    XorCommutes(b, c);
  }

  /** Feeding the same data to two registers keeps them different. */
  lemma {:induction false} RegisterInjective(a: bv32, b: bv32, s: seq<Byte>)
    requires Register(a, s) == Register(b, s)
    ensures a == b
    decreases |s|
  {
    hide FeedBits, Xor, Steps;
    if s != [] {
      var x := s[0] as bv32;
      RegisterInjective(FeedBits(a, x, 8), FeedBits(b, x, 8), s[1..]);
      FeedByte(a, s[0]);
      FeedByte(b, s[0]);
      StepsInjective(Xor(a, x), Xor(b, x), 8);
      XorInjective(a, b, x);
    }
  }

  lemma {:induction false} StepsAdd(r: bv32, m: nat, n: nat)
    ensures Steps(Steps(r, m), n) == Steps(r, m + n)
    decreases m
  {
    hide Step;
    if m > 0 { StepsAdd(Step(r), m - 1, n); }
  }

  // ----- Words -----

  function Up(r: bv32): bv32 { r << 8 }

  /** Up to four bytes as a little-endian word. */
  function Word(s: seq<Byte>): bv32
    decreases |s|
  {
    if s == [] then 0 else Xor(s[0] as bv32, Up(Word(s[1..])))
  }

  function MaxWord(n: nat): bv32 {
    match n case 0 => 0 case 1 => 0xff case 2 => 0xffff case 3 => 0xff_ffff case _ => 0xffff_ffff
  }

  lemma {:induction false} WordBound(s: seq<Byte>)
    requires |s| <= 3
    ensures Word(s) <= MaxWord(|s|)
    decreases |s|
  {
    hide Xor, Up, Word;
    if s == [] {
      WordEnds(s);
    } else {
      WordEnds(s);
      WordBound(s[1..]);
      BoundStep(s[0], Word(s[1..]), |s|);
    }
  }

  lemma WordEnds(s: seq<Byte>)
    ensures s == [] ==> Word(s) == 0
    ensures s != [] ==> Word(s) == Xor(s[0] as bv32, Up(Word(s[1..])))
  {
  }

  lemma BoundStep(b: Byte, w: bv32, n: nat)
    requires 1 <= n <= 3 && w <= MaxWord(n - 1)
    ensures Xor(b as bv32, Up(w)) <= MaxWord(n)
  {
  }

  lemma UpDown(w: bv32)
    requires w <= 0xff_ffff
    ensures High(Up(w)) == Up(w) && Up(w) >> 8 == w
  {
  }

  /** Eight steps undo a shift by one byte. */
  lemma StepsUp(w: bv32)
    requires w <= 0xff_ffff
    ensures Steps(Up(w), 8) == w
  {
    hide Steps, Up, High, Halves;
    UpDown(w);
    HighLowZero(Up(w));
    StepsShift(Up(w), 8);
    Halves8(Up(w));
  }

  /** Up to four bytes fed one after the other are one word added before the first step. */
  lemma {:induction false} FeedWord(r: bv32, s: seq<Byte>)
    requires |s| <= 4
    ensures Register(r, s) == Steps(Xor(r, Word(s)), 8 * |s|)
    decreases |s|
  {
    hide Xor, Up, FeedBits, Word;
    WordEnds(s);
    if s == [] {
      XorCancels(r, 0);
    } else {
      FeedWordStep(r, s[0], s[1..]);
      FeedWord(FeedBits(r, s[0] as bv32, 8), s[1..]);
    }
  }

  lemma FeedWordStep(r: bv32, b: Byte, rest: seq<Byte>)
    requires |rest| <= 3
    ensures Steps(Xor(FeedBits(r, b as bv32, 8), Word(rest)), 8 * |rest|)
         == Steps(Xor(r, Xor(b as bv32, Up(Word(rest)))), 8 * (|rest| + 1))
  {
    hide Xor, Up, FeedBits, Word, Steps;
    var x, w := b as bv32, Word(rest);
    FeedByte(r, b);
    WordBound(rest);
    StepsUp(w);
    StepsXor(Xor(r, x), Up(w), 8);
    XorAssociative(r, x, Up(w));
    StepsAdd(Xor(r, Xor(x, Up(w))), 8, 8 * |rest|);
  }

  lemma {:induction false} WordInjective(s: seq<Byte>, t: seq<Byte>)
    requires |s| == |t| <= 4 && Word(s) == Word(t)
    ensures s == t
    decreases |s|
  {
    hide Xor, Up, Word, MaxWord;
    if s != [] {
      WordEnds(s);
      WordEnds(t);
      WordBound(s[1..]);
      WordBound(t[1..]);
      MaxWordMonotone(|s| - 1);
      SameParts(s[0], t[0], Word(s[1..]), Word(t[1..]));
      WordInjective(s[1..], t[1..]);
      assert s == [s[0]] + s[1..] && t == [t[0]] + t[1..];
    }
  }

  lemma MaxWordMonotone(n: nat)
    requires n <= 3
    ensures MaxWord(n) <= 0xff_ffff
  {
  }

  lemma SameParts(a: Byte, b: Byte, v: bv32, w: bv32)
    requires v <= 0xff_ffff && w <= 0xff_ffff && Xor(a as bv32, Up(v)) == Xor(b as bv32, Up(w))
    ensures a == b && v == w
  {
  }

  // ----- Bursts -----

  /** The buffers agree outside the `width` bytes from `p` on. */
  ghost predicate DifferOnlyIn(a: seq<Byte>, b: seq<Byte>, p: nat, width: nat) {
    |a| == |b| && forall i :: 0 <= i < |a| && !(p <= i < p + width) ==> a[i] == b[i]
  }

  /** A change inside four consecutive bytes always changes the CRC. */
  lemma {:induction false} BurstDetected(a: seq<Byte>, b: seq<Byte>, p: nat)
    requires DifferOnlyIn(a, b, p, 4) && a != b
    ensures Crc(a) != Crc(b)
  {
    hide Crc, Register;
    var lo := if p < |a| then p else |a|;
    var hi := if p + 4 < |a| then p + 4 else |a|;
    assert a == a[..lo] + a[lo..hi] + a[hi..];
    assert b == a[..lo] + b[lo..hi] + a[hi..];
    if Crc(a) == Crc(b) {
      SameWindow(a[..lo], a[lo..hi], b[lo..hi], a[hi..]);
      WindowEqual(RegisterOf(a[..lo]), a[lo..hi], b[lo..hi]);
    }
  }

  /** The register when the buffer starts with `s`. */
  function RegisterOf(s: seq<Byte>): bv32 { Register(0xffff_ffff, s) }

  lemma SameInverted(a: seq<Byte>, b: seq<Byte>)
    ensures Crc(a) == Crc(b) <==> RegisterOf(a) == RegisterOf(b)
  {
    hide Xor, Register;
    XorInjective(RegisterOf(a), RegisterOf(b), 0xffff_ffff);
  }

  /** What comes before and after a window does not decide whether two windows are told apart. */
  lemma SameWindow(pre: seq<Byte>, x: seq<Byte>, y: seq<Byte>, post: seq<Byte>)
    ensures Crc(pre + x + post) == Crc(pre + y + post)
       <==> Register(RegisterOf(pre), x) == Register(RegisterOf(pre), y)
  {
    hide Crc, Register;
    var init: bv32 := 0xffff_ffff;
    SameInverted(pre + x + post, pre + y + post);
    RegisterConcat(init, pre + x, post);
    RegisterConcat(init, pre + y, post);
    RegisterConcat(init, pre, x);
    RegisterConcat(init, pre, y);
    if Register(Register(RegisterOf(pre), x), post) == Register(Register(RegisterOf(pre), y), post) {
      RegisterInjective(Register(RegisterOf(pre), x), Register(RegisterOf(pre), y), post);
    }
  }

  lemma WindowEqual(r: bv32, x: seq<Byte>, y: seq<Byte>)
    requires |x| == |y| <= 4 && Register(r, x) == Register(r, y)
    ensures x == y
  {
    hide Register, Word, Steps, Xor;
    FeedWord(r, x);
    FeedWord(r, y);
    StepsInjective(Xor(r, Word(x)), Xor(r, Word(y)), 8 * |x|);
    XorInjective(Word(x), Word(y), r);
    WordInjective(x, y);
  }

  // ----- Four is the limit -----

  /** Adds to five bytes the polynomial itself, which no division step can see. */
  function Disturb(s: seq<Byte>): (t: seq<Byte>)
    requires |s| == 5
    ensures |t| == 5 && t != s
  {
    assert s[0] ^ 0x01 != s[0];
    [s[0] ^ 0x01, s[1] ^ 0x96, s[2] ^ 0x30, s[3] ^ 0x07, s[4] ^ 0x77]
  }

  /** Any five consecutive bytes can be changed without the CRC noticing. */
  lemma {:induction false} BurstOfFiveMissed(pre: seq<Byte>, s: seq<Byte>, post: seq<Byte>)
    requires |s| == 5
    ensures pre + Disturb(s) + post != pre + s + post
    ensures DifferOnlyIn(pre + Disturb(s) + post, pre + s + post, |pre|, 5)
    ensures Crc(pre + Disturb(s) + post) == Crc(pre + s + post)
  {
    hide Crc, Register, Disturb;
    assert (pre + Disturb(s) + post)[|pre|..|pre| + 5] == Disturb(s);
    assert (pre + s + post)[|pre|..|pre| + 5] == s;
    SameWindow(pre, Disturb(s), s, post);
    DisturbUnseen(RegisterOf(pre), s);
  }

  lemma DisturbUnseen(r: bv32, s: seq<Byte>)
    requires |s| == 5
    ensures Register(r, Disturb(s)) == Register(r, s)
  {
    hide Register, FeedBits, Word, Steps, Xor;
    var t := Disturb(s);
    assert s == s[..1] + s[1..] && t == t[..1] + t[1..];
    RegisterConcat(r, s[..1], s[1..]);
    RegisterConcat(r, t[..1], t[1..]);
    FeedWord(r, s[..1]);
    FeedWord(r, t[..1]);
    FeedWord(Register(r, s[..1]), s[1..]);
    FeedWord(Register(r, t[..1]), t[1..]);
    DisturbFirst(r, s);
    DisturbRest(s);
    var p, w := Steps(Xor(r, Word(s[..1])), 8), Word(s[1..]);
    XorSwap(p, 0x7707_3096, w, 0x7707_3096);
    XorCancels(0x7707_3096, 0);
    XorCancels(Xor(p, w), 0);
  }

  lemma DisturbFirst(r: bv32, s: seq<Byte>)
    requires |s| == 5
    ensures Steps(Xor(r, Word(Disturb(s)[..1])), 8) == Xor(Steps(Xor(r, Word(s[..1])), 8), 0x7707_3096)
  {
    hide Steps, Xor;
    var x := Word(s[..1]);
    assert Word(Disturb(s)[..1]) == Xor(x, 1) by { FirstByte(s[0]); OneByte(s[..1]); OneByte(Disturb(s)[..1]); }
    XorAssociative(r, x, 1);
    StepsXor(Xor(r, x), 1, 8);
    TableOfOne();
  }

  lemma OneByte(s: seq<Byte>)
    requires |s| == 1
    ensures Word(s) == s[0] as bv32
  {
    assert s[1..] == [];
    UpZero(s[0]);
  }

  lemma UpZero(b: Byte)
    ensures Xor(b as bv32, Up(0)) == b as bv32
  {
  }

  lemma FirstByte(b: Byte)
    ensures (b ^ 0x01) as bv32 == Xor(b as bv32, 1)
  {
  }

  /** The table entry for 1. */
  lemma TableOfOne()
    ensures Steps(1, 8) == 0x7707_3096
  {
    assert Steps(1, 8) == Steps(0xedb8_8320, 7);
    assert Steps(0xedb8_8320, 7) == Steps(0x3b6e_20c8, 5);
    assert Steps(0x3b6e_20c8, 5) == Steps(0x0edb_8832, 3);
    assert Steps(0x0edb_8832, 3) == Steps(0xee0e_612c, 1);
  }

  lemma DisturbRest(s: seq<Byte>)
    requires |s| == 5
    ensures Word(Disturb(s)[1..]) == Xor(Word(s[1..]), 0x7707_3096)
  {
    var t := Disturb(s);
    FourBytes(s[1..]);
    FourBytes(t[1..]);
  }

  lemma FourBytes(s: seq<Byte>)
    requires |s| == 4
    ensures Word(s) == Xor(s[0] as bv32, Up(Xor(s[1] as bv32, Up(Xor(s[2] as bv32, Up(s[3] as bv32))))))
  {
    hide Xor, Up;
    var s1, s2, s3 := s[1..], s[2..], s[3..];
    assert s1[1..] == s2 && s2[1..] == s3;
    OneByte(s3);
    assert Word(s2) == Xor(s[2] as bv32, Up(Word(s3)));
    assert Word(s1) == Xor(s[1] as bv32, Up(Word(s2)));
  }
}
