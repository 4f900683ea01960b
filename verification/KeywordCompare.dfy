/**
 The comparison macros that KeywordLookupGenerator.py prints ahead of the decision tree:
 what each macro expands to on each kind of processor, and why every expansion decides
 the same thing as comparing unit by unit.
 */
module KeywordCompare {
  import opened Basics

  /** The three ways the preprocessor conditions can come out. */
  datatype Machine = NeedsAlignedAccess | BigEndian | LittleEndian(x86_64: bool)

  /** `CHAR` macros compare LChar text, `UCHAR` macros compare UChar text. */
  datatype UnitKind = LChar | UChar {
    function Bytes(): nat { if LChar? then 1 else 2 }
    function Bound(): nat { if LChar? then 0x100 else 0x10000 }
  }

  /** Text that can be stored in the given kind of unit. */
  ghost predicate Fits(kind: UnitKind, code: Text) {
    forall i :: 0 <= i < |code| ==> code[i] < kind.Bound()
  }

  /** Characters that a C character literal spells as one non-negative value. */
  predicate IsAscii(c: CodeUnit) { c < 0x80 }

  // ----- Memory -----

  type Byte = b: int | 0 <= b < 0x100

  function UnitBytes(machine: Machine, kind: UnitKind, u: CodeUnit): (bytes: seq<Byte>)
    requires u < kind.Bound()
    ensures |bytes| == kind.Bytes()
  {
    if kind.LChar? then [u]
    else if machine.BigEndian? then [u / 0x100, u % 0x100]
    else [u % 0x100, u / 0x100]
  }

  function Memory(machine: Machine, kind: UnitKind, code: Text): (bytes: seq<Byte>)
    requires Fits(kind, code)
  {
    if code == [] then []
    else UnitBytes(machine, kind, code[0]) + Memory(machine, kind, code[1..])
  }

  /** The number an integer load yields for these bytes. */
  function Load(machine: Machine, bytes: seq<Byte>): (n: nat) {
    if bytes == [] then 0
    else if machine.BigEndian? then Load(machine, bytes[..|bytes| - 1]) * 0x100 + bytes[|bytes| - 1]
    else Load(machine, bytes[1..]) * 0x100 + bytes[0]
  }

  // ----- Macros -----

  /** CHARPAIR_TOUINT16 and UCHARPAIR_TOUINT32. */
  function PackPair(machine: Machine, kind: UnitKind, a: CodeUnit, b: CodeUnit): nat {
    if machine.BigEndian? then a * kind.Bound() + b else b * kind.Bound() + a
  }

  /** CHARQUAD_TOUINT32 and UCHARQUAD_TOUINT64, which only little-endian machines expand. */
  function PackQuad(machine: Machine, kind: UnitKind, a: CodeUnit, b: CodeUnit, c: CodeUnit, d: CodeUnit): nat {
    if kind.LChar? then PackPair(machine, kind, c, d) * 0x10000 + PackPair(machine, kind, a, b)
    else PackPair(machine, kind, c, d) * 0x1_0000_0000 + PackPair(machine, kind, a, b)
  }

  /** What a comparison expands to: reads of single units and of packed pairs or quads, joined by `&&`. */
  datatype Test =
    | UnitIs(at: nat, unit: CodeUnit)
    | PairIs(at: nat, a: CodeUnit, b: CodeUnit)
    | QuadIs(at: nat, a: CodeUnit, b: CodeUnit, c: CodeUnit, d: CodeUnit)
    | And(left: Test, right: Test)

  function Compare2(m: Machine, at: nat, a: CodeUnit, b: CodeUnit): Test {
    if m.NeedsAlignedAccess? then And(UnitIs(at, a), UnitIs(at + 1, b)) else PairIs(at, a, b)
  }

  function Compare4(m: Machine, at: nat, a: CodeUnit, b: CodeUnit, c: CodeUnit, d: CodeUnit): Test {
    if m.LittleEndian? && m.x86_64 then QuadIs(at, a, b, c, d)
    else And(Compare2(m, at, a, b), Compare2(m, at + 2, c, d))
  }

  /** The expansion of the comparison the generator prints; there is no macro for more than eight units. */
  function Expand(m: Machine, at: nat, k: Text): (t: Option<Test>)
    ensures t.Some? <==> 1 <= |k| <= 8
  {
    match |k|
    case 1 => Some(UnitIs(at, k[0]))
    case 2 => Some(Compare2(m, at, k[0], k[1]))
    case 3 => Some(And(Compare2(m, at, k[0], k[1]), UnitIs(at + 2, k[2])))
    case 4 => Some(Compare4(m, at, k[0], k[1], k[2], k[3]))
    case 5 => Some(And(Compare4(m, at, k[0], k[1], k[2], k[3]), UnitIs(at + 4, k[4])))
    case 6 => Some(And(Compare4(m, at, k[0], k[1], k[2], k[3]), Compare2(m, at + 4, k[4], k[5])))
    case 7 => Some(And(Compare4(m, at, k[0], k[1], k[2], k[3]), Compare4(m, at + 3, k[3], k[4], k[5], k[6])))
    case 8 => Some(And(Compare4(m, at, k[0], k[1], k[2], k[3]), Compare4(m, at + 4, k[4], k[5], k[6], k[7])))
    case _ => None
  }

  /** Evaluates a test with C's short-circuit `&&`; None is a read past the end of the text. */
  function Eval(m: Machine, kind: UnitKind, test: Test, code: Text): (r: Option<bool>)
    requires Fits(kind, code)
  {
    match test
    case UnitIs(at, u) =>
      if at < |code| then Some(code[at] == u) else None
    case PairIs(at, a, b) =>
      if at + 2 <= |code| then Some(Load(m, Memory(m, kind, code[at..at + 2])) == PackPair(m, kind, a, b)) else None
    case QuadIs(at, a, b, c, d) =>
      if at + 4 <= |code| then Some(Load(m, Memory(m, kind, code[at..at + 4])) == PackQuad(m, kind, a, b, c, d)) else None
    case And(left, right) =>
      var l := Eval(m, kind, left, code);
      if l == Some(true) then Eval(m, kind, right, code) else l
  }

  // ----- How far a test reads -----

  /** One past the last unit a test reads when all its parts hold. */
  function Reach(test: Test): nat {
    match test
    case UnitIs(at, _) => at + 1
    case PairIs(at, _, _) => at + 2
    case QuadIs(at, _, _, _, _) => at + 4
    case And(left, right) => if Reach(left) > Reach(right) then Reach(left) else Reach(right)
  }

  /** A test that holds has read all its units. */
  lemma {:induction false} TrueFits(m: Machine, kind: UnitKind, test: Test, code: Text)
    requires Fits(kind, code) && Eval(m, kind, test, code) == Some(true)
    ensures Reach(test) <= |code|
  {
    if test.And? {
      TrueFits(m, kind, test.left, code);
      TrueFits(m, kind, test.right, code);
    }
  }

  lemma ExpandReach(m: Machine, at: nat, k: Text)
    requires 1 <= |k| <= 8
    ensures Reach(Expand(m, at, k).value) == at + |k|
  {
    hide Compare2, Compare4;
    if |k| == 2 || |k| == 3 { Reach2(m, at, k[0], k[1]); }
    if |k| >= 4 { Reach4(m, at, k[0], k[1], k[2], k[3]); }
    if |k| == 6 { Reach2(m, at + 4, k[4], k[5]); }
    if |k| == 7 { Reach4(m, at + 3, k[3], k[4], k[5], k[6]); }
    if |k| == 8 { Reach4(m, at + 4, k[4], k[5], k[6], k[7]); }
  }

  lemma Reach2(m: Machine, at: nat, a: CodeUnit, b: CodeUnit)
    ensures Reach(Compare2(m, at, a, b)) == at + 2
  {
  }

  lemma Reach4(m: Machine, at: nat, a: CodeUnit, b: CodeUnit, c: CodeUnit, d: CodeUnit)
    ensures Reach(Compare4(m, at, a, b, c, d)) == at + 4
  {
    hide Compare2;
    Reach2(m, at, a, b);
    Reach2(m, at + 2, c, d);
  }

  // ----- Every expansion compares unit by unit -----

  lemma LoadTwo(m: Machine, a: Byte, b: Byte)
    ensures Load(m, [a, b]) == if m.BigEndian? then a * 0x100 + b else a + b * 0x100
  {
    assert Load(m, []) == 0;
    if m.BigEndian? {
      assert [a, b][..1] == [a] && [a][..0] == [];
      assert Load(m, [a]) == a;
    } else {
      assert [a, b][1..] == [b] && [b][1..] == [];
      assert Load(m, [b]) == b;
    }
  }

  lemma LoadFour(m: Machine, a: Byte, b: Byte, c: Byte, d: Byte)
    ensures Load(m, [a, b, c, d]) ==
            if m.BigEndian? then ((a * 0x100 + b) * 0x100 + c) * 0x100 + d
            else a + (b + (c + d * 0x100) * 0x100) * 0x100
  {
    var s := [a, b, c, d];
    if m.BigEndian? {
      assert s[..3] == [a, b, c] && [a, b, c][..2] == [a, b];
      LoadTwo(m, a, b);
    } else {
      assert s[1..] == [b, c, d] && [b, c, d][1..] == [c, d];
      LoadTwo(m, c, d);
    }
  }

  lemma MemoryTwo(m: Machine, kind: UnitKind, x: CodeUnit, y: CodeUnit)
    requires Fits(kind, [x, y])
    ensures x < kind.Bound() && y < kind.Bound()
    ensures Memory(m, kind, [x, y]) == UnitBytes(m, kind, x) + UnitBytes(m, kind, y)
  {
    assert [x, y][0] == x && [x, y][1] == y;
    assert [x, y][1..] == [y] && [y][1..] == [];
    assert Memory(m, kind, [y]) == UnitBytes(m, kind, y) + [];
  }

  lemma LoadPair(m: Machine, kind: UnitKind, x: CodeUnit, y: CodeUnit)
    requires Fits(kind, [x, y])
    ensures Load(m, Memory(m, kind, [x, y])) == PackPair(m, kind, x, y)
  {
    MemoryTwo(m, kind, x, y);
    if kind.LChar? {
      assert Memory(m, kind, [x, y]) == [x, y];
      LoadTwo(m, x, y);
    } else if m.BigEndian? {
      assert Memory(m, kind, [x, y]) == [x / 0x100, x % 0x100, y / 0x100, y % 0x100];
      LoadFour(m, x / 0x100, x % 0x100, y / 0x100, y % 0x100);
    } else {
      assert Memory(m, kind, [x, y]) == [x % 0x100, x / 0x100, y % 0x100, y / 0x100];
      LoadFour(m, x % 0x100, x / 0x100, y % 0x100, y / 0x100);
    }
  }

  /** On a little-endian machine a load is the first bytes plus the shifted rest. */
  lemma {:induction false} LoadConcat(m: Machine, s: seq<Byte>, t: seq<Byte>)
    requires !m.BigEndian?
    ensures Load(m, s + t) == Load(m, s) + Power256(|s|) * Load(m, t)
  {
    if s == [] {
      assert s + t == t;
    } else {
      LoadConcat(m, s[1..], t);
      assert (s + t)[1..] == s[1..] + t && (s + t)[0] == s[0];
      Shifted(Power256(|s| - 1), Load(m, t));
    }
  }

  lemma Shifted(p: nat, n: nat)
    ensures (0x100 * p) * n == 0x100 * (p * n)
  {
  }

  function Power256(n: nat): nat { if n == 0 then 1 else 0x100 * Power256(n - 1) }

  lemma LoadQuad(m: Machine, kind: UnitKind, w: CodeUnit, x: CodeUnit, y: CodeUnit, z: CodeUnit)
    requires Fits(kind, [w, x, y, z]) && !m.BigEndian?
    ensures Load(m, Memory(m, kind, [w, x, y, z])) == PackQuad(m, kind, w, x, y, z)
  {
    MemoryFour(m, kind, w, x, y, z);
    LoadPair(m, kind, w, x);
    LoadPair(m, kind, y, z);
    var front := Memory(m, kind, [w, x]);
    MemoryTwo(m, kind, w, x);
    LoadConcat(m, front, Memory(m, kind, [y, z]));
    if kind.LChar? {
      assert |front| == 2 && Power256(2) == 0x10000;
    } else {
      assert |front| == 4 && Power256(4) == 0x1_0000_0000;
    }
  }

  lemma MemoryFour(m: Machine, kind: UnitKind, w: CodeUnit, x: CodeUnit, y: CodeUnit, z: CodeUnit)
    requires Fits(kind, [w, x, y, z])
    ensures Fits(kind, [w, x]) && Fits(kind, [y, z])
    ensures Memory(m, kind, [w, x, y, z]) == Memory(m, kind, [w, x]) + Memory(m, kind, [y, z])
  {
    var s := [w, x, y, z];
    assert s[0] == w && s[1] == x && s[2] == y && s[3] == z;
    MemoryTwo(m, kind, w, x);
    assert s[1..] == [x, y, z] && [x, y, z][1..] == [y, z];
    assert Memory(m, kind, [x, y, z]) == UnitBytes(m, kind, x) + Memory(m, kind, [y, z]);
  }

  lemma PackPairInjective(m: Machine, kind: UnitKind, a: CodeUnit, b: CodeUnit, x: CodeUnit, y: CodeUnit)
    requires a < kind.Bound() && b < kind.Bound() && x < kind.Bound() && y < kind.Bound()
    ensures PackPair(m, kind, a, b) == PackPair(m, kind, x, y) <==> a == x && b == y
  {
  }

  lemma PackPairBound(m: Machine, kind: UnitKind, a: CodeUnit, b: CodeUnit)
    requires a < kind.Bound() && b < kind.Bound()
    ensures PackPair(m, kind, a, b) < if kind.LChar? then 0x10000 else 0x1_0000_0000
  {
  }

  lemma PackQuadInjective(kind: UnitKind, m: Machine, a: CodeUnit, b: CodeUnit, c: CodeUnit, d: CodeUnit,
                          w: CodeUnit, x: CodeUnit, y: CodeUnit, z: CodeUnit)
    requires a < kind.Bound() && b < kind.Bound() && c < kind.Bound() && d < kind.Bound()
    requires w < kind.Bound() && x < kind.Bound() && y < kind.Bound() && z < kind.Bound()
    ensures PackQuad(m, kind, a, b, c, d) == PackQuad(m, kind, w, x, y, z) <==> a == w && b == x && c == y && d == z
  {
    hide PackPair;
    PackPairInjective(m, kind, a, b, w, x);
    PackPairInjective(m, kind, c, d, y, z);
    PackPairBound(m, kind, a, b);
    PackPairBound(m, kind, w, x);
  }

  /** The text at `at` is `k`. */
  predicate At(code: Text, at: nat, k: Text)
    requires at + |k| <= |code|
  {
    code[at..at + |k|] == k
  }

  lemma {:induction false} EvalPair(m: Machine, kind: UnitKind, code: Text, at: nat, a: CodeUnit, b: CodeUnit)
    requires Fits(kind, code) && at + 2 <= |code| && a < kind.Bound() && b < kind.Bound()
    ensures Eval(m, kind, PairIs(at, a, b), code) == Some(code[at] == a && code[at + 1] == b)
  {
    var x, y := code[at], code[at + 1];
    assert code[at..at + 2] == [x, y];
    LoadPair(m, kind, x, y);
    PackPairInjective(m, kind, x, y, a, b);
  }

  lemma {:induction false} EvalQuad(m: Machine, kind: UnitKind, code: Text, at: nat, a: CodeUnit, b: CodeUnit, c: CodeUnit, d: CodeUnit)
    requires Fits(kind, code) && at + 4 <= |code| && !m.BigEndian?
    requires a < kind.Bound() && b < kind.Bound() && c < kind.Bound() && d < kind.Bound()
    ensures Eval(m, kind, QuadIs(at, a, b, c, d), code)
         == Some(code[at] == a && code[at + 1] == b && code[at + 2] == c && code[at + 3] == d)
  {
    var w, x, y, z := code[at], code[at + 1], code[at + 2], code[at + 3];
    assert code[at..at + 4] == [w, x, y, z];
    LoadQuad(m, kind, w, x, y, z);
    PackQuadInjective(kind, m, w, x, y, z, a, b, c, d);
  }

  lemma Eval2(m: Machine, kind: UnitKind, code: Text, at: nat, a: CodeUnit, b: CodeUnit)
    requires Fits(kind, code) && at + 2 <= |code| && a < kind.Bound() && b < kind.Bound()
    ensures Eval(m, kind, Compare2(m, at, a, b), code) == Some(code[at] == a && code[at + 1] == b)
  {
    if !m.NeedsAlignedAccess? { EvalPair(m, kind, code, at, a, b); }
  }

  lemma Eval4(m: Machine, kind: UnitKind, code: Text, at: nat, a: CodeUnit, b: CodeUnit, c: CodeUnit, d: CodeUnit)
    requires Fits(kind, code) && at + 4 <= |code|
    requires a < kind.Bound() && b < kind.Bound() && c < kind.Bound() && d < kind.Bound()
    ensures Eval(m, kind, Compare4(m, at, a, b, c, d), code)
         == Some(code[at] == a && code[at + 1] == b && code[at + 2] == c && code[at + 3] == d)
  {
    if m.LittleEndian? && m.x86_64 {
      EvalQuad(m, kind, code, at, a, b, c, d);
    } else {
      Eval2(m, kind, code, at, a, b);
      Eval2(m, kind, code, at + 2, c, d);
    }
  }

  /**
   Whatever the machine, the printed comparison of one to eight ASCII units stays inside
   the units it names and holds exactly when they are all there.
   */
  lemma {:induction false} ExpandCompares(m: Machine, kind: UnitKind, code: Text, at: nat, k: Text)
    requires Fits(kind, code) && 1 <= |k| <= 8 && at + |k| <= |code|
    requires forall i :: 0 <= i < |k| ==> IsAscii(k[i])
    ensures Eval(m, kind, Expand(m, at, k).value, code) == Some(At(code, at, k))
  {
    if |k| < 4 {
      AtSplit(code, at, k, 1);
      if |k| > 1 {
        Eval2(m, kind, code, at, k[0], k[1]);
        AtSplit(code, at, k, 2);
        AtTwo(code, at, k[..2]);
      }
    } else {
      Eval4(m, kind, code, at, k[0], k[1], k[2], k[3]);
      AtSplit(code, at, k, 4);
      AtFour(code, at, k[..4]);
      ExpandTail(m, kind, code, at, k);
    }
  }

  /** The second half of the comparisons of more than four units; the one of seven overlaps the first half. */
  lemma ExpandTail(m: Machine, kind: UnitKind, code: Text, at: nat, k: Text)
    requires Fits(kind, code) && 4 <= |k| <= 8 && at + |k| <= |code|
    requires forall i :: 0 <= i < |k| ==> IsAscii(k[i])
    requires Eval(m, kind, Compare4(m, at, k[0], k[1], k[2], k[3]), code) == Some(At(code, at, k[..4]))
    requires At(code, at, k) <==> At(code, at, k[..4]) && At(code, at + 4, k[4..])
    ensures Eval(m, kind, Expand(m, at, k).value, code) == Some(At(code, at, k))
  {
    hide Compare2, Compare4, At, Load, Memory, PackPair, PackQuad;
    if |k| == 4 {
      AtRest(code, at, k);
    } else if |k| == 5 {
      AtRest(code, at, k);
    } else if |k| == 6 {
      Eval2(m, kind, code, at + 4, k[4], k[5]);
      AtTwo(code, at + 4, k[4..]);
    } else if |k| == 7 {
      Eval4(m, kind, code, at + 3, k[3], k[4], k[5], k[6]);
      AtFour(code, at, k[..4]);
      AtSplit(code, at + 4, k[4..], 2);
      AtTwo(code, at + 4, k[4..][..2]);
    } else if |k| == 8 {
      Eval4(m, kind, code, at + 4, k[4], k[5], k[6], k[7]);
      AtFour(code, at + 4, k[4..]);
    }
  }

  lemma AtRest(code: Text, at: nat, k: Text)
    requires at + |k| <= |code| && 4 <= |k|
    ensures |k| == 4 ==> At(code, at + 4, k[4..])
    ensures |k| == 5 ==> (At(code, at + 4, k[4..]) <==> code[at + 4] == k[4])
  {
    if |k| == 5 { assert k[4..] == [k[4]] && code[at + 4..at + 5] == [code[at + 4]]; }
  }

  lemma AtSplit(code: Text, at: nat, k: Text, n: nat)
    requires at + |k| <= |code| && n <= |k|
    ensures At(code, at, k) <==> At(code, at, k[..n]) && At(code, at + n, k[n..])
    ensures |k| == 1 ==> (At(code, at, k) <==> code[at] == k[0])
    ensures n + 1 == |k| ==> (At(code, at + n, k[n..]) <==> code[at + n] == k[n])
  {
    var s := code[at..at + |k|];
    assert s[..n] == code[at..at + n] && s[n..] == code[at + n..at + |k|];
    assert k == k[..n] + k[n..] && s == s[..n] + s[n..];
    if n + 1 == |k| { assert k[n..] == [k[n]] && s[n..] == [code[at + n]]; }
    if |k| == 1 { assert k == [k[0]] && s == [code[at]]; }
  }

  lemma AtTwo(code: Text, at: nat, k: Text)
    requires at + |k| <= |code| && |k| == 2
    ensures At(code, at, k) <==> code[at] == k[0] && code[at + 1] == k[1]
  {
    assert code[at..at + 2] == [code[at], code[at + 1]] && k == [k[0], k[1]];
  }

  lemma AtFour(code: Text, at: nat, k: Text)
    requires at + |k| <= |code| && |k| == 4
    ensures At(code, at, k) <==> code[at] == k[0] && code[at + 1] == k[1] && code[at + 2] == k[2] && code[at + 3] == k[3]
  {
    AtSplit(code, at, k, 2);
    AtTwo(code, at, k[..2]);
    AtTwo(code, at + 2, k[2..]);
  }
}
