/**
 Compiler correctness for KeywordLookupGenerator.py: running the printed lines is the
 table lookup, on every machine, for every order the siblings were printed in, and
 without reading past maxTokenLength.
 */
module KeywordCorrectness {
  import opened Basics
  import opened KeywordTrie
  import opened KeywordCompare
  import opened KeywordLexer
  import opened KeywordCode

  // ----- Skipping is over whole printed subtrees -----

  lemma {:induction false} SkipArmLines(f: Filled, rest: seq<Line>, depth: nat)
    requires Linked(f)
    ensures SkipArm(Lines(f) + rest, depth) == SkipArm(rest, depth)
    decreases f, 2 * |f.keys| + 2
  {
    hide Lines, ArmLines, AfterArm;
    LinesShape(f, rest);
    if f.keys != [] {
      ArmShape(f, 0, rest);
      SkipArmTail(f, 0, rest, depth + 1);
    }
  }

  /** From just inside arm `i` of an open chain, at a depth that does not stop there. */
  lemma {:induction false} SkipArmTail(f: Filled, i: nat, rest: seq<Line>, depth: nat)
    requires Linked(f) && i < |f.keys| && depth > 0
    ensures SkipArm(Lines(f.keys[i]) + (AfterArm(f, i) + rest), depth) == SkipArm(rest, depth - 1)
    decreases f, 2 * (|f.keys| - i)
  {
    SkipArmLines(f.keys[i], AfterArm(f, i) + rest, depth);
    if i + 1 == |f.keys| {
      assert ([EndIf] + rest)[1..] == rest;
    } else {
      ArmShape(f, i + 1, rest);
      SkipArmTail(f, i + 1, rest, depth);
    }
  }

  lemma {:induction false} SkipChainLines(f: Filled, rest: seq<Line>, depth: nat)
    requires Linked(f)
    ensures SkipChain(Lines(f) + rest, depth) == SkipChain(rest, depth)
    decreases f, 2 * |f.keys| + 2
  {
    hide Lines, ArmLines, AfterArm;
    LinesShape(f, rest);
    if f.keys != [] {
      ArmShape(f, 0, rest);
      SkipChainTail(f, 0, rest, depth + 1);
    }
  }

  lemma {:induction false} SkipChainTail(f: Filled, i: nat, rest: seq<Line>, depth: nat)
    requires Linked(f) && i < |f.keys|
    ensures SkipChain(Lines(f.keys[i]) + (AfterArm(f, i) + rest), depth)
         == if depth == 0 then rest else SkipChain(rest, depth - 1)
    decreases f, 2 * (|f.keys| - i)
  {
    SkipChainLines(f.keys[i], AfterArm(f, i) + rest, depth);
    if i + 1 == |f.keys| {
      assert ([EndIf] + rest)[1..] == rest;
    } else {
      ArmShape(f, i + 1, rest);
      SkipChainTail(f, i + 1, rest, depth);
    }
  }

  lemma LinesShape(f: Filled, rest: seq<Line>)
    requires Linked(f)
    ensures var all, arms := Lines(f) + rest, ArmLines(f, 0) + rest;
            && (f.value.Some? ==> all != [] && all[0] == Accept(|f.fullPrefix|, f.value.value) && all[1..] == arms)
            && (f.value.None? ==> all == arms)
            && (f.keys == [] ==> arms == rest)
  {
    if f.value.Some? {
      assert Lines(f) + rest == [Accept(|f.fullPrefix|, f.value.value)] + (ArmLines(f, 0) + rest);
    }
  }

  lemma ArmShape(f: Filled, i: nat, rest: seq<Line>)
    requires Linked(f) && i < |f.keys|
    ensures var all := ArmLines(f, i) + rest;
            && all != []
            && all[0] == (if i == 0 then If(Edge(f, i)) else ElseIf(Edge(f, i)))
            && all[1..] == Lines(f.keys[i]) + (AfterArm(f, i) + rest)
  {
    var first := if i == 0 then If(Edge(f, i)) else ElseIf(Edge(f, i));
    assert Arm(f, i) == [first] + Lines(f.keys[i]);
    assert ArmLines(f, i) == Arm(f, i) + AfterArm(f, i);
    assert ArmLines(f, i) + rest == [first] + (Lines(f.keys[i]) + (AfterArm(f, i) + rest));
  }

  // ----- The flat lines run like the tree -----

  lemma {:induction false} RunLines(env: Env, f: Filled, rest: seq<Line>, code: Text)
    requires Fits(env.kind, code) && Linked(f)
    ensures Run(env, Lines(f) + rest, code) == Then(Decide(env, f, code), Run(env, rest, code))
    decreases f, 2 * |f.keys| + 2
  {
    hide Lines, ArmLines, AfterArm;
    LinesShape(f, rest);
    if f.keys != [] {
      ArmShape(f, 0, rest);
      BranchArm(env, f, 0, rest, code);
    }
  }

  lemma {:induction false} BranchArm(env: Env, f: Filled, i: nat, rest: seq<Line>, code: Text)
    requires Fits(env.kind, code) && Linked(f) && i < |f.keys|
    ensures Branch(env, Edge(f, i), Lines(f.keys[i]) + (AfterArm(f, i) + rest), code)
         == Then(DecideArms(env, f, i, code), Run(env, rest, code))
    decreases f, 2 * (|f.keys| - i)
  {
    var after := AfterArm(f, i) + rest;
    if i + 1 == |f.keys| {
      assert after[1..] == rest;
    } else {
      ArmShape(f, i + 1, rest);
      SkipChainTail(f, i + 1, rest, 0);
    }
    match RunTest(env, Edge(f, i), code) {
      case None =>
      case Some(true) =>
        RunLines(env, f.keys[i], after, code);
      case Some(false) =>
        SkipArmLines(f.keys[i], after, 0);
        if i + 1 < |f.keys| {
          BranchArm(env, f, i + 1, rest, code);
        }
    }
  }

  // ----- The tree finds what the trie leads to -----

  /** The token printed for `code` below node `f`: the text up to `n` leads to `v` and no identifier part follows. */
  ghost predicate Qualifies(env: Env, f: Filled, code: Text, n: nat, v: Token) {
    && |f.fullPrefix| <= n < |code|
    && Leads(f, code[|f.fullPrefix|..n], v)
    && !IsIdentPartIncludingEscape(env.isIdentPart, code, n)
  }

  /** The text read so far is the node's full prefix. */
  ghost predicate Matched(f: Filled, code: Text) {
    f.fullPrefix <= code
  }

  /** Keywords are spelled with ASCII units that may stand in an identifier. */
  ghost function KeywordUnit(env: Env): CodeUnit -> bool {
    (c: CodeUnit) => IsAscii(c) && env.isIdentPart(c)
  }

  /** What the printed code relies on below a node. */
  ghost predicate Printable(env: Env, f: Filled) {
    Linked(f) && EdgesFit(f) && FilledOver(f, KeywordUnit(env))
  }

  lemma PrintableChild(env: Env, f: Filled, i: nat)
    requires Printable(env, f) && i < |f.keys|
    ensures Printable(env, f.keys[i])
    ensures 1 <= |f.keys[i].prefix| <= 8 && AllUnits(f.keys[i].prefix, KeywordUnit(env))
    ensures f.keys[i].fullPrefix == f.fullPrefix + f.keys[i].prefix
  {
  }

  lemma LongestChild(f: Filled, i: nat)
    requires i < |f.keys|
    ensures Longest(f.keys[i]) <= Longest(f)
  {
    LongestOfCovers(f.keys, |f.fullPrefix|, i);
  }

  lemma LongestSelf(f: Filled)
    ensures |f.fullPrefix| <= Longest(f)
  {
    if f.keys != [] { LongestOfCovers(f.keys, |f.fullPrefix|, 0); }
  }

  lemma MatchedAt(full: Text, k: Text, code: Text)
    requires full <= code && |full| + |k| <= |code|
    ensures full + k <= code <==> At(code, |full|, k)
  {
    var n := |full|;
    assert code[..n + |k|] == code[..n] + code[n..n + |k|];
  }

  /** Comparing one unit more, already known to match, decides the same thing. */
  lemma WidenedAt(full: Text, k: Text, code: Text)
    requires full != [] && full <= code && |full| + |k| <= |code|
    ensures At(code, |full| - 1, [full[|full| - 1]] + k) <==> At(code, |full|, k)
  {
    var n := |full|;
    var wide := [full[n - 1]] + k;
    AtSplit(code, n - 1, wide, 1);
    assert wide[..1] == [full[n - 1]] && wide[1..] == k;
    assert code[n - 1..n] == [code[n - 1]] == [full[n - 1]];
  }

  /** The printed comparison, widened or not, decides whether the child's full prefix is there. */
  lemma {:induction false} EdgeDecides(env: Env, f: Filled, i: nat, code: Text)
    requires Fits(env.kind, code) && Printable(env, f) && i < |f.keys|
    requires Matched(f, code) && |f.keys[i].fullPrefix| <= |code|
    requires AllUnits(f.fullPrefix, KeywordUnit(env))
    ensures RunTest(env, Edge(f, i), code) == Some(Matched(f.keys[i], code))
  {
    PrintableChild(env, f, i);
    MatchedAt(f.fullPrefix, f.keys[i].prefix, code);
    if f.fullPrefix != [] && |f.keys[i].prefix| == 3 {
      WidenedAt(f.fullPrefix, f.keys[i].prefix, code);
    }
    var edge := Edge(f, i);
    assert AllUnits(edge.text, KeywordUnit(env));
    ExpandCompares(env.machine, env.kind, code, edge.base, edge.text);
  }

  /** Going down to the child whose prefix comes next, or staying at the node. */
  lemma QualifiesStep(env: Env, f: Filled, code: Text, n: nat, v: Token)
    requires Linked(f) && Matched(f, code)
    ensures Qualifies(env, f, code, n, v) <==>
            || (n == |f.fullPrefix| < |code| && f.value == Some(v) && !IsIdentPartIncludingEscape(env.isIdentPart, code, n))
            || exists i :: 0 <= i < |f.keys| && Matched(f.keys[i], code) && Qualifies(env, f.keys[i], code, n, v)
  {
    forall i | 0 <= i < |f.keys|
      ensures Matched(f.keys[i], code) && Qualifies(env, f.keys[i], code, n, v) <==>
              && |f.fullPrefix| <= n < |code| && !IsIdentPartIncludingEscape(env.isIdentPart, code, n)
              && var s := code[|f.fullPrefix|..n]; f.keys[i].prefix <= s && Leads(f.keys[i], s[|f.keys[i].prefix|..], v)
    {
      ChildQualifies(env, f, i, code, n, v);
    }
  }

  lemma ChildQualifies(env: Env, f: Filled, i: nat, code: Text, n: nat, v: Token)
    requires Linked(f) && Matched(f, code) && i < |f.keys|
    ensures Matched(f.keys[i], code) && Qualifies(env, f.keys[i], code, n, v) <==>
              && |f.fullPrefix| <= n < |code| && !IsIdentPartIncludingEscape(env.isIdentPart, code, n)
              && var s := code[|f.fullPrefix|..n]; f.keys[i].prefix <= s && Leads(f.keys[i], s[|f.keys[i].prefix|..], v)
  {
    var full, k := f.fullPrefix, f.keys[i].prefix;
    if |full| + |k| <= n < |code| {
      var s := code[|full|..n];
      MatchedAt(full, k, code);
      assert s[..|k|] == code[|full|..|full| + |k|];
      assert s[|k|..] == code[|full| + |k|..n];
    }
  }

  /** Two children cannot both come next. */
  lemma OneChild(f: Filled, i: nat, j: nat, code: Text)
    requires Linked(f) && i < |f.keys| && j < |f.keys|
    requires Matched(f.keys[i], code) && Matched(f.keys[j], code)
    ensures i == j
  {
    var n := |f.fullPrefix|;
    assert f.keys[i].prefix[0] == f.keys[i].fullPrefix[n] == code[n] == f.keys[j].fullPrefix[n] == f.keys[j].prefix[0];
  }

  ghost predicate Finds(env: Env, d: Decision, f: Filled, code: Text) {
    && d != Crash
    && forall n, v :: d == Return(v, n) <==> Qualifies(env, f, code, n, v)
  }

  lemma {:induction false} DecideFinds(env: Env, f: Filled, code: Text)
    requires Fits(env.kind, code) && Printable(env, f) && Matched(f, code) && Longest(f) < |code|
    requires AllUnits(f.fullPrefix, KeywordUnit(env))
    ensures Finds(env, Decide(env, f, code), f, code)
    decreases f, 2 * |f.keys| + 2
  {
    LongestSelf(f);
    DecideArmsFinds(env, f, 0, code);
    var d := Decide(env, f, code);
    forall n, v ensures d == Return(v, n) <==> Qualifies(env, f, code, n, v) {
      QualifiesStep(env, f, code, n, v);
      if i :| 0 <= i < |f.keys| && Matched(f.keys[i], code) && Qualifies(env, f.keys[i], code, n, v) {
        PrintableChild(env, f, i);
        assert code[|f.fullPrefix|] == f.keys[i].fullPrefix[|f.fullPrefix|] == f.keys[i].prefix[0];
        assert KeywordUnit(env)(f.keys[i].prefix[0]);
      }
    }
  }

  lemma {:induction false} DecideArmsFinds(env: Env, f: Filled, i: nat, code: Text)
    requires Fits(env.kind, code) && Printable(env, f) && Matched(f, code) && Longest(f) < |code| && i <= |f.keys|
    requires AllUnits(f.fullPrefix, KeywordUnit(env))
    ensures var d := DecideArms(env, f, i, code);
            && d != Crash
            && forall n, v :: d == Return(v, n) <==>
                 exists j :: i <= j < |f.keys| && Matched(f.keys[j], code) && Qualifies(env, f.keys[j], code, n, v)
    decreases f, 2 * (|f.keys| - i) + 1
  {
    if i < |f.keys| {
      LongestChild(f, i);
      LongestSelf(f.keys[i]);
      EdgeDecides(env, f, i, code);
      if Matched(f.keys[i], code) {
        PrintableChild(env, f, i);
        DecideFinds(env, f.keys[i], code);
        forall j | i <= j < |f.keys| && Matched(f.keys[j], code) ensures i == j { OneChild(f, i, j, code); }
      } else {
        DecideArmsFinds(env, f, i + 1, code);
      }
    }
  }

  // ----- The whole compiler -----

  /** `v` is the keyword token for `code`, taking `n` units: the specification of parseKeyword. */
  ghost predicate IsKeyword(env: Env, table: Table, code: Text, n: nat, v: Token) {
    && n < |code|
    && LastValue(table, code[..n]) == Some(v)
    && !IsIdentPartIncludingEscape(env.isIdentPart, code, n)
  }

  lemma CompiledPrintable(env: Env, table: Table, f: Filled)
    requires TableOver(table, KeywordUnit(env))
    requires Arranges(Compiled(table), [], f) && EdgesFit(f)
    ensures Printable(env, f) && f.fullPrefix == []
  {
    CompiledOver(table, KeywordUnit(env));
    ArrangedIsLinked(Compiled(table), [], f);
    ArrangedOver(Compiled(table), [], f, KeywordUnit(env));
  }

  lemma QualifiesIsKeyword(env: Env, table: Table, f: Filled, code: Text, n: nat, v: Token)
    requires Arranges(Compiled(table), [], f)
    ensures Qualifies(env, f, code, n, v) <==> IsKeyword(env, table, code, n, v)
  {
    if n < |code| {
      assert code[0..n] == code[..n];
      ArrangedLeads(Compiled(table), [], f, code[..n], v);
      CompiledHolds(table, code[..n], v);
    }
  }

  lemma ProgramFinds(env: Env, f: Filled, code: Text)
    requires Printable(env, f) && f.fullPrefix == []
    requires Fits(env.kind, code) && |code| >= MaxTokenLength(f)
    ensures Run(env, Program(f), code) == Then(Decide(env, f, code), Ident)
    ensures Finds(env, Decide(env, f, code), f, code)
  {
    RunLines(env, f, [ReturnIdent], code);
    DecideFinds(env, f, code);
  }

  /**
   The printed function returns `v` and shifts `n` exactly when `v` is the keyword token of
   the first `n` units, and otherwise returns IDENT; it never reads past the end of a text
   of maxTokenLength units or more.
   */
  lemma {:induction false} ProgramCorrect(env: Env, table: Table, f: Filled, code: Text)
    requires TableOver(table, KeywordUnit(env))
    requires Arranges(Compiled(table), [], f) && EdgesFit(f)
    requires Fits(env.kind, code) && |code| >= MaxTokenLength(f)
    ensures Linked(f)
    ensures Run(env, Program(f), code) != Fault
    ensures forall n, v :: Run(env, Program(f), code) == Returned(v, n) <==> IsKeyword(env, table, code, n, v)
  {
    CompiledPrintable(env, table, f);
    ProgramFinds(env, f, code);
    var d := Decide(env, f, code);
    forall n, v ensures d == Return(v, n) <==> IsKeyword(env, table, code, n, v) {
      QualifiesIsKeyword(env, table, f, code, n, v);
    }
  }

  /** At most one keyword can qualify. */
  lemma {:induction false} KeywordUnique(env: Env, table: Table, code: Text, n: nat, v: Token, n': nat, v': Token)
    requires TableOver(table, KeywordUnit(env))
    requires IsKeyword(env, table, code, n, v) && IsKeyword(env, table, code, n', v')
    ensures n == n' && v == v'
  {
    if n < n' {
      NextIsIdentPart(env, table, code, n, n');
    } else if n' < n {
      NextIsIdentPart(env, table, code, n', n);
    }
  }

  lemma NextIsIdentPart(env: Env, table: Table, code: Text, n: nat, longer: nat)
    requires TableOver(table, KeywordUnit(env))
    requires n < longer <= |code| && LastValue(table, code[..longer]).Some?
    ensures IsIdentPartIncludingEscape(env.isIdentPart, code, n)
  {
    LastValueIs(table, code[..longer], LastValue(table, code[..longer]).value);
    var i :| 0 <= i < |table| && table[i].0 == code[..longer];
    assert KeywordUnit(env)(table[i].0[n]);
  }

  /** The order in which siblings were printed does not show in what the program does. */
  lemma {:induction false} OrderIrrelevant(env: Env, table: Table, f: Filled, g: Filled, code: Text)
    requires TableOver(table, KeywordUnit(env))
    requires Arranges(Compiled(table), [], f) && EdgesFit(f)
    requires Arranges(Compiled(table), [], g) && EdgesFit(g)
    requires Fits(env.kind, code) && |code| >= MaxTokenLength(f) && |code| >= MaxTokenLength(g)
    ensures Linked(f) && Linked(g)
    ensures Run(env, Program(f), code) == Run(env, Program(g), code)
  {
    ProgramCorrect(env, table, f, code);
    ProgramCorrect(env, table, g, code);
    var o := Run(env, Program(f), code);
    if o.Returned? {
      assert IsKeyword(env, table, code, o.shift, o.token);
    }
    var o' := Run(env, Program(g), code);
    if o'.Returned? {
      assert IsKeyword(env, table, code, o'.shift, o'.token);
    }
  }

  // ----- maxTokenLength is as small as it can be -----

  /** A comparison that reaches past the end of the text does not hold. */
  lemma EdgePastEnd(env: Env, f: Filled, i: nat, code: Text)
    requires Fits(env.kind, code) && Printable(env, f) && i < |f.keys| && |f.keys[i].fullPrefix| > |code|
    ensures RunTest(env, Edge(f, i), code) != Some(true)
  {
    PrintableChild(env, f, i);
    var edge := Edge(f, i);
    ExpandReach(env.machine, edge.base, edge.text);
    if RunTest(env, edge, code) == Some(true) {
      TrueFits(env.machine, env.kind, Expand(env.machine, edge.base, edge.text).value, code);
    }
  }

  /** On a text that ends with the keyword, the tree runs past the end. */
  lemma {:induction false} DecideCrashes(env: Env, f: Filled, code: Text, v: Token)
    requires Fits(env.kind, code) && Printable(env, f) && Matched(f, code) && AllUnits(code, KeywordUnit(env))
    requires Leads(f, code[|f.fullPrefix|..], v)
    ensures Decide(env, f, code) == Crash
    decreases f, 2 * |f.keys| + 2
  {
    var rest := code[|f.fullPrefix|..];
    if rest != [] {
      assert KeywordUnit(env)(code[|f.fullPrefix|]);
      var j :| 0 <= j < |f.keys| && f.keys[j].prefix <= rest && Leads(f.keys[j], rest[|f.keys[j].prefix|..], v);
      PrintableChild(env, f, j);
      MatchedAt(f.fullPrefix, f.keys[j].prefix, code);
      assert rest[..|f.keys[j].prefix|] == code[|f.fullPrefix|..|f.fullPrefix| + |f.keys[j].prefix|];
      assert code[|f.keys[j].fullPrefix|..] == rest[|f.keys[j].prefix|..];
      ArmsCrash(env, f, 0, j, code, v);
    } else {
      NoEmptyEdge(f, v);
    }
  }

  lemma NoEmptyEdge(f: Filled, v: Token)
    requires Linked(f) && Leads(f, [], v)
    ensures f.value == Some(v)
  {
  }

  lemma {:induction false} ArmsCrash(env: Env, f: Filled, i: nat, j: nat, code: Text, v: Token)
    requires Fits(env.kind, code) && Printable(env, f) && Matched(f, code) && AllUnits(code, KeywordUnit(env))
    requires i <= j < |f.keys| && Matched(f.keys[j], code) && Leads(f.keys[j], code[|f.keys[j].fullPrefix|..], v)
    ensures DecideArms(env, f, i, code) == Crash
    decreases f, 2 * (|f.keys| - i) + 1
  {
    hide Leads, RunTest, Edge;
    PrefixUnits(env, f, code);
    if |f.keys[i].fullPrefix| > |code| {
      EdgePastEnd(env, f, i, code);
    } else {
      EdgeDecides(env, f, i, code);
      if Matched(f.keys[i], code) { OneChild(f, i, j, code); }
    }
    if i == j {
      PrintableChild(env, f, j);
      DecideCrashes(env, f.keys[j], code, v);
    } else {
      ArmsCrash(env, f, i + 1, j, code, v);
    }
  }

  lemma PrefixUnits(env: Env, f: Filled, code: Text)
    requires Matched(f, code) && AllUnits(code, KeywordUnit(env))
    ensures AllUnits(f.fullPrefix, KeywordUnit(env))
  {
    forall i | 0 <= i < |f.fullPrefix| ensures KeywordUnit(env)(f.fullPrefix[i]) { assert code[i] == f.fullPrefix[i]; }
  }

  /** A text that is exactly a keyword makes the printed function read past its end. */
  lemma {:induction false} KeywordAloneFaults(env: Env, table: Table, f: Filled, k: Text)
    requires TableOver(table, KeywordUnit(env))
    requires Arranges(Compiled(table), [], f) && EdgesFit(f)
    requires Fits(env.kind, k) && LastValue(table, k).Some?
    ensures Linked(f) && Run(env, Program(f), k) == Fault
  {
    var v := LastValue(table, k).value;
    CompiledPrintable(env, table, f);
    RunLines(env, f, [ReturnIdent], k);
    CompiledHolds(table, k, v);
    ArrangedLeads(Compiled(table), [], f, k, v);
    LastValueIs(table, k, v);
    var i :| LastLine(table, k, v, i);
    assert k[0..] == k;
    DecideCrashes(env, f, k, v);
  }

  /** No dead ends in printing order either. */
  ghost predicate FilledLive(f: Filled) {
    forall i :: 0 <= i < |f.keys| ==> (f.keys[i].value.Some? || f.keys[i].keys != []) && FilledLive(f.keys[i])
  }

  lemma {:induction false} ArrangedLive(t: Trie, before: Text, f: Filled)
    requires Compact(t) && Arranges(t, before, f)
    ensures FilledLive(f) && (t.keys != map[] ==> f.keys != [])
    decreases f
  {
    if t.keys != map[] {
      var k :| k in t.keys;
      var i :| 0 <= i < |f.keys| && f.keys[i].prefix == k;
    }
    forall i | 0 <= i < |f.keys|
      ensures (f.keys[i].value.Some? || f.keys[i].keys != []) && FilledLive(f.keys[i])
    {
      ArrangedLive(t.keys[f.keys[i].prefix], f.fullPrefix, f.keys[i]);
    }
  }

  lemma {:induction false} LongestOfAttained(fs: seq<Filled>, least: nat) returns (i: int)
    ensures i == -1 ==> LongestOf(fs, least) == least
    ensures i != -1 ==> 0 <= i < |fs| && Longest(fs[i]) == LongestOf(fs, least)
  {
    i := -1;
    if fs != [] {
      var n := |fs| - 1;
      i := LongestOfAttained(fs[..n], least);
      if Longest(fs[n]) > LongestOf(fs[..n], least) { i := n; }
    }
  }

  /** The longest full prefix ends a text that leads to a token. */
  lemma {:induction false} LongestAttained(f: Filled) returns (s: Text, v: Token)
    requires Linked(f) && FilledLive(f) && (f.value.Some? || f.keys != [])
    ensures Leads(f, s, v) && |f.fullPrefix| + |s| == Longest(f)
    decreases f
  {
    if f.keys == [] {
      s, v := [], f.value.value;
    } else {
      var i := LongestOfAttained(f.keys, |f.fullPrefix|);
      if i == -1 {
        LongestOfCovers(f.keys, |f.fullPrefix|, 0);
        LongestSelf(f.keys[0]);
        assert false;
      }
      var kid := f.keys[i];
      var rest;
      rest, v := LongestAttained(kid);
      s := kid.prefix + rest;
      assert s[|kid.prefix|..] == rest;
    }
  }

  lemma CompiledNonEmpty(table: Table, f: Filled)
    requires table != [] && Arranges(Compiled(table), [], f)
    ensures f.value.Some? || f.keys != []
  {
    var k, v := table[|table| - 1].0, table[|table| - 1].1;
    CompiledHolds(table, k, v);
    ArrangedLeads(Compiled(table), [], f, k, v);
  }

  /** Some keyword is as long as the longest full prefix. */
  lemma LongestKeyword(table: Table, f: Filled) returns (k: Text)
    requires table != [] && Arranges(Compiled(table), [], f)
    ensures LastValue(table, k).Some? && |k| == Longest(f)
  {
    hide Arranges, Compiled, Compact, FilledLive, Longest, Holds, Leads;
    var t, v := Compiled(table), "";
    ArrangedIsLinked(t, [], f);
    RootPrefix(table, f);
    CompiledHolds(table, [], "");
    ArrangedLive(t, [], f);
    CompiledNonEmpty(table, f);
    k, v := LongestAttained(f);
    ArrangedLeads(t, [], f, k, v);
    CompiledHolds(table, k, v);
  }

  lemma RootPrefix(table: Table, f: Filled)
    requires Arranges(Compiled(table), [], f)
    ensures f.fullPrefix == []
  {
  }

  /** Texts of at least `bound` units are safe to look up. */
  ghost predicate SafeFrom(env: Env, f: Filled, bound: nat)
    requires Linked(f)
  {
    forall code :: Fits(env.kind, code) && |code| >= bound ==> Run(env, Program(f), code) != Fault
  }

  /** maxTokenLength is exactly the shortest length from which the printed function never reads past the end. */
  lemma {:induction false} MaxTokenLengthIsLeast(env: Env, table: Table, f: Filled, bound: nat)
    requires table != [] && TableOver(table, KeywordUnit(env))
    requires Arranges(Compiled(table), [], f) && EdgesFit(f)
    ensures Linked(f) && (SafeFrom(env, f, bound) <==> bound >= MaxTokenLength(f))
  {
    hide Arranges, Compiled, Longest, Run, Program, EdgesFit, KeywordUnit, TableOver;
    ArrangedIsLinked(Compiled(table), [], f);
    if bound >= MaxTokenLength(f) {
      forall code | Fits(env.kind, code) && |code| >= bound ensures Run(env, Program(f), code) != Fault {
        ProgramCorrect(env, table, f, code);
      }
    } else {
      var k := LongestKeyword(table, f);
      KeywordFits(env, table, k);
      KeywordAloneFaults(env, table, f, k);
    }
  }

  lemma KeywordFits(env: Env, table: Table, k: Text)
    requires TableOver(table, KeywordUnit(env)) && LastValue(table, k).Some?
    ensures Fits(env.kind, k)
  {
    LastValueIs(table, k, LastValue(table, k).value);
    var i :| 0 <= i < |table| && table[i].0 == k;
    forall j | 0 <= j < |k| ensures k[j] < env.kind.Bound() { assert KeywordUnit(env)(table[i].0[j]); assert IsAscii(k[j]); }
  }
}
