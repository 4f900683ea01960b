/** The script of KeywordLookupGenerator.py from the parsed table to the printed function. */
module KeywordGenerator {
  import opened Basics
  import opened KeywordCompare
  import opened KeywordCode
  import opened KeywordFit
  import opened KeywordCorrectness
  import opened KeywordTrieNode
  import T = KeywordTrie

  type Table = T.Table

  // ----- Which programs compile -----

  /** The line uses no comparison that the printed macros lack. */
  predicate HasMacro(line: Line) {
    line.If? || line.ElseIf? ==> 1 <= |line.test.text| <= 8
  }

  ghost predicate Compiles(lines: seq<Line>) {
    forall i :: 0 <= i < |lines| ==> HasMacro(lines[i])
  }

  lemma CompilesConcat(a: seq<Line>, b: seq<Line>)
    ensures Compiles(a + b) <==> Compiles(a) && Compiles(b)
  {
    if Compiles(a + b) {
      forall i | 0 <= i < |a| ensures HasMacro(a[i]) { assert HasMacro((a + b)[i]); }
      forall i | 0 <= i < |b| ensures HasMacro(b[i]) { assert HasMacro((a + b)[|a| + i]); }
    }
  }

  ghost predicate ArmsFit(f: Filled, i: nat) {
    forall j :: i <= j < |f.keys| ==> |f.keys[j].prefix| <= 8 && EdgesFit(f.keys[j])
  }

  /** The printed code names an existing macro for every comparison exactly when no edge has more than eight units. */
  lemma {:induction false} LinesCompile(f: Filled)
    requires Linked(f)
    ensures Compiles(Lines(f)) <==> EdgesFit(f)
    decreases f, 2 * |f.keys| + 2
  {
    var accept := if f.value.Some? then [Accept(|f.fullPrefix|, f.value.value)] else [];
    assert Lines(f) == accept + ArmLines(f, 0);
    CompilesConcat(accept, ArmLines(f, 0));
    assert Compiles(accept);
    ArmLinesCompile(f, 0);
  }

  lemma {:induction false} ArmLinesCompile(f: Filled, i: nat)
    requires Linked(f) && i <= |f.keys|
    ensures Compiles(ArmLines(f, i)) <==> ArmsFit(f, i)
    decreases f, 2 * (|f.keys| - i) + 1
  {
    if i < |f.keys| {
      var first := [if i == 0 then If(Edge(f, i)) else ElseIf(Edge(f, i))];
      CompilesConcat(first + Lines(f.keys[i]), AfterArm(f, i));
      CompilesConcat(first, Lines(f.keys[i]));
      assert Compiles(first) <==> HasMacro(first[0]);
      LinesCompile(f.keys[i]);
      if i + 1 == |f.keys| {
        assert Compiles([EndIf]);
      } else {
        ArmLinesCompile(f, i + 1);
      }
    }
  }

  /** Whatever the order of siblings, the code printed for a table compiles exactly when its keys have no long gap. */
  lemma {:induction false} CompilesExactly(table: Table, f: Filled)
    requires Arranges(T.Compiled(table), [], f)
    ensures Linked(f) && (Compiles(Program(f)) <==> ShortGaps(Keywords(table)))
  {
    hide Arranges, Linked, Lines, EdgesFit, ShortGaps, Compiles, Keywords;
    ArrangedIsLinked(T.Compiled(table), [], f);
    GeneratedCompiles(f);
    EdgesFitExactly(table, f);
  }

  /** A table of one line gives code that compiles exactly if its key has at most eight units. */
  lemma {:induction false} OneLineCompiles(k: Text, v: T.Token, f: Filled)
    requires Arranges(T.Compiled([(k, v)]), [], f)
    ensures Linked(f) && (Compiles(Program(f)) <==> |k| <= 8)
  {
    hide Arranges, Linked, Lines, ShortGaps, Compiles, Keywords;
    CompilesExactly([(k, v)], f);
    OneLine(k, v);
  }

  /** The nine letters of "interface". */
  const Interface: Text := ['i' as int, 'n' as int, 't' as int, 'e' as int, 'r' as int, 'f' as int, 'a' as int, 'c' as int, 'e' as int]

  /** The generator accepts a table with that one key and prints a comparison that has no macro. */
  lemma {:induction false} InterfaceLacksMacro(f: Filled)
    requires Arranges(T.Compiled([(Interface, "RESERVED")]), [], f)
    ensures Linked(f) && !Compiles(Program(f))
  {
    OneLineCompiles(Interface, "RESERVED", f);
  }

  // ----- The script -----

  /** What the printed function promises its callers about any text long enough for it. */
  ghost predicate LooksUp(table: Table, maxTokenLength: nat, lines: seq<Line>, env: Env, code: Text) {
    T.TableOver(table, KeywordUnit(env)) && Fits(env.kind, code) && |code| >= maxTokenLength ==>
      && Run(env, lines, code) != Fault
      && forall n, v :: Run(env, lines, code) == Returned(v, n) <==> IsKeyword(env, table, code, n, v)
  }

  /** Inserts the table, coalesces the root, fills it out and prints it. */
  method Generate(table: Table, w: Weights) returns (maxTokenLength: nat, lines: seq<Line>, ghost f: Filled)
    ensures Arranges(T.Compiled(table), [], f) && Weighted(f, w)
    ensures Linked(f) && lines == Program(f) && maxTokenLength == MaxTokenLength(f)
    ensures Compiles(lines) <==> ShortGaps(Keywords(table))
    ensures Compiles(lines) ==> forall env, code :: LooksUp(table, maxTokenLength, lines, env, code)
  {
    hide Arranges, Linked, Weighted, Lines, Longest, EdgesFit, ShortGaps, Compiles, LooksUp;
    hide T.Compiled, T.WellKeyed;
    var root := BuildRoot(table);
    var filled := root.FillOut([], w);
    f := filled;
    CompilesExactly(table, filled);
    lines := PrintSubTree(filled);
    lines := lines + [ReturnIdent];
    var longest := MaxLength(filled);
    maxTokenLength := longest + 1;
    EdgesFitExactly(table, filled);
    if EdgesFit(filled) {
      forall env, code ensures LooksUp(table, maxTokenLength, lines, env, code) {
        GeneratedLooksUp(table, filled, env, code);
      }
    }
  }

  /** Inserts the lines one after the other into a new root. */
  method InsertAll(table: Table) returns (root: TrieNode)
    ensures root.Valid() && root.View == T.Build(table)
    ensures fresh(root.Repr)
  {
    root := new TrieNode([]);
    for i := 0 to |table|
      invariant root.Valid() && fresh(root.Repr) && root.View == T.Build(table[..i])
    {
      root.Insert(table[i].0, table[i].1);
      assert table[..i + 1][..i] == table[..i];
    }
    assert table[..|table|] == table;
  }

  /** The root after `coalesce`, whose return value is dropped. */
  method BuildRoot(table: Table) returns (root: TrieNode)
    ensures root.Valid() && root.View == T.Compiled(table) && T.WellKeyed(root.View)
    ensures fresh(root.Repr)
  {
    hide T.Build, T.Compiled, T.CoalesceChildren, T.WellKeyed, T.Uncoalesced, T.Live;
    root := InsertAll(table);
    T.BuildShape(table);
    T.UncoalescedIsWellKeyed(root.View);
    var dropped := root.Coalesce();
    T.CompiledIs(table);
  }

  lemma GeneratedCompiles(f: Filled)
    requires Linked(f)
    ensures Compiles(Program(f)) <==> EdgesFit(f)
  {
    LinesCompile(f);
    CompilesConcat(Lines(f), [ReturnIdent]);
  }

  lemma GeneratedLooksUp(table: Table, f: Filled, env: Env, code: Text)
    requires Linked(f) && Arranges(T.Compiled(table), [], f) && EdgesFit(f)
    ensures LooksUp(table, MaxTokenLength(f), Program(f), env, code)
  {
    hide T.TableOver, Fits, Linked, Arranges, EdgesFit, Program, Run, IsKeyword, Longest, T.Compiled;
    if T.TableOver(table, KeywordUnit(env)) && Fits(env.kind, code) && |code| >= MaxTokenLength(f) {
      ProgramCorrect(env, table, f, code);
    }
  }
}
