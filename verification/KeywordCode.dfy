/**
 The code KeywordLookupGenerator.py prints: a filled-out trie is printed as a flat list of
 lines, and an evaluator for those lines computes the lookup.
 */
module KeywordCode {
  import opened Basics
  import opened KeywordTrie
  import opened KeywordCompare
  import opened KeywordLexer

  /** A trie node after `fillOut`: its children are a list in printing order. */
  datatype Filled = Filled(prefix: Text, fullPrefix: Text, value: Option<Token>,
                           selfWeight: real, weight: real, keys: seq<Filled>)

  /** `f` is the trie `t`, reached after the text `before`, with its children listed in some order. */
  ghost predicate Arranges(t: Trie, before: Text, f: Filled)
    decreases f
  {
    && f.prefix == t.prefix && f.value == t.value && f.fullPrefix == before + t.prefix
    && (forall i :: 0 <= i < |f.keys| ==>
          f.keys[i].prefix in t.keys && Arranges(t.keys[f.keys[i].prefix], f.fullPrefix, f.keys[i]))
    && (forall k :: k in t.keys ==> exists i :: 0 <= i < |f.keys| && f.keys[i].prefix == k)
    && DistinctEdges(f.keys)
  }

  ghost predicate DistinctEdges(fs: seq<Filled>) {
    forall i, j :: 0 <= i < j < |fs| ==> fs[i].prefix != fs[j].prefix
  }

  // ----- Shape -----

  /** What printing relies on: full prefixes extend each other and siblings start differently. */
  ghost predicate Linked(f: Filled) {
    && (forall i :: 0 <= i < |f.keys| ==> Linked(f.keys[i]) && f.keys[i].prefix != [] &&
                                          f.keys[i].fullPrefix == f.fullPrefix + f.keys[i].prefix)
    && Apart(f.keys)
  }

  ghost predicate Apart(keys: seq<Filled>) {
    forall i, j :: 0 <= i < |keys| && 0 <= j < |keys| && i != j && keys[i].prefix != [] && keys[j].prefix != []
                   ==> keys[i].prefix[0] != keys[j].prefix[0]
  }

  ghost predicate FilledOver(f: Filled, p: CodeUnit -> bool) {
    forall i :: 0 <= i < |f.keys| ==> AllUnits(f.keys[i].prefix, p) && FilledOver(f.keys[i], p)
  }

  /** Every edge is short enough for a comparison macro. */
  ghost predicate EdgesFit(f: Filled) {
    forall i :: 0 <= i < |f.keys| ==> |f.keys[i].prefix| <= 8 && EdgesFit(f.keys[i])
  }

  lemma {:induction false} ArrangedIsLinked(t: Trie, before: Text, f: Filled)
    requires WellKeyed(t) && Arranges(t, before, f)
    ensures Linked(f)
    decreases f
  {
    forall i | 0 <= i < |f.keys| ensures Linked(f.keys[i]) {
      ArrangedIsLinked(t.keys[f.keys[i].prefix], f.fullPrefix, f.keys[i]);
    }
    ArrangedApart(t, before, f);
  }

  lemma ArrangedApart(t: Trie, before: Text, f: Filled)
    requires WellKeyed(t) && Arranges(t, before, f)
    ensures Apart(f.keys)
  {
    EdgesApart(f.keys, t.keys.Keys);
  }

  lemma EdgesApart(fs: seq<Filled>, ks: set<Text>)
    requires DistinctEdges(fs) && DistinctFirsts(ks) && forall i :: 0 <= i < |fs| ==> fs[i].prefix in ks
    ensures Apart(fs)
  {
    forall i, j | 0 <= i < |fs| && 0 <= j < |fs| && i != j && fs[i].prefix != [] && fs[j].prefix != []
      ensures fs[i].prefix[0] != fs[j].prefix[0]
    {
      assert fs[i].prefix != fs[j].prefix;
    }
  }

  lemma {:induction false} ArrangedOver(t: Trie, before: Text, f: Filled, p: CodeUnit -> bool)
    requires Over(t, p) && Arranges(t, before, f)
    ensures FilledOver(f, p)
    decreases f
  {
    forall i | 0 <= i < |f.keys| ensures FilledOver(f.keys[i], p) {
      ArrangedOver(t.keys[f.keys[i].prefix], f.fullPrefix, f.keys[i], p);
    }
  }

  // ----- Weights -----

  type Weights = map<Text, real>

  function WeightOf(w: Weights, s: Text): real { if s in w then w[s] else 0.0 }

  function SumWeights(fs: seq<Filled>): real {
    if fs == [] then 0.0 else SumWeights(fs[..|fs| - 1]) + fs[|fs| - 1].weight
  }

  ghost predicate Descending(fs: seq<Filled>) {
    forall i, j :: 0 <= i < j < |fs| ==> fs[i].weight >= fs[j].weight
  }

  /** Every node's weight is its own plus its children's, and heavier children come first. */
  ghost predicate Weighted(f: Filled, w: Weights) {
    && f.selfWeight == WeightOf(w, f.fullPrefix) && f.weight == f.selfWeight + SumWeights(f.keys)
    && Descending(f.keys)
    && forall i :: 0 <= i < |f.keys| ==> Weighted(f.keys[i], w)
  }

  /** All full prefixes in the subtree. */
  function Names(f: Filled): (names: seq<Text>)
    decreases f, 1
  {
    [f.fullPrefix] + NamesOf(f.keys)
  }

  function NamesOf(fs: seq<Filled>): (names: seq<Text>)
    decreases fs, 0
  {
    if fs == [] then [] else NamesOf(fs[..|fs| - 1]) + Names(fs[|fs| - 1])
  }

  /** What the weight table gives for a list of names. */
  function Total(w: Weights, names: seq<Text>): real {
    if names == [] then 0.0 else (if names[0] in w.Keys then w[names[0]] else 0.0) + Total(w, names[1..])
  }

  lemma {:induction false} TotalConcat(w: Weights, a: seq<Text>, b: seq<Text>)
    ensures Total(w, a + b) == Total(w, a) + Total(w, b)
  {
    if a == [] {
      assert a + b == b;
    } else {
      assert (a + b)[1..] == a[1..] + b;
      TotalConcat(w, a[1..], b);
    }
  }

  /** A node's weight is the sum of the table weights of the full prefixes in its subtree. */
  lemma {:induction false} WeightIsTotal(f: Filled, w: Weights)
    requires Weighted(f, w)
    ensures f.weight == Total(w, Names(f))
    decreases f, 1
  {
    SumIsTotal(f.keys, w);
    TotalConcat(w, [f.fullPrefix], NamesOf(f.keys));
    assert [f.fullPrefix][1..] == [];
  }

  lemma {:induction false} SumIsTotal(fs: seq<Filled>, w: Weights)
    requires forall i :: 0 <= i < |fs| ==> Weighted(fs[i], w)
    ensures SumWeights(fs) == Total(w, NamesOf(fs))
    decreases fs, 0
  {
    if fs != [] {
      var init, last := fs[..|fs| - 1], fs[|fs| - 1];
      SumIsTotal(init, w);
      WeightIsTotal(last, w);
      TotalConcat(w, NamesOf(init), Names(last));
    }
  }

  ghost predicate NewEdge(fs: seq<Filled>, x: Filled) {
    forall j :: 0 <= j < |fs| ==> fs[j].prefix != x.prefix
  }

  function InsertAt(fs: seq<Filled>, i: nat, x: Filled): (r: seq<Filled>)
    requires i <= |fs|
    ensures |r| == |fs| + 1 && r[i] == x
    ensures forall j :: 0 <= j < i ==> r[j] == fs[j]
    ensures forall j :: i < j < |r| ==> r[j] == fs[j - 1]
  {
    fs[..i] + [x] + fs[i..]
  }

  lemma InsertAtKeeps(fs: seq<Filled>, i: nat, x: Filled)
    requires i <= |fs|
    ensures multiset(InsertAt(fs, i, x)) == multiset(fs) + multiset{x}
    ensures DistinctEdges(fs) && NewEdge(fs, x) ==> DistinctEdges(InsertAt(fs, i, x))
  {
    assert fs == fs[..i] + fs[i..];
  }

  /** Inserting before the first lighter sibling. */
  method InsertByWeight(fs: seq<Filled>, x: Filled) returns (r: seq<Filled>)
    requires Descending(fs)
    ensures Descending(r) && multiset(r) == multiset(fs) + multiset{x}
    ensures SumWeights(r) == SumWeights(fs) + x.weight
    ensures DistinctEdges(fs) && NewEdge(fs, x) ==> DistinctEdges(r)
  {
    hide DistinctEdges, NewEdge;
    var i := 0;
    while i < |fs| && fs[i].weight >= x.weight
      invariant i <= |fs|
      invariant forall j :: 0 <= j < i ==> fs[j].weight >= x.weight
    {
      i := i + 1;
    }
    r := InsertAt(fs, i, x);
    InsertAtKeeps(fs, i, x);
    SumInsert(fs, i, x);
  }

  lemma {:induction false} SumInsert(fs: seq<Filled>, i: nat, x: Filled)
    requires i <= |fs|
    ensures SumWeights(InsertAt(fs, i, x)) == SumWeights(fs) + x.weight
  {
    var r := InsertAt(fs, i, x);
    if i == |fs| {
      assert r[..|r| - 1] == fs;
    } else {
      var init := fs[..|fs| - 1];
      SumInsert(init, i, x);
      assert r[..|r| - 1] == InsertAt(init, i, x);
    }
  }

  /** The sort at the end of `fillOut`: a permutation, heaviest first. */
  method SortByWeight(fs: seq<Filled>) returns (r: seq<Filled>)
    ensures multiset(r) == multiset(fs) && Descending(r)
    ensures SumWeights(r) == SumWeights(fs)
    ensures DistinctEdges(fs) ==> DistinctEdges(r)
  {
    hide Descending, DistinctEdges, NewEdge, SumWeights;
    r := [];
    SortStart();
    for i := 0 to |fs|
      invariant multiset(r) == multiset(fs[..i]) && Descending(r)
      invariant SumWeights(r) == SumWeights(fs[..i])
      invariant DistinctEdges(fs) ==> DistinctEdges(r)
    {
      SortStep(fs, i, r);
      r := InsertByWeight(r, fs[i]);
    }
    assert fs[..|fs|] == fs;
  }

  lemma SortStart()
    ensures Descending([]) && DistinctEdges([]) && SumWeights([]) == 0.0
  {
  }

  lemma SortStep(fs: seq<Filled>, i: nat, r: seq<Filled>)
    requires i < |fs| && multiset(r) == multiset(fs[..i])
    ensures SumWeights(fs[..i + 1]) == SumWeights(fs[..i]) + fs[i].weight
    ensures multiset(fs[..i + 1]) == multiset(fs[..i]) + multiset{fs[i]}
    ensures DistinctEdges(fs) ==> NewEdge(r, fs[i])
  {
    assert fs[..i + 1] == fs[..i] + [fs[i]];
    if DistinctEdges(fs) {
      forall j | 0 <= j < |r| ensures r[j].prefix != fs[i].prefix {
        assert r[j] in multiset(fs[..i]);
      }
    }
  }

  // ----- Collecting the children -----

  /** `list` is the filled-out children of `t`, except those under `todo`, in some order. */
  ghost predicate Collected(t: Trie, todo: set<Text>, full: Text, w: Weights, list: seq<Filled>) {
    && (forall i :: 0 <= i < |list| ==>
          && list[i].prefix in t.keys && list[i].prefix !in todo
          && Arranges(t.keys[list[i].prefix], full, list[i]) && Weighted(list[i], w))
    && (forall k :: k in t.keys && k !in todo ==> exists i :: 0 <= i < |list| && list[i].prefix == k)
    && DistinctEdges(list)
  }

  lemma CollectStart(t: Trie, full: Text, w: Weights)
    ensures Collected(t, t.keys.Keys, full, w, []) && SumWeights([]) == 0.0
  {
  }

  lemma CollectedDone(t: Trie, todo: set<Text>, full: Text, w: Weights, list: seq<Filled>)
    requires Collected(t, todo, full, w, list)
    ensures forall i :: 0 <= i < |list| ==> list[i].prefix in t.keys && list[i].prefix !in todo
  {
  }

  lemma CollectNext(t: Trie, todo: set<Text>, full: Text, w: Weights, list: seq<Filled>, k: Text, g: Filled)
    requires Collected(t, todo, full, w, list) && k in todo && k in t.keys && g.prefix == k
    requires Arranges(t.keys[k], full, g) && Weighted(g, w)
    ensures Collected(t, todo - {k}, full, w, list + [g])
    ensures SumWeights(list + [g]) == SumWeights(list) + g.weight
  {
    hide Arranges, Weighted;
    var next := list + [g];
    assert next[..|list|] == list;
    forall l | l in t.keys && l !in todo - {k} ensures exists i :: 0 <= i < |next| && next[i].prefix == l {
      if l == k {
        assert next[|list|].prefix == l;
      } else {
        var i :| 0 <= i < |list| && list[i].prefix == l;
        assert next[i].prefix == l;
      }
    }
  }

  lemma CollectedSorted(t: Trie, full: Text, w: Weights, list: seq<Filled>, sorted: seq<Filled>)
    requires Collected(t, {}, full, w, list) && multiset(sorted) == multiset(list)
    requires DistinctEdges(list) ==> DistinctEdges(sorted)
    ensures Collected(t, {}, full, w, sorted)
  {
    hide Arranges, Weighted, DistinctEdges;
    forall i | 0 <= i < |sorted|
      ensures sorted[i].prefix in t.keys && Arranges(t.keys[sorted[i].prefix], full, sorted[i]) && Weighted(sorted[i], w)
    {
      assert sorted[i] in multiset(list);
    }
    forall k | k in t.keys ensures exists i :: 0 <= i < |sorted| && sorted[i].prefix == k {
      var i :| 0 <= i < |list| && list[i].prefix == k;
      assert list[i] in multiset(sorted);
    }
  }

  lemma CollectedFills(t: Trie, before: Text, w: Weights, f: Filled)
    requires f.prefix == t.prefix && f.value == t.value && f.fullPrefix == before + t.prefix
    requires f.selfWeight == WeightOf(w, f.fullPrefix) && f.weight == f.selfWeight + SumWeights(f.keys)
    requires Collected(t, {}, f.fullPrefix, w, f.keys) && Descending(f.keys)
    ensures Arranges(t, before, f) && Weighted(f, w)
  {
    hide Descending, WeightOf, SumWeights;
    assert Weighted(f, w) by { hide Arranges; }
    assert Arranges(t, before, f) by { hide Weighted; }
  }

  // ----- Meaning of a filled-out trie -----

  ghost predicate Leads(f: Filled, s: Text, v: Token) {
    || (s == [] && f.value == Some(v))
    || exists i :: 0 <= i < |f.keys| && f.keys[i].prefix <= s && Leads(f.keys[i], s[|f.keys[i].prefix|..], v)
  }

  lemma {:induction false} ArrangedLeads(t: Trie, before: Text, f: Filled, s: Text, v: Token)
    requires Arranges(t, before, f)
    ensures Leads(f, s, v) <==> Holds(t, s, v)
    decreases f
  {
    forall i | 0 <= i < |f.keys| && f.keys[i].prefix <= s
      ensures Leads(f.keys[i], s[|f.keys[i].prefix|..], v)
         <==> Holds(t.keys[f.keys[i].prefix], s[|f.keys[i].prefix|..], v)
    {
      ArrangedLeads(t.keys[f.keys[i].prefix], f.fullPrefix, f.keys[i], s[|f.keys[i].prefix|..], v);
    }
    if k :| k in t.keys && k <= s && Holds(t.keys[k], s[|k|..], v) {
      var i :| 0 <= i < |f.keys| && f.keys[i].prefix == k;
      assert Leads(f.keys[i], s[|f.keys[i].prefix|..], v);
    }
  }

  // ----- Length -----

  function Longest(f: Filled): nat
    decreases f, 1
  {
    LongestOf(f.keys, |f.fullPrefix|)
  }

  /** The longest full prefix in the given subtrees, or `least` if that is more. */
  function LongestOf(fs: seq<Filled>, least: nat): (r: nat)
    decreases fs, 0
  {
    if fs == [] then least
    else
      var l := Longest(fs[|fs| - 1]);
      var m := LongestOf(fs[..|fs| - 1], least);
      if l > m then l else m
  }

  lemma {:induction false} LongestOfCovers(fs: seq<Filled>, least: nat, i: nat)
    requires i < |fs|
    ensures Longest(fs[i]) <= LongestOf(fs, least) && least <= LongestOf(fs, least)
  {
    if i < |fs| - 1 {
      LongestOfCovers(fs[..|fs| - 1], least, i);
    } else if i > 0 {
      LongestOfCovers(fs[..|fs| - 1], least, 0);
    }
  }

  method MaxLength(f: Filled) returns (max: nat)
    ensures max == Longest(f)
    decreases f
  {
    max := |f.fullPrefix|;
    for i := 0 to |f.keys|
      invariant max == LongestOf(f.keys[..i], |f.fullPrefix|)
    {
      var l := MaxLength(f.keys[i]);
      assert f.keys[..i + 1][..i] == f.keys[..i];
      if l > max {
        max := l;
      }
    }
    assert f.keys[..|f.keys|] == f.keys;
  }

  /** maxTokenLength: the longest full prefix and one more, so that nothing needs a bounds check. */
  function MaxTokenLength(f: Filled): nat { Longest(f) + 1 }

  // ----- Printing -----

  /** One comparison: the units from `base` on are `text`. */
  datatype Comparison = Comparison(base: nat, text: Text)

  datatype Line =
    | Accept(length: nat, token: Token)  // unless an identifier part follows: shift and return the token
    | If(test: Comparison)
    | ElseIf(test: Comparison)
    | EndIf
    | ReturnIdent

  /** The comparison printed for a child; three units are widened to four with the unit before them. */
  function Edge(f: Filled, i: nat): (c: Comparison)
    requires i < |f.keys| && f.keys[i].fullPrefix == f.fullPrefix + f.keys[i].prefix
  {
    var base, k := |f.fullPrefix|, f.keys[i].prefix;
    if base > 0 && |k| == 3 then Comparison(base - 1, [f.keys[i].fullPrefix[base - 1]] + k)
    else Comparison(base, k)
  }

  /** A comparison ends where the child's full prefix ends, and has three units only at the root. */
  lemma {:induction false} EdgeShape(f: Filled, i: nat)
    requires i < |f.keys| && f.keys[i].fullPrefix == f.fullPrefix + f.keys[i].prefix
    ensures var c, full := Edge(f, i), f.keys[i].fullPrefix;
            && c.base + |c.text| == |full| && c.text == full[c.base..]
            && (|c.text| == 3 ==> c.base == 0)
            && (c.base == |f.fullPrefix| || (|f.keys[i].prefix| == 3 && c.base == |f.fullPrefix| - 1))
  {
    var full, base := f.keys[i].fullPrefix, |f.fullPrefix|;
    assert full[base..] == f.keys[i].prefix;
    if base > 0 { assert full[base - 1..] == [full[base - 1]] + full[base..]; }
  }

  /** printSubTreeAsC. */
  function Lines(f: Filled): (lines: seq<Line>)
    requires Linked(f)
    decreases f, 2 * |f.keys| + 2
  {
    (if f.value.Some? then [Accept(|f.fullPrefix|, f.value.value)] else []) + ArmLines(f, 0)
  }

  /** The lines from child `i` on; the last child's arm is followed by the closing brace. */
  function ArmLines(f: Filled, i: nat): (lines: seq<Line>)
    requires Linked(f) && i <= |f.keys|
    decreases f, 2 * (|f.keys| - i) + 1
  {
    if i == |f.keys| then []
    else Arm(f, i) + AfterArm(f, i)
  }

  function Arm(f: Filled, i: nat): (lines: seq<Line>)
    requires Linked(f) && i < |f.keys|
    decreases f, 0
  {
    [if i == 0 then If(Edge(f, i)) else ElseIf(Edge(f, i))] + Lines(f.keys[i])
  }

  function AfterArm(f: Filled, i: nat): (lines: seq<Line>)
    requires Linked(f) && i < |f.keys|
    decreases f, 2 * (|f.keys| - i)
  {
    if i + 1 == |f.keys| then [EndIf] else ArmLines(f, i + 1)
  }

  /** The body of the printed parseKeyword function. */
  function Program(f: Filled): (lines: seq<Line>)
    requires Linked(f)
  {
    Lines(f) + [ReturnIdent]
  }

  /** The generator's printing loop with its item counter. */
  method PrintSubTree(f: Filled) returns (lines: seq<Line>)
    requires Linked(f)
    ensures lines == Lines(f)
    decreases f
  {
    lines := [];
    if f.value.Some? {
      lines := lines + [Accept(|f.fullPrefix|, f.value.value)];
    }
    var itemCount := 0;
    while itemCount < |f.keys|
      invariant itemCount <= |f.keys|
      invariant lines + ArmLines(f, itemCount) == Lines(f)
    {
      ghost var before := lines;
      var arm := PrintArm(f, itemCount);
      lines := lines + arm;
      itemCount := itemCount + 1;
      if itemCount == |f.keys| {
        lines := lines + [EndIf];
      }
      ArmFirst(f, itemCount - 1, before, arm, lines);
    }
  }

  /** One turn of that loop: the comparison and the printed child. */
  method PrintArm(f: Filled, itemCount: nat) returns (lines: seq<Line>)
    requires Linked(f) && itemCount < |f.keys|
    ensures lines == Arm(f, itemCount)
    decreases f, 0
  {
    var trie := f.keys[itemCount];
    var baseIndex, k := |f.fullPrefix|, trie.prefix;
    if baseIndex > 0 && |k| == 3 {
      baseIndex := baseIndex - 1;
      k := [trie.fullPrefix[baseIndex]] + k;
    }
    var comparison := Comparison(baseIndex, k);
    if itemCount == 0 {
      lines := [If(comparison)];
    } else {
      lines := [ElseIf(comparison)];
    }
    var body := PrintSubTree(trie);
    lines := lines + body;
  }

  lemma ArmFirst(f: Filled, i: nat, before: seq<Line>, arm: seq<Line>, after: seq<Line>)
    requires Linked(f) && i < |f.keys| && arm == Arm(f, i)
    requires after == before + arm + if i + 1 == |f.keys| then [EndIf] else []
    ensures after + ArmLines(f, i + 1) == before + ArmLines(f, i)
  {
  }

  // ----- Running the printed code -----

  datatype Env = Env(machine: Machine, kind: UnitKind, isIdentPart: IdentPart)

  /** Fault is a read past the end of the text, a missing macro, or a function that ends without returning. */
  datatype Outcome = Returned(token: Token, shift: nat) | Ident | Fault

  function RunTest(env: Env, test: Comparison, code: Text): (r: Option<bool>)
    requires Fits(env.kind, code)
  {
    var t := Expand(env.machine, test.base, test.text);
    if t.None? then None else Eval(env.machine, env.kind, t.value, code)
  }

  /** From inside an untaken arm: the `} else if` or `}` that ends it. */
  function SkipArm(lines: seq<Line>, depth: nat): (r: seq<Line>)
    ensures |r| <= |lines|
  {
    if lines == [] then []
    else match lines[0]
      case If(_) => SkipArm(lines[1..], depth + 1)
      case ElseIf(_) => if depth == 0 then lines else SkipArm(lines[1..], depth)
      case EndIf => if depth == 0 then lines else SkipArm(lines[1..], depth - 1)
      case _ => SkipArm(lines[1..], depth)
  }

  /** From the end of a taken arm: what follows the closing brace of its chain. */
  function SkipChain(lines: seq<Line>, depth: nat): (r: seq<Line>)
    ensures |r| <= |lines|
  {
    if lines == [] then []
    else match lines[0]
      case If(_) => SkipChain(lines[1..], depth + 1)
      case EndIf => if depth == 0 then lines[1..] else SkipChain(lines[1..], depth - 1)
      case _ => SkipChain(lines[1..], depth)
  }

  function Run(env: Env, lines: seq<Line>, code: Text): (o: Outcome)
    requires Fits(env.kind, code)
    decreases |lines|, 0
  {
    if lines == [] then Fault
    else match lines[0]
      case Accept(n, token) =>
        if n >= |code| then Fault
        else if !IsIdentPartIncludingEscape(env.isIdentPart, code, n) then Returned(token, n)
        else Run(env, lines[1..], code)
      case If(test) => Branch(env, test, lines[1..], code)
      case ElseIf(_) => Run(env, SkipChain(lines[1..], 0), code)
      case EndIf => Run(env, lines[1..], code)
      case ReturnIdent => Ident
  }

  function Branch(env: Env, test: Comparison, rest: seq<Line>, code: Text): (o: Outcome)
    requires Fits(env.kind, code)
    decreases |rest|, 1
  {
    match RunTest(env, test, code)
    case None => Fault
    case Some(true) => Run(env, rest, code)
    case Some(false) =>
      var next := SkipArm(rest, 0);
      if next == [] then Fault
      else if next[0].ElseIf? then Branch(env, next[0].test, next[1..], code)
      else Run(env, next[1..], code)
  }

  // ----- The decision tree behind the lines -----

  /** What a printed subtree does: return, fault, or fall through to what follows it. */
  datatype Decision = Return(token: Token, shift: nat) | FallThrough | Crash

  function Decide(env: Env, f: Filled, code: Text): (d: Decision)
    requires Fits(env.kind, code) && Linked(f)
    decreases f, 2 * |f.keys| + 2
  {
    if f.value.None? then DecideArms(env, f, 0, code)
    else if |f.fullPrefix| >= |code| then Crash
    else if !IsIdentPartIncludingEscape(env.isIdentPart, code, |f.fullPrefix|) then
      Return(f.value.value, |f.fullPrefix|)
    else DecideArms(env, f, 0, code)
  }

  function DecideArms(env: Env, f: Filled, i: nat, code: Text): (d: Decision)
    requires Fits(env.kind, code) && Linked(f) && i <= |f.keys|
    decreases f, |f.keys| - i
  {
    if i == |f.keys| then FallThrough
    else match RunTest(env, Edge(f, i), code)
      case None => Crash
      case Some(true) => Decide(env, f.keys[i], code)
      case Some(false) => DecideArms(env, f, i + 1, code)
  }

  function Then(d: Decision, next: Outcome): Outcome {
    match d
    case Return(token, n) => Returned(token, n)
    case Crash => Fault
    case FallThrough => next
  }
}
