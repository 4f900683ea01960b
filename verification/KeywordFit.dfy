/** Which keyword tables the printed comparison macros are enough for, as a condition on the table alone. */
module KeywordFit {
  import opened Basics
  import opened KeywordTrie
  import opened KeywordCode

  // ----- The condition -----

  function Keywords(table: Table): (keys: set<Text>) { set i | 0 <= i < |table| :: table[i].0 }

  /** `a` and `b` go on after `s` with different units. */
  predicate Split(s: Text, a: Text, b: Text) { s < a && s < b && a[|s|] != b[|s|] }

  /** A text where a lookup has something to decide: it is a key, or two keys part after it. */
  predicate Stop(keys: set<Text>, s: Text) {
    s in keys || exists a, b :: a in keys && b in keys && Split(s, a, b)
  }

  /** Within eight units after the first `i` units of `k` there is a stop. */
  predicate StopsSoon(keys: set<Text>, k: Text, i: nat) {
    exists m | i < m <= i + 8 :: m <= |k| && Stop(keys, k[..m])
  }

  /** No key goes on for more than eight units without a stop. */
  predicate ShortGaps(keys: set<Text>) {
    forall k, i :: k in keys && 0 <= i < |k| ==> StopsSoon(keys, k, i)
  }

  // ----- The same on tries -----

  ghost predicate Key(t: Trie, s: Text) { exists v :: Holds(t, s, v) }

  ghost predicate TrieStop(t: Trie, s: Text) {
    Key(t, s) || exists a, b :: Key(t, a) && Key(t, b) && Split(s, a, b)
  }

  ghost predicate TrieFits(t: Trie) {
    forall k :: k in t.keys ==> |k| <= 8 && TrieFits(t.keys[k])
  }

  /** Below a child, a trie holds what the child holds. */
  lemma HoldsBelow(t: Trie, k: Text, s: Text, v: Token)
    requires WellKeyed(t) && k in t.keys
    ensures Holds(t, k + s, v) <==> Holds(t.keys[k], s, v)
  {
    var whole := k + s;
    assert k <= whole && whole[|k|..] == s;
    if Holds(t, whole, v) {
      var l :| l in t.keys && l <= whole && Holds(t.keys[l], whole[|l|..], v);
      assert l[0] == whole[0] == k[0];
    }
  }

  /** A key that starts like a child's prefix has all of it. */
  lemma KeyThrough(t: Trie, k: Text, s: Text)
    requires WellKeyed(t) && k in t.keys && Key(t, s) && s != [] && s[0] == k[0]
    ensures k <= s && Key(t.keys[k], s[|k|..])
  {
    var v :| Holds(t, s, v);
    var l :| l in t.keys && l <= s && Holds(t.keys[l], s[|l|..], v);
    assert l[0] == k[0];
  }

  lemma KeyBelow(t: Trie, k: Text, s: Text)
    requires WellKeyed(t) && k in t.keys
    ensures Key(t, k + s) <==> Key(t.keys[k], s)
  {
    hide Holds, WellKeyed;
    if v :| Holds(t, k + s, v) { HoldsBelow(t, k, s, v); }
    if v :| Holds(t.keys[k], s, v) { HoldsBelow(t, k, s, v); }
  }

  lemma StopBelow(t: Trie, k: Text, s: Text)
    requires WellKeyed(t) && k in t.keys
    ensures TrieStop(t, k + s) <==> TrieStop(t.keys[k], s)
  {
    hide Key;
    KeyBelow(t, k, s);
    if a, b :| Key(t.keys[k], a) && Key(t.keys[k], b) && Split(s, a, b) {
      KeyBelow(t, k, a);
      KeyBelow(t, k, b);
      assert Split(k + s, k + a, k + b);
    }
    if a, b :| Key(t, a) && Key(t, b) && Split(k + s, a, b) {
      KeyThrough(t, k, a);
      KeyThrough(t, k, b);
      assert Split(s, a[|k|..], b[|k|..]);
    }
  }

  lemma {:induction false} CompactIsLive(t: Trie)
    requires Compact(t)
    ensures Live(t)
  {
    forall k | k in t.keys ensures Live(t.keys[k]) { CompactIsLive(t.keys[k]); }
  }

  lemma ChildHasKey(t: Trie, k: Text) returns (s: Text)
    requires Compact(t) && k in t.keys
    ensures Key(t.keys[k], s)
  {
    CompactIsLive(t.keys[k]);
    var v;
    s, v := Inhabited(t.keys[k]);
  }

  /** Every node of a compact trie, the root aside, is a stop. */
  lemma NodeStops(t: Trie)
    requires WellKeyed(t) && CompactNode(t)
    ensures TrieStop(t, [])
  {
    hide Key, Compact, WellKeyed;
    if t.value.Some? {
      KeyHere(t);
    } else {
      var k, l := TwoKeys(t.keys);
      FirstsDiffer(t, k, l);
      var a := ChildHasKey(t, k);
      var b := ChildHasKey(t, l);
      KeyBelow(t, k, a);
      KeyBelow(t, l, b);
      assert Split([], k + a, l + b);
    }
  }

  lemma KeyHere(t: Trie)
    requires t.value.Some?
    ensures Key(t, [])
  {
    assert Holds(t, [], t.value.value);
  }

  lemma FirstsDiffer(t: Trie, k: Text, l: Text)
    requires WellKeyed(t) && k in t.keys && l in t.keys && k != l
    ensures k != [] && l != [] && k[0] != l[0]
  {
  }

  lemma TwoKeys(m: map<Text, Trie>) returns (k: Text, l: Text)
    requires |m| >= 2
    ensures k in m && l in m && k != l
  {
    k :| k in m;
    assert m.Keys != {k} by { assert |m.Keys| == |m|; }
    l :| l in m && l != k;
  }

  lemma FirstEdge(t: Trie, s: Text, v: Token) returns (k: Text)
    requires WellKeyed(t) && Compact(t) && TrieFits(t) && Holds(t, s, v) && s != []
    ensures k in t.keys && 0 < |k| <= 8 && k <= s && Holds(t.keys[k], s[|k|..], v)
    ensures WellKeyed(t.keys[k]) && CompactNode(t.keys[k]) && Compact(t.keys[k]) && TrieFits(t.keys[k])
  {
    k :| k in t.keys && k <= s && Holds(t.keys[k], s[|k|..], v);
  }

  /** Short edges put a stop within eight units of every point on the way to a key. */
  lemma {:induction false} NextStop(t: Trie, s: Text, v: Token, i: nat) returns (m: nat)
    requires WellKeyed(t) && Compact(t) && TrieFits(t) && Holds(t, s, v) && i < |s|
    ensures i < m <= i + 8 && m <= |s| && TrieStop(t, s[..m])
    decreases t
  {
    hide *;
    var k := FirstEdge(t, s, v);
    if i < |k| {
      m := |k|;
      NodeStops(t.keys[k]);
      StopBelow(t, k, []);
      assert s[..m] == k + [];
    } else {
      var rest := NextStop(t.keys[k], s[|k|..], v, i - |k|);
      m := |k| + rest;
      StopBelow(t, k, s[|k|..][..rest]);
      assert s[..m] == k + s[|k|..][..rest];
    }
  }

  /** Inside an edge there is no stop. */
  lemma NoStopInside(t: Trie, k: Text, m: nat)
    requires WellKeyed(t) && k in t.keys && 0 < m < |k|
    ensures !TrieStop(t, k[..m])
  {
    hide Key, WellKeyed;
    if Key(t, k[..m]) {
      KeyThrough(t, k, k[..m]);
      assert false;
    }
    if a, b :| Key(t, a) && Key(t, b) && Split(k[..m], a, b) {
      KeyThrough(t, k, a);
      KeyThrough(t, k, b);
      assert false;
    }
  }

  /** A long edge is a gap in some key. */
  lemma {:induction false} FindGap(t: Trie) returns (s: Text, i: nat)
    requires WellKeyed(t) && Compact(t) && !TrieFits(t)
    ensures Key(t, s) && i < |s|
    ensures forall m :: i < m <= i + 8 && m <= |s| ==> !TrieStop(t, s[..m])
    decreases t
  {
    hide TrieStop, Key;
    var k :| k in t.keys && !(|k| <= 8 && TrieFits(t.keys[k]));
    if |k| > 8 {
      var rest := ChildHasKey(t, k);
      s, i := k + rest, 0;
      KeyBelow(t, k, rest);
      forall m | 0 < m <= 8 ensures !TrieStop(t, s[..m]) {
        NoStopInside(t, k, m);
        assert s[..m] == k[..m];
      }
    } else {
      var rest, j := FindGap(t.keys[k]);
      s, i := k + rest, |k| + j;
      KeyBelow(t, k, rest);
      forall m | i < m <= i + 8 && m <= |s| ensures !TrieStop(t, s[..m]) {
        StopBelow(t, k, rest[..m - |k|]);
        assert s[..m] == k + rest[..m - |k|];
      }
    }
  }

  // ----- From the table to the printed edges -----

  lemma {:induction false} ArrangedFits(t: Trie, before: Text, f: Filled)
    requires Arranges(t, before, f)
    ensures EdgesFit(f) <==> TrieFits(t)
    decreases f
  {
    forall i | 0 <= i < |f.keys| ensures EdgesFit(f.keys[i]) <==> TrieFits(t.keys[f.keys[i].prefix]) {
      ArrangedFits(t.keys[f.keys[i].prefix], f.fullPrefix, f.keys[i]);
    }
    if EdgesFit(f) {
      forall k | k in t.keys ensures |k| <= 8 && TrieFits(t.keys[k]) {
        var i :| 0 <= i < |f.keys| && f.keys[i].prefix == k;
      }
    }
  }

  lemma KeywordIsKey(table: Table, s: Text)
    ensures s in Keywords(table) <==> Key(Compiled(table), s)
  {
    hide Holds, Compiled;
    LastValueIs(table, s, "");
    if LastValue(table, s).Some? { CompiledHolds(table, s, LastValue(table, s).value); }
    if v :| Holds(Compiled(table), s, v) { CompiledHolds(table, s, v); }
  }

  lemma StopIsTrieStop(table: Table, s: Text)
    ensures Stop(Keywords(table), s) <==> TrieStop(Compiled(table), s)
  {
    hide Key, Keywords, Compiled;
    forall x ensures x in Keywords(table) <==> Key(Compiled(table), x) { KeywordIsKey(table, x); }
  }

  /** The edges of the compiled trie are short exactly when the keywords have no long gap. */
  lemma {:induction false} CompiledFits(table: Table)
    ensures TrieFits(Compiled(table)) <==> ShortGaps(Keywords(table))
  {
    hide TrieFits, TrieStop, Stop, Keywords, Compiled, Holds, Compact;
    var t, keys := Compiled(table), Keywords(table);
    CompiledHolds(table, [], "");
    if TrieFits(t) {
      forall k, i | k in keys && 0 <= i < |k| ensures StopsSoon(keys, k, i) {
        KeywordIsKey(table, k);
        var v :| Holds(t, k, v);
        var m := NextStop(t, k, v, i);
        StopIsTrieStop(table, k[..m]);
      }
    } else {
      var k, i := FindGap(t);
      KeywordIsKey(table, k);
      forall m | i < m <= i + 8 && m <= |k| ensures !Stop(keys, k[..m]) { StopIsTrieStop(table, k[..m]); }
      assert !StopsSoon(keys, k, i);
    }
  }

  /** Whatever the order of the siblings, every edge has a macro exactly when the keywords have no long gap. */
  lemma EdgesFitExactly(table: Table, f: Filled)
    requires Arranges(Compiled(table), [], f)
    ensures EdgesFit(f) <==> ShortGaps(Keywords(table))
  {
    hide EdgesFit, TrieFits, ShortGaps, Arranges;
    ArrangedFits(Compiled(table), [], f);
    CompiledFits(table);
  }

  /** A table of one line has a long gap exactly if its key has more than eight units. */
  lemma OneLine(k: Text, v: Token)
    ensures ShortGaps(Keywords([(k, v)])) <==> |k| <= 8
  {
    var keys := Keywords([(k, v)]);
    assert keys == {k} by { assert [(k, v)][0].0 == k; }
    if |k| <= 8 {
      forall i | 0 <= i < |k| ensures StopsSoon(keys, k, i) {
        assert k[..|k|] == k;
        assert Stop(keys, k[..|k|]);
      }
    } else {
      assert !StopsSoon(keys, k, 0);
    }
  }
}
