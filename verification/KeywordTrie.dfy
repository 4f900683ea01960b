/**
 The keyword trie of KeywordLookupGenerator.py on values: inserting a keyword and
 coalescing single-child chains, and what both do to the set of (key, token) pairs
 a trie holds. `KeywordTrieNode` has the heap objects that are updated in place.
 */
module KeywordTrie {
  import opened Basics

  type Token = string

  /** `keys` is the node's dictionary; a child is filed under its own prefix. */
  datatype Trie = Trie(prefix: Text, value: Option<Token>, keys: map<Text, Trie>)

  /** Text `s`, read below the prefix of `t`, leads to token `v`. */
  ghost predicate Holds(t: Trie, s: Text, v: Token) {
    || (s == [] && t.value == Some(v))
    || exists k :: k in t.keys && k <= s && Holds(t.keys[k], s[|k|..], v)
  }

  /** `Holds` with the prefix of `t` itself included in the text. */
  ghost predicate HoldsWhole(t: Trie, s: Text, v: Token) {
    t.prefix <= s && Holds(t, s[|t.prefix|..], v)
  }

  // ----- Shape -----

  /** Every child is filed under its own non-empty prefix, and no two siblings start with the same unit. */
  ghost predicate WellKeyed(t: Trie) {
    && (forall k :: k in t.keys ==> k != [] && t.keys[k].prefix == k && WellKeyed(t.keys[k]))
    && DistinctFirsts(t.keys.Keys)
  }

  ghost predicate DistinctFirsts(ks: set<Text>) {
    forall k, k' :: k in ks && k' in ks && k != [] && k' != [] && k[0] == k'[0] ==> k == k'
  }

  /** The shape insertion builds: one unit per edge. */
  ghost predicate Uncoalesced(t: Trie) {
    forall k :: k in t.keys ==> |k| == 1 && t.keys[k].prefix == k && Uncoalesced(t.keys[k])
  }

  /** No dead ends: every node below the root has a value or a child. */
  ghost predicate Live(t: Trie) {
    forall k :: k in t.keys ==> (t.keys[k].value.Some? || t.keys[k].keys != map[]) && Live(t.keys[k])
  }

  /** What coalescing is for: every node below the root has a value or branches. */
  ghost predicate Compact(t: Trie) {
    forall k :: k in t.keys ==> (t.keys[k].value.Some? || |t.keys[k].keys| >= 2) && Compact(t.keys[k])
  }

  /** Every unit on every edge satisfies `p`. */
  ghost predicate Over(t: Trie, p: CodeUnit -> bool) {
    forall k :: k in t.keys ==> AllUnits(k, p) && Over(t.keys[k], p)
  }

  ghost predicate AllUnits(s: Text, p: CodeUnit -> bool) {
    forall i :: 0 <= i < |s| ==> p(s[i])
  }

  lemma {:induction false} UncoalescedIsWellKeyed(t: Trie)
    requires Uncoalesced(t)
    ensures WellKeyed(t)
  {
    forall k | k in t.keys ensures WellKeyed(t.keys[k]) { UncoalescedIsWellKeyed(t.keys[k]); }
    forall k, k' | k in t.keys && k' in t.keys && k[0] == k'[0] ensures k == k' {
      assert k == [k[0]] && k' == [k'[0]];
    }
  }

  // ----- Insertion -----

  const EmptyTrie := Trie([], None, map[])

  function Insert(t: Trie, key: Text, value: Token): (r: Trie)
    ensures r.prefix == t.prefix
    decreases |key|
  {
    if key == [] then t.(value := Some(value))
    else
      var c := key[..1];
      var child := if c in t.keys then t.keys[c] else Trie(c, None, map[]);
      t.(keys := t.keys[c := Insert(child, key[1..], value)])
  }

  lemma InsertDown(t: Trie, key: Text, value: Token)
    requires key != [] && key[..1] in t.keys
    ensures Insert(t, key, value) == t.(keys := t.keys[key[..1] := Insert(t.keys[key[..1]], key[1..], value)])
  {
  }

  lemma InsertNew(t: Trie, key: Text, value: Token)
    requires key != [] && key[..1] !in t.keys
    ensures Insert(t, key, value) == Insert(t.(keys := t.keys[key[..1] := Trie(key[..1], None, map[])]), key, value)
  {
  }

  lemma {:induction false} InsertShape(t: Trie, key: Text, value: Token)
    requires Uncoalesced(t) && Live(t)
    ensures Uncoalesced(Insert(t, key, value)) && Live(Insert(t, key, value))
    ensures Insert(t, key, value).value.Some? || Insert(t, key, value).keys != map[]
    decreases |key|
  {
    if key != [] {
      var c := key[..1];
      var child := if c in t.keys then t.keys[c] else Trie(c, None, map[]);
      InsertShape(child, key[1..], value);
      assert c in Insert(t, key, value).keys;
    }
  }

  lemma {:induction false} InsertOver(t: Trie, key: Text, value: Token, p: CodeUnit -> bool)
    requires Over(t, p) && AllUnits(key, p)
    ensures Over(Insert(t, key, value), p)
    decreases |key|
  {
    if key != [] {
      var c := key[..1];
      var child := if c in t.keys then t.keys[c] else Trie(c, None, map[]);
      InsertOver(child, key[1..], value, p);
    }
  }

  /** Inserting redefines exactly the inserted key. */
  lemma {:induction false} InsertHolds(t: Trie, key: Text, value: Token, s: Text, v: Token)
    requires Uncoalesced(t)
    ensures Holds(Insert(t, key, value), s, v) <==> if s == key then v == value else Holds(t, s, v)
    decreases |key|
  {
    hide Holds, Uncoalesced;
    if key == [] || s == [] {
      InsertHoldsEnd(t, key, value, s, v);
    } else {
      HoldsStep(t, s, v);
      UncoalescedInsert(t, key, value);
      HoldsStep(Insert(t, key, value), s, v);
      var c := key[..1];
      var child := if c in t.keys then t.keys[c] else Trie(c, None, map[]);
      if s[..1] == c {
        assert s == s[..1] + s[1..] && key == c + key[1..];
        UncoalescedChild(t, c);
        InsertHolds(child, key[1..], value, s[1..], v);
        HoldsNothing(c, s[1..], v);
      }
    }
  }

  lemma InsertHoldsEnd(t: Trie, key: Text, value: Token, s: Text, v: Token)
    requires Uncoalesced(t) && (key == [] || s == [])
    ensures Holds(Insert(t, key, value), s, v) <==> if s == key then v == value else Holds(t, s, v)
  {
    if s == [] {
      HoldsEmpty(t, v);
      UncoalescedInsert(t, key, value);
      HoldsEmpty(Insert(t, key, value), v);
    } else {
      SameChildren(t, Insert(t, key, value), s, v);
    }
  }

  lemma HoldsEmpty(t: Trie, v: Token)
    requires Uncoalesced(t)
    ensures Holds(t, [], v) <==> t.value == Some(v)
  {
  }

  lemma HoldsNothing(c: Text, s: Text, v: Token)
    ensures !Holds(Trie(c, None, map[]), s, v)
  {
  }

  lemma UncoalescedChild(t: Trie, c: Text)
    requires Uncoalesced(t)
    ensures c in t.keys ==> Uncoalesced(t.keys[c])
    ensures Uncoalesced(Trie(c, None, map[]))
  {
  }

  lemma SameChildren(a: Trie, b: Trie, s: Text, v: Token)
    requires a.keys == b.keys && s != []
    ensures Holds(a, s, v) <==> Holds(b, s, v)
  {
  }

  lemma {:induction false} UncoalescedInsert(t: Trie, key: Text, value: Token)
    requires Uncoalesced(t)
    ensures Uncoalesced(Insert(t, key, value))
    decreases |key|
  {
    if key != [] {
      var c := key[..1];
      var child := if c in t.keys then t.keys[c] else Trie(c, None, map[]);
      UncoalescedInsert(child, key[1..], value);
    }
  }

  /** With one unit per edge, a non-empty text can only go down under its first unit. */
  lemma HoldsStep(t: Trie, s: Text, v: Token)
    requires Uncoalesced(t) && s != []
    ensures Holds(t, s, v) <==> s[..1] in t.keys && Holds(t.keys[s[..1]], s[1..], v)
  {
    if Holds(t, s, v) {
      var k :| k in t.keys && k <= s && Holds(t.keys[k], s[|k|..], v);
      assert k == s[..1];
    }
    if s[..1] in t.keys && Holds(t.keys[s[..1]], s[1..], v) {
      assert s[..1] <= s;
    }
  }

  // ----- The table -----

  type Table = seq<(Text, Token)>

  /** The trie after inserting the whole table in order. */
  function Build(table: Table): (t: Trie) {
    if table == [] then EmptyTrie
    else
      var last := table[|table| - 1];
      Insert(Build(table[..|table| - 1]), last.0, last.1)
  }

  /** The token the table gives a key: a later line overrides an earlier one. */
  function LastValue(table: Table, key: Text): (v: Option<Token>) {
    if table == [] then None
    else if table[|table| - 1].0 == key then Some(table[|table| - 1].1)
    else LastValue(table[..|table| - 1], key)
  }

  /** `v` stands on line `i` for `key`, and no later line is for `key`. */
  ghost predicate LastLine(table: Table, key: Text, v: Token, i: nat) {
    && i < |table| && table[i] == (key, v)
    && forall j :: i < j < |table| ==> table[j].0 != key
  }

  lemma {:induction false} LastValueIs(table: Table, key: Text, v: Token)
    ensures LastValue(table, key) == Some(v) <==> exists i :: LastLine(table, key, v, i)
    ensures LastValue(table, key).None? <==> forall i :: 0 <= i < |table| ==> table[i].0 != key
  {
    if table != [] {
      var n := |table| - 1;
      LastValueIs(table[..n], key, v);
      if table[n].0 == key {
        assert table[n].1 == v ==> LastLine(table, key, v, n);
      } else {
        if i :| LastLine(table[..n], key, v, i) { assert LastLine(table, key, v, i); }
        if i :| LastLine(table, key, v, i) { assert LastLine(table[..n], key, v, i); }
      }
    }
  }

  ghost predicate TableOver(table: Table, p: CodeUnit -> bool) {
    forall i :: 0 <= i < |table| ==> AllUnits(table[i].0, p)
  }

  lemma {:induction false} BuildShape(table: Table)
    ensures Uncoalesced(Build(table)) && Live(Build(table)) && Build(table).prefix == []
  {
    if table != [] {
      var last := table[|table| - 1];
      BuildShape(table[..|table| - 1]);
      InsertShape(Build(table[..|table| - 1]), last.0, last.1);
    }
  }

  lemma {:induction false} BuildOver(table: Table, p: CodeUnit -> bool)
    requires TableOver(table, p)
    ensures Over(Build(table), p)
  {
    if table != [] {
      var last := table[|table| - 1];
      BuildOver(table[..|table| - 1], p);
      InsertOver(Build(table[..|table| - 1]), last.0, last.1, p);
    }
  }

  /** The built trie holds exactly the table. */
  lemma {:induction false} BuildHolds(table: Table, s: Text, v: Token)
    ensures Holds(Build(table), s, v) <==> LastValue(table, s) == Some(v)
  {
    if table != [] {
      var last := table[|table| - 1];
      BuildHolds(table[..|table| - 1], s, v);
      BuildShape(table[..|table| - 1]);
      InsertHolds(Build(table[..|table| - 1]), last.0, last.1, s, v);
    }
  }

  // ----- Coalescing -----

  /** Children filed under distinct prefixes can be re-filed without losing one. */
  ghost predicate DistinctPrefixes(m: map<Text, Trie>) {
    forall k, k' :: k in m && k' in m && m[k].prefix == m[k'].prefix ==> k == k'
  }

  /** The children filed under their prefixes; of two with the same prefix only one would survive. */
  ghost function Rekey(m: map<Text, Trie>): (r: map<Text, Trie>)
    ensures forall p :: p in r ==> exists k :: k in m && m[k].prefix == p && r[p] == m[k]
    ensures DistinctPrefixes(m) ==> forall k :: k in m ==> m[k].prefix in r && r[m[k].prefix] == m[k]
  {
    var prefixes := set k | k in m :: m[k].prefix;
    map p | p in prefixes :: var k :| k in m && m[k].prefix == p; m[k]
  }

  /** The tail of `coalesce`: a node without a value and with one child becomes that child, prefixes joined. */
  ghost function Join(t: Trie): (r: Trie)
    ensures t.prefix <= r.prefix
    ensures WellKeyed(t) ==> WellKeyed(r)
  {
    if t.value.Some? || |t.keys| != 1 then t
    else
      var k :| k in t.keys;
      assert WellKeyed(t) ==> WellKeyed(t.keys[k]);
      Trie(t.prefix + k, t.keys[k].value, t.keys[k].keys)
  }

  /** `m` replaces each child of `t` by one whose prefix only got longer. */
  ghost predicate Grown(t: Trie, m: map<Text, Trie>) {
    m.Keys == t.keys.Keys && forall k :: k in m ==> k <= m[k].prefix && WellKeyed(m[k])
  }

  /** First units tell siblings apart, however long their prefixes grow. */
  lemma SameFirst(t: Trie, m: map<Text, Trie>, k: Text, l: Text)
    requires WellKeyed(t) && Grown(t, m) && k in m && l in m
    requires m[k].prefix != [] && m[l].prefix != [] && m[k].prefix[0] == m[l].prefix[0]
    ensures k == l
  {
    assert k in t.keys && l in t.keys;
    assert k[0] == l[0];
  }

  lemma GrownDistinct(t: Trie, m: map<Text, Trie>)
    requires WellKeyed(t) && Grown(t, m)
    ensures DistinctPrefixes(m)
  {
    forall k, l | k in m && l in m && m[k].prefix == m[l].prefix ensures k == l {
      assert k in t.keys;
      SameFirst(t, m, k, l);
    }
  }

  lemma GrownRekey(t: Trie, m: map<Text, Trie>)
    requires WellKeyed(t) && Grown(t, m)
    ensures DistinctPrefixes(m) && WellKeyed(t.(keys := Rekey(m)))
  {
    GrownDistinct(t, m);
    var r := Rekey(m);
    forall p | p in r ensures p != [] && r[p].prefix == p && WellKeyed(r[p]) {
      var k :| k in m && m[k].prefix == p && r[p] == m[k];
      assert k in t.keys;
    }
    GrownFirsts(t, m);
  }

  lemma GrownFirsts(t: Trie, m: map<Text, Trie>)
    requires WellKeyed(t) && Grown(t, m)
    ensures DistinctFirsts(Rekey(m).Keys)
  {
    var r := Rekey(m);
    forall p, q | p in r && q in r && p != [] && q != [] && p[0] == q[0] ensures p == q {
      var k :| k in m && m[k].prefix == p && r[p] == m[k];
      var l :| l in m && m[l].prefix == q && r[q] == m[l];
      SameFirst(t, m, k, l);
    }
  }

  /** What `coalesce` leaves in the object it is called on. */
  ghost function CoalesceChildren(t: Trie): (r: Trie)
    ensures r.prefix == t.prefix && r.value == t.value
    decreases t, 1
  {
    t.(keys := Rekey(CoalescedChildren(t)))
  }

  /** The coalesced children under their old keys. */
  ghost function CoalescedChildren(t: Trie): (m: map<Text, Trie>)
    ensures m.Keys == t.keys.Keys
    decreases t, 0
  {
    map k | k in t.keys :: Join(CoalesceChildren(t.keys[k]))
  }

  /** What `coalesce` returns. */
  ghost function Coalesce(t: Trie): (r: Trie)
    ensures t.prefix <= r.prefix
  {
    Join(CoalesceChildren(t))
  }

  /** Re-filing loses no child and the shape is kept. */
  lemma {:induction false} CoalesceShape(t: Trie)
    requires WellKeyed(t)
    ensures Grown(t, CoalescedChildren(t)) && DistinctPrefixes(CoalescedChildren(t))
    ensures WellKeyed(CoalesceChildren(t))
  {
    var m := CoalescedChildren(t);
    forall k | k in m ensures k <= m[k].prefix && WellKeyed(m[k]) {
      CoalesceShape(t.keys[k]);
      assert m[k] == Join(CoalesceChildren(t.keys[k]));
    }
    GrownRekey(t, m);
  }

  /** Coalesced siblings end up under different prefixes. */
  lemma CoalescedApart(t: Trie, k: Text, l: Text)
    requires WellKeyed(t) && k in t.keys && l in t.keys && k != l
    ensures Coalesce(t.keys[k]).prefix != Coalesce(t.keys[l]).prefix
  {
    hide Join, CoalesceChildren;
    assert k <= Coalesce(t.keys[k]).prefix && l <= Coalesce(t.keys[l]).prefix;
    assert k[0] != l[0];
  }

  /** A dictionary with exactly the coalesced children, each under its prefix, is the re-filed one. */
  lemma CoalescedKeys(t: Trie, r: map<Text, Trie>)
    requires WellKeyed(t)
    requires forall k :: k in t.keys ==> Coalesce(t.keys[k]).prefix in r && r[Coalesce(t.keys[k]).prefix] == Coalesce(t.keys[k])
    requires forall p :: p in r ==> exists k :: k in t.keys && Coalesce(t.keys[k]).prefix == p
    ensures CoalesceChildren(t).keys == r
  {
    hide WellKeyed, Join, Rekey, DistinctPrefixes, Grown;
    CoalesceShape(t);
    var m := CoalescedChildren(t);
    assert CoalesceChildren(t).keys == Rekey(m);
    CoalescedAre(t);
    SameFiling(m, Rekey(m), r);
  }

  lemma CoalescedAre(t: Trie)
    ensures forall k :: k in t.keys ==> CoalescedChildren(t)[k] == Coalesce(t.keys[k])
  {
    hide Join, CoalesceChildren;
  }

  lemma SameFiling(m: map<Text, Trie>, a: map<Text, Trie>, b: map<Text, Trie>)
    requires forall k :: k in m ==> m[k].prefix in a && a[m[k].prefix] == m[k]
    requires forall k :: k in m ==> m[k].prefix in b && b[m[k].prefix] == m[k]
    requires forall p :: p in a ==> exists k :: k in m && m[k].prefix == p
    requires forall p :: p in b ==> exists k :: k in m && m[k].prefix == p
    ensures a == b
  {
  }

  lemma OnlyKey(m: map<Text, Trie>, k: Text, l: Text)
    requires |m| == 1 && k in m && l in m
    ensures k == l
  {
    assert m.Keys == {k} by { SubsetSize({k, l}, m.Keys); }
  }

  lemma SubsetSize<T>(a: set<T>, b: set<T>)
    requires a <= b
    ensures |a| <= |b| && (|a| == |b| ==> a == b)
  {
    assert b == a + (b - a);
  }

  lemma JoinHolds(c: Trie, s: Text, v: Token)
    ensures HoldsWhole(Join(c), s, v) <==> HoldsWhole(c, s, v)
  {
    hide Holds;
    if c.value.None? && |c.keys| == 1 {
      var r := Join(c);
      var k :| k in c.keys && r == Trie(c.prefix + k, c.keys[k].value, c.keys[k].keys);
      assert r.prefix <= s <==> c.prefix <= s && k <= s[|c.prefix|..];
      if c.prefix <= s {
        OnlyChild(c, k, s[|c.prefix|..], v);
        if r.prefix <= s {
          assert s[|r.prefix|..] == s[|c.prefix|..][|k|..];
          SameBelow(r, c.keys[k], s[|r.prefix|..], v);
        }
      }
    }
  }

  /** What a text leads to does not depend on the prefix of the node itself. */
  lemma SameBelow(a: Trie, b: Trie, s: Text, v: Token)
    requires a.value == b.value && a.keys == b.keys
    ensures Holds(a, s, v) <==> Holds(b, s, v)
  {
  }

  lemma OnlyChild(c: Trie, k: Text, s: Text, v: Token)
    requires c.value.None? && |c.keys| == 1 && k in c.keys
    ensures Holds(c, s, v) <==> k <= s && Holds(c.keys[k], s[|k|..], v)
  {
    if Holds(c, s, v) {
      var l :| l in c.keys && l <= s && Holds(c.keys[l], s[|l|..], v);
      OnlyKey(c.keys, k, l);
    }
  }

  /** The two nodes hold the same (text, token) pairs below their prefixes. */
  ghost predicate SameTable(a: Trie, b: Trie) {
    forall s, v :: Holds(a, s, v) <==> Holds(b, s, v)
  }

  ghost predicate SameWhole(a: Trie, b: Trie) {
    forall s, v :: HoldsWhole(a, s, v) <==> HoldsWhole(b, s, v)
  }

  /** Replacing children by ones that hold the same, and re-filing them, changes nothing. */
  lemma RekeyHolds(t: Trie, m: map<Text, Trie>)
    requires WellKeyed(t) && DistinctPrefixes(m) && m.Keys == t.keys.Keys
    requires forall k :: k in m ==> SameWhole(m[k], t.keys[k])
    ensures SameTable(t.(keys := Rekey(m)), t)
  {
    hide Holds, HoldsWhole, Rekey, SameWhole;
    var r := t.(keys := Rekey(m));
    forall s, v ensures Holds(r, s, v) <==> Holds(t, s, v) {
      ChildrenHold(t, s, v);
      ChildrenHold(r, s, v);
      RekeyChildren(t, m, s, v);
    }
  }

  lemma RekeyChildren(t: Trie, m: map<Text, Trie>, s: Text, v: Token)
    requires DistinctPrefixes(m) && m.Keys == t.keys.Keys
    requires forall k :: k in m ==> SameWhole(m[k], t.keys[k])
    ensures (exists p :: p in Rekey(m) && HoldsWhole(Rekey(m)[p], s, v))
        <==> exists k :: k in t.keys && HoldsWhole(t.keys[k], s, v)
  {
    var r := Rekey(m);
    if k :| k in t.keys && HoldsWhole(t.keys[k], s, v) {
      assert HoldsWhole(r[m[k].prefix], s, v);
    }
    if p :| p in r && HoldsWhole(r[p], s, v) {
      var k :| k in m && m[k].prefix == p && r[p] == m[k];
      assert HoldsWhole(t.keys[k], s, v);
    }
  }

  lemma JoinSame(t: Trie, c: Trie)
    requires SameTable(c, t) && c.prefix == t.prefix
    ensures SameWhole(Join(c), t)
  {
    forall s, v ensures HoldsWhole(Join(c), s, v) <==> HoldsWhole(t, s, v) {
      JoinHolds(c, s, v);
    }
  }

  /** Coalescing below a node keeps every (text, token) pair it holds. */
  lemma {:induction false} CoalesceHolds(t: Trie)
    requires WellKeyed(t)
    ensures SameTable(CoalesceChildren(t), t)
  {
    CoalesceShape(t);
    var m := CoalescedChildren(t);
    forall k | k in t.keys ensures SameWhole(m[k], t.keys[k]) {
      CoalesceHolds(t.keys[k]);
      JoinSame(t.keys[k], CoalesceChildren(t.keys[k]));
    }
    RekeyHolds(t, m);
  }

  ghost predicate FiledByPrefix(t: Trie) {
    forall k :: k in t.keys ==> t.keys[k].prefix == k
  }

  lemma ChildrenHold(t: Trie, s: Text, v: Token)
    requires FiledByPrefix(t)
    ensures Holds(t, s, v) <==> (s == [] && t.value == Some(v)) || exists k :: k in t.keys && HoldsWhole(t.keys[k], s, v)
  {
  }

  ghost predicate CompactNode(t: Trie) {
    Compact(t) && (t.value.Some? || |t.keys| >= 2)
  }

  lemma RekeyCompact(t: Trie, m: map<Text, Trie>)
    requires DistinctPrefixes(m) && forall k :: k in m ==> CompactNode(m[k])
    ensures Compact(t.(keys := Rekey(m)))
    ensures m != map[] ==> Rekey(m) != map[]
  {
    if m != map[] {
      var k :| k in m;
      assert m[k].prefix in Rekey(m);
    }
  }

  /** Coalescing a trie without dead ends leaves no chain below the root. */
  lemma {:induction false} CoalesceCompact(t: Trie)
    requires WellKeyed(t) && Live(t)
    ensures Compact(CoalesceChildren(t))
    ensures t.keys != map[] ==> CoalesceChildren(t).keys != map[]
  {
    CoalesceShape(t);
    var m := CoalescedChildren(t);
    forall k | k in t.keys ensures CompactNode(m[k]) {
      CoalesceCompact(t.keys[k]);
      JoinCompact(CoalesceChildren(t.keys[k]));
    }
    RekeyCompact(t, m);
    assert m.Keys == t.keys.Keys;
  }

  lemma JoinCompact(c: Trie)
    requires Compact(c) && (c.value.Some? || c.keys != map[])
    ensures CompactNode(Join(c))
  {
    if c.value.None? && |c.keys| == 1 {
      var k :| k in c.keys && Join(c) == Trie(c.prefix + k, c.keys[k].value, c.keys[k].keys);
      assert CompactNode(c.keys[k]);
    }
  }

  lemma JoinOver(c: Trie, p: CodeUnit -> bool)
    requires Over(c, p) && AllUnits(c.prefix, p)
    ensures Over(Join(c), p) && AllUnits(Join(c).prefix, p)
  {
    if c.value.None? && |c.keys| == 1 {
      var k :| k in c.keys && Join(c) == Trie(c.prefix + k, c.keys[k].value, c.keys[k].keys);
      assert Over(c.keys[k], p);
    }
  }

  lemma {:induction false} CoalesceOver(t: Trie, p: CodeUnit -> bool)
    requires WellKeyed(t) && Over(t, p)
    ensures Over(CoalesceChildren(t), p)
  {
    forall k | k in t.keys
      ensures var d := Join(CoalesceChildren(t.keys[k])); Over(d, p) && AllUnits(d.prefix, p)
    {
      CoalesceOver(t.keys[k], p);
      JoinOver(CoalesceChildren(t.keys[k]), p);
    }
  }

  /** The root after the whole table is inserted and `coalesce` is called on it, its return value dropped. */
  ghost function Compiled(table: Table): (t: Trie)
    ensures WellKeyed(t) && t.prefix == []
  {
    BuildShape(table);
    UncoalescedIsWellKeyed(Build(table));
    CoalesceShape(Build(table));
    CoalesceChildren(Build(table))
  }

  lemma CompiledIs(table: Table)
    ensures Compiled(table) == CoalesceChildren(Build(table))
  {
  }

  /** The coalesced trie still holds exactly the table, and has no chain left. */
  lemma {:induction false} CompiledHolds(table: Table, s: Text, v: Token)
    ensures Holds(Compiled(table), s, v) <==> LastValue(table, s) == Some(v)
    ensures Compact(Compiled(table))
  {
    BuildShape(table);
    UncoalescedIsWellKeyed(Build(table));
    BuildHolds(table, s, v);
    CoalesceHolds(Build(table));
    CoalesceCompact(Build(table));
  }

  lemma CompiledOver(table: Table, p: CodeUnit -> bool)
    requires TableOver(table, p)
    ensures Over(Compiled(table), p)
  {
    BuildShape(table);
    UncoalescedIsWellKeyed(Build(table));
    BuildOver(table, p);
    CoalesceOver(Build(table), p);
  }

  // ----- The order of the lines -----

  /** In a trie without dead ends every node leads somewhere. */
  lemma {:induction false} Inhabited(t: Trie) returns (s: Text, v: Token)
    requires Live(t) && (t.value.Some? || t.keys != map[])
    ensures Holds(t, s, v)
    decreases t
  {
    if t.value.Some? {
      s, v := [], t.value.value;
    } else {
      var k :| k in t.keys;
      var rest;
      rest, v := Inhabited(t.keys[k]);
      s := k + rest;
      assert k <= s && s[|k|..] == rest;
    }
  }

  lemma KeyIn(a: Trie, b: Trie, k: Text)
    requires Uncoalesced(a) && Live(a) && Uncoalesced(b) && SameTable(a, b) && k in a.keys
    ensures k in b.keys
  {
    hide Holds;
    var rest, v := InhabitedChild(a, k);
    var s := k + rest;
    assert s[..1] == k && s[1..] == rest;
    HoldsStep(a, s, v);
    HoldsStep(b, s, v);
  }

  lemma InhabitedChild(t: Trie, k: Text) returns (s: Text, v: Token)
    requires Uncoalesced(t) && Live(t) && k in t.keys
    ensures |k| == 1 && Holds(t.keys[k], s, v)
  {
    s, v := Inhabited(t.keys[k]);
  }

  lemma SameBelowKey(a: Trie, b: Trie, k: Text)
    requires Uncoalesced(a) && Uncoalesced(b) && SameTable(a, b) && k in a.keys && k in b.keys && |k| == 1
    ensures SameTable(a.keys[k], b.keys[k])
  {
    hide Holds, Uncoalesced;
    forall s, v ensures Holds(a.keys[k], s, v) <==> Holds(b.keys[k], s, v) {
      var whole := k + s;
      assert whole[..1] == k && whole[1..] == s;
      HoldsStep(a, whole, v);
      HoldsStep(b, whole, v);
    }
  }

  lemma SameValue(a: Trie, b: Trie)
    requires Uncoalesced(a) && Uncoalesced(b) && SameTable(a, b)
    ensures a.value == b.value
  {
    if a.value.Some? { HoldsEmpty(a, a.value.value); HoldsEmpty(b, a.value.value); }
    if b.value.Some? { HoldsEmpty(a, b.value.value); HoldsEmpty(b, b.value.value); }
  }

  /** What a trie built by insertion holds determines it. */
  lemma {:induction false} SameTableSameTrie(a: Trie, b: Trie)
    requires Uncoalesced(a) && Live(a) && Uncoalesced(b) && Live(b) && a.prefix == b.prefix && SameTable(a, b)
    ensures a == b
    decreases a
  {
    hide SameTable;
    SameValue(a, b);
    forall k ensures k in a.keys <==> k in b.keys {
      SameTableSymmetric(a, b);
      if k in a.keys { KeyIn(a, b, k); }
      if k in b.keys { KeyIn(b, a, k); }
    }
    forall k | k in a.keys ensures a.keys[k] == b.keys[k] {
      SameBelowKey(a, b, k);
      SameTableSameTrie(a.keys[k], b.keys[k]);
    }
    assert a.keys == b.keys;
  }

  lemma SameTableSymmetric(a: Trie, b: Trie)
    requires SameTable(a, b)
    ensures SameTable(b, a)
  {
  }

  /** Tables that give every key the same token compile to the same trie, whatever the order of their lines. */
  lemma {:induction false} CompiledIgnoresOrder(a: Table, b: Table)
    requires forall k :: LastValue(a, k) == LastValue(b, k)
    ensures Compiled(a) == Compiled(b)
  {
    hide Holds, Uncoalesced, Live, Compiled, LastValue;
    BuildShape(a);
    BuildShape(b);
    forall s, v ensures Holds(Build(a), s, v) <==> Holds(Build(b), s, v) {
      BuildHolds(a, s, v);
      BuildHolds(b, s, v);
    }
    SameTableSameTrie(Build(a), Build(b));
    CompiledIs(a);
    CompiledIs(b);
  }
}
