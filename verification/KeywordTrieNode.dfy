/**
 The Trie class of KeywordLookupGenerator.py as heap objects that `insert`, `coalesce` and
 `fillOut` update in place, tied to the value model of `KeywordTrie`.
 */
module KeywordTrieNode {
  import opened Basics
  import T = KeywordTrie
  import C = KeywordCode

  type Token = T.Token

  /** Disjoint trees inside `own`, as the children of one object are. */
  ghost predicate Forest(m: map<Text, TrieNode>, own: set<TrieNode>)
    reads own`keys, own`value, own`Repr, own`View
    decreases own, 1
  {
    && (forall k :: k in m ==> m[k] in own && m[k].Repr <= own && m[k].Valid())
    && (forall k, l :: k in m && l in m && k != l ==> m[k].Repr !! m[l].Repr)
  }

  ghost function Views(m: map<Text, TrieNode>, own: set<TrieNode>): (v: map<Text, T.Trie>)
    requires m.Values <= own
    reads own`View
  {
    map k | k in m :: m[k].View
  }

  /** Taking one tree out of a forest. */
  lemma ForestSplit(m: map<Text, TrieNode>, own: set<TrieNode>, k: Text)
    requires Forest(m, own) && k in m
    ensures Forest(m - {k}, own - m[k].Repr)
    ensures m[k].Valid() && m[k].Repr <= own
    ensures (m - {k}).Values <= own - m[k].Repr && m.Values <= own
    ensures Views(m, own).Keys == m.Keys && Views(m, own)[k] == m[k].View
    ensures Views(m - {k}, own - m[k].Repr) == Views(m, own) - {k}
  {
    var rest := own - m[k].Repr;
    forall l | l in m - {k} ensures m[l] in rest && m[l].Repr <= rest {
      assert m[l].Valid() && m[l] in m[l].Repr;
    }
  }

  /** Putting one more tree into a forest. */
  lemma ForestPut(m: map<Text, TrieNode>, own: set<TrieNode>, k: Text, t: TrieNode)
    requires Forest(m, own) && k !in m && t.Valid() && t.Repr !! own
    ensures Forest(m[k := t], own + t.Repr)
    ensures m.Values <= own && m[k := t].Values <= own + t.Repr
    ensures Views(m[k := t], own + t.Repr) == Views(m, own)[k := t.View]
  {
  }

  /** The part of `m` under the keys `ks`. */
  ghost function Restrict<V>(m: map<Text, V>, ks: set<Text>): map<Text, V> { map k | k in m && k in ks :: m[k] }

  lemma Unrestrict<V>(m: map<Text, V>, ks: set<Text>, k: Text)
    requires k in ks && k in m
    ensures k in Restrict(m, ks) && Restrict(m, ks)[k] == m[k] && Restrict(m, ks) - {k} == Restrict(m, ks - {k})
  {
  }

  lemma PutBack<V>(m: map<Text, V>, k: Text, x: V)
    ensures (m - {k})[k := x] == m[k := x]
    ensures k in m && m[k] == x ==> m[k := x] == m
  {
  }

  class TrieNode {
    const prefix: Text
    var keys: map<Text, TrieNode>
    var value: Option<Token>

    // set by fillOut, which replaces the dictionary by this list
    var fullPrefix: Text
    var selfWeight: real
    var weight: real
    var order: seq<TrieNode>

    ghost var Repr: set<TrieNode>  // the objects of this subtree
    ghost var View: T.Trie         // the trie this object stands for

    ghost predicate Valid()
      reads this`keys, this`value, this`Repr, this`View, Repr`keys, Repr`value, Repr`Repr, Repr`View
      ensures Valid() ==> this in Repr
      decreases Repr, 0
    {
      && this in Repr
      && Forest(keys, Repr - {this})
      && keys.Values <= Repr - {this}
      && View == T.Trie(prefix, value, Views(keys, Repr - {this}))
    }

    lemma ValidParts()
      requires Valid()
      ensures this in Repr && Forest(keys, Repr - {this}) && keys.Values <= Repr - {this}
      ensures View == T.Trie(prefix, value, Views(keys, Repr - {this}))
      ensures View.keys.Keys == keys.Keys && forall k :: k in keys ==> View.keys[k] == keys[k].View
    {
    }

    constructor (prefix: Text)
      ensures Valid() && Repr == {this}
      ensures this.prefix == prefix && View == T.Trie(prefix, None, map[])
    {
      this.prefix := prefix;
      keys := map[];
      value := None;
      fullPrefix, selfWeight, weight, order := [], 0.0, 0.0, [];
      Repr := {this};
      View := T.Trie(prefix, None, map[]);
    }

    /** Brings the ghost fields up to date with `keys` and `value`. */
    ghost method Relink(own: set<TrieNode>)
      requires this !in own && Forest(keys, own) && keys.Values <= own
      modifies this`Repr, this`View
      ensures Valid() && Repr == own + {this}
      ensures View == T.Trie(prefix, value, old(Views(keys, own)))
    {
      hide Forest, Views;
      Repr := own + {this};
      assert Repr - {this} == own;
      View := T.Trie(prefix, value, Views(keys, own));
    }

    /** Files a new empty child under `c`. */
    method AddChild(c: Text)
      requires Valid() && c !in keys
      modifies this
      ensures Valid() && fresh(Repr - old(Repr)) && c in keys
      ensures View == old(View).(keys := old(View).keys[c := T.Trie(c, None, map[])])
    {
      hide Forest, Views;
      ghost var own := Repr - {this};
      var child := new TrieNode(c);
      ForestPut(keys, own, c, child);
      keys := keys[c := child];
      Relink(own + {child});
    }

    /** The end of an insertion. */
    method SetValue(token: Token)
      requires Valid()
      modifies this
      ensures Valid() && Repr == old(Repr)
      ensures View == old(View).(value := Some(token))
    {
      hide Forest, Views;
      value := Some(token);
      View := View.(value := Some(token));
    }

    method Insert(key: Text, token: Token)
      requires Valid()
      modifies Repr
      ensures Valid() && fresh(Repr - old(Repr))
      ensures View == T.Insert(old(View), key, token)
      decreases |key|, 1
    {
      hide Valid, Forest, Views;
      ValidParts();
      if |key| == 0 {
        SetValue(token);
      } else {
        var c := key[..1];
        if c !in keys {
          T.InsertNew(View, key, token);
          AddChild(c);
        }
        T.InsertDown(View, key, token);
        InsertBelow(c, key[1..], token);
      }
    }

    /** Goes on inserting below the child filed under `c`. */
    method InsertBelow(c: Text, rest: Text, token: Token)
      requires Valid() && c in keys
      modifies Repr
      ensures Valid() && fresh(Repr - old(Repr))
      ensures View == old(View).(keys := old(View).keys[c := T.Insert(old(View).keys[c], rest, token)])
      decreases |rest|, 2
    {
      hide *;
      ValidParts();
      var child := keys[c];
      ForestSplit(keys, Repr - {this}, c);
      ghost var others, own := keys - {c}, Repr - {this} - child.Repr;
      child.Insert(rest, token);
      ForestPut(others, own, c, child);
      PutBack(keys, c, child);
      PutBack(View.keys, c, child.View);
      Relink(own + child.Repr);
    }

    // ----- coalesce -----

    /** The loop of `coalesce` part way: children under `todo` are still to do, the others are in `newKeys`. */
    static ghost predicate Filed(v: T.Trie, todo: set<Text>, filed: map<Text, T.Trie>) {
      && todo <= v.keys.Keys
      && (forall k :: k in v.keys && k !in todo ==>
            T.Coalesce(v.keys[k]).prefix in filed && filed[T.Coalesce(v.keys[k]).prefix] == T.Coalesce(v.keys[k]))
      && (forall p :: p in filed ==> exists k :: k in v.keys && k !in todo && T.Coalesce(v.keys[k]).prefix == p)
    }

    static lemma FileNext(v: T.Trie, todo: set<Text>, filed: map<Text, T.Trie>, k: Text)
      requires T.WellKeyed(v) && Filed(v, todo, filed) && k in todo
      ensures var c := T.Coalesce(v.keys[k]);
              c.prefix !in filed && Filed(v, todo - {k}, filed[c.prefix := c])
    {
      hide T.Coalesce, T.WellKeyed;
      var c := T.Coalesce(v.keys[k]);
      forall l | l in v.keys && l != k ensures T.Coalesce(v.keys[l]).prefix != c.prefix {
        T.CoalescedApart(v, k, l);
      }
      var next := filed[c.prefix := c];
      forall p | p in next
        ensures exists l :: l in v.keys && l !in todo - {k} && T.Coalesce(v.keys[l]).prefix == p
      {
        if p in filed {
          var l :| l in v.keys && l !in todo && T.Coalesce(v.keys[l]).prefix == p;
          assert l !in todo - {k};
        } else {
          assert k !in todo - {k};
        }
      }
    }

    /** One turn of the loop: the tree under `k` leaves `left` and joins `done` under its new prefix. */
    static method CoalesceStep(node: TrieNode, k: Text, ghost left: map<Text, TrieNode>, ghost leftOwn: set<TrieNode>,
                               ghost done: map<Text, TrieNode>, ghost own: set<TrieNode>)
      returns (t: TrieNode)
      requires Forest(left, leftOwn) && k in left && left[k] == node && left.Values <= leftOwn
      requires Forest(done, own) && done.Values <= own && own !! leftOwn
      requires k in Views(left, leftOwn)
      requires T.WellKeyed(Views(left, leftOwn)[k]) && T.Coalesce(Views(left, leftOwn)[k]).prefix !in done
      modifies node.Repr
      ensures old(node.Repr) <= leftOwn && fresh(t.Repr - old(node.Repr))
      ensures t.prefix == T.Coalesce(old(Views(left, leftOwn)[k])).prefix
      ensures var left', leftOwn' := left - {k}, leftOwn - old(node.Repr);
              && Forest(left', leftOwn') && left'.Values <= leftOwn' && own + t.Repr !! leftOwn'
              && Views(left', leftOwn') == old(Views(left, leftOwn)) - {k}
      ensures var done', own' := done[t.prefix := t], own + t.Repr;
              && Forest(done', own') && done'.Values <= own'
              && Views(done', own') == old(Views(done, own))[t.prefix := T.Coalesce(old(Views(left, leftOwn)[k]))]
      decreases node.Repr, 2
    {
      hide *;
      ForestSplit(left, leftOwn, k);
      t := node.Coalesce();
      ForestPut(done, own, t.prefix, t);
    }

    /** The loop of `coalesce`: every child is coalesced and the result filed, by its prefix, in a new dictionary. */
    method CoalesceKeys() returns (newKeys: map<Text, TrieNode>, ghost own: set<TrieNode>)
      requires Valid() && T.WellKeyed(View)
      modifies Repr - {this}
      ensures this !in own && fresh(own - old(Repr)) && Forest(newKeys, own) && newKeys.Values <= own
      ensures Views(newKeys, own) == T.CoalesceChildren(View).keys
      decreases Repr, 0
    {
      hide *;
      ValidParts();
      newKeys, own := map[], {};
      ghost var left, leftOwn := keys, Repr - {this};
      var todo := keys.Keys;
      CoalesceStart();
      while todo != {}
        invariant todo <= keys.Keys && left == Restrict(keys, todo)
        invariant Forest(left, leftOwn) && left.Values <= leftOwn && leftOwn <= old(Repr) - {this}
        invariant Forest(newKeys, own) && newKeys.Values <= own && this !in own && fresh(own - old(Repr))
        invariant own !! leftOwn
        invariant Views(newKeys, own).Keys == newKeys.Keys && Filed(View, todo, Views(newKeys, own))
        invariant Views(left, leftOwn) == Restrict(View.keys, todo)
        decreases todo
      {
        var k :| k in todo;
        FileNext(View, todo, Views(newKeys, own), k);
        Unrestrict(keys, todo, k);
        Unrestrict(View.keys, todo, k);
        ForestSplit(left, leftOwn, k);
        ghost var gone := keys[k].Repr;
        var t := CoalesceStep(keys[k], k, left, leftOwn, newKeys, own);
        left, leftOwn, own := left - {k}, leftOwn - gone, own + t.Repr;
        newKeys := newKeys[t.prefix := t];
        todo := todo - {k};
      }
      CoalesceEnd(Views(newKeys, own));
    }

    lemma CoalesceStart()
      requires Valid() && T.WellKeyed(View)
      ensures Forest(map[], {}) && Views(map[], {}) == map[] && Filed(View, keys.Keys, map[])
      ensures forall k :: k in keys ==> T.WellKeyed(View.keys[k])
      ensures Views(keys, Repr - {this}) == View.keys
      ensures Restrict(keys, keys.Keys) == keys && Restrict(View.keys, keys.Keys) == View.keys
    {
    }

    lemma CoalesceEnd(filed: map<Text, T.Trie>)
      requires T.WellKeyed(View) && Filed(View, {}, filed)
      ensures filed == T.CoalesceChildren(View).keys
    {
      hide T.WellKeyed, T.Coalesce, T.CoalesceChildren;
      T.CoalescedKeys(View, filed);
    }

    method Coalesce() returns (t: TrieNode)
      requires Valid() && T.WellKeyed(View)
      modifies Repr
      ensures Valid() && fresh(Repr - old(Repr)) && View == T.CoalesceChildren(old(View))
      ensures t.Valid() && fresh(t.Repr - old(Repr)) && t.View == T.Coalesce(old(View)) && t.prefix == t.View.prefix
      decreases Repr, 1
    {
      hide Valid, Forest, Views, T.CoalesceChildren, T.Join, T.WellKeyed;
      ValidParts();
      ghost var own;
      keys, own := CoalesceKeys();
      Relink(own);
      t := JoinOnlyChild();
    }

    /** The tail of `coalesce`. */
    method JoinOnlyChild() returns (t: TrieNode)
      requires Valid()
      ensures t.Valid() && fresh(t.Repr - Repr) && t.View == T.Join(View) && t.prefix == t.View.prefix
    {
      hide Forest, Views, T.Join;
      ValidParts();
      OnlyView();
      if value.Some? || |keys| != 1 {
        t := this;
      } else {
        var p :| p in keys;
        t := new TrieNode(prefix + p);
        ForestSplit(keys, Repr - {this}, p);
        t.Adopt(keys[p]);
      }
    }

    lemma OnlyView()
      requires Valid()
      ensures value.Some? || |keys| != 1 ==> T.Join(View) == View
      ensures value.None? && |keys| == 1 ==>
                forall p :: p in keys ==> T.Join(View) == T.Trie(prefix + p, View.keys[p].value, View.keys[p].keys)
    {
      assert View.keys.Keys == keys.Keys && |View.keys| == |View.keys.Keys|;
      forall p, q | p in keys && q in keys && |keys| == 1 ensures p == q { T.OnlyKey(View.keys, p, q); }
    }

    /** Takes over the value and the dictionary of `suffix`; the children are then shared with it. */
    method Adopt(suffix: TrieNode)
      requires Valid() && Repr == {this} && suffix.Valid() && this !in suffix.Repr
      modifies this
      ensures Valid() && Repr == {this} + suffix.Repr - {suffix}
      ensures View == T.Trie(prefix, suffix.View.value, suffix.View.keys)
    {
      hide *;
      suffix.ValidParts();
      value, keys := suffix.value, suffix.keys;
      Relink(suffix.Repr - {suffix});
    }

    // ----- fillOut -----

    /** The fields of this object, and of all objects in the lists below it, are those of `f`. */
    ghost predicate FilledAs(f: C.Filled)
      reads this, Repr
      decreases f
    {
      && prefix == f.prefix && value == f.value && fullPrefix == f.fullPrefix
      && selfWeight == f.selfWeight && weight == f.weight && |order| == |f.keys|
      && forall i :: 0 <= i < |order| ==> order[i] in Repr && order[i].Repr <= Repr && order[i].FilledAs(f.keys[i])
    }

    /** The children that `list` is about are filled out as it says. */
    ghost predicate ChildrenFilled(list: seq<C.Filled>)
      reads this, Repr
    {
      forall i :: 0 <= i < |list| ==>
        && list[i].prefix in keys && keys[list[i].prefix] in Repr && keys[list[i].prefix] in keys[list[i].prefix].Repr
        && keys[list[i].prefix].Repr <= Repr - {this} && keys[list[i].prefix].FilledAs(list[i])
    }

    lemma ChildrenApart(k: Text, l: Text)
      requires Valid() && k in keys && l in keys && k != l
      ensures keys[k].Repr !! keys[l].Repr
    {
    }

    lemma ChildReady(k: Text)
      requires Valid() && T.WellKeyed(View) && k in keys
      ensures keys[k].Valid() && keys[k] in keys[k].Repr && keys[k].Repr <= Repr - {this} && keys[k].prefix == k
      ensures T.WellKeyed(keys[k].View) && View.keys[k] == keys[k].View
    {
      ForestSplit(keys, Repr - {this}, k);
      keys[k].ValidParts();
    }

    /** Fills out one child; those filled out before stay as they are. */
    method FillOutChild(k: Text, full: Text, w: C.Weights, ghost list: seq<C.Filled>) returns (g: C.Filled)
      requires Valid() && T.WellKeyed(View) && k in keys && ChildrenFilled(list)
      requires forall i :: 0 <= i < |list| ==> list[i].prefix != k
      modifies (Repr - {this})`fullPrefix, (Repr - {this})`selfWeight, (Repr - {this})`weight, (Repr - {this})`order
      ensures Valid() && ChildrenFilled(list + [g]) && k in View.keys && g.prefix == k && keys[k].weight == g.weight
      ensures C.Arranges(View.keys[k], full, g) && C.Weighted(g, w)
      decreases Repr, 0
    {
      hide Valid, Forest, Views, FilledAs, Listed, T.WellKeyed, C.Arranges, C.Weighted;
      ValidParts();
      ChildReady(k);
      forall i | 0 <= i < |list| ensures keys[list[i].prefix].Repr !! keys[k].Repr { ChildrenApart(list[i].prefix, k); }
      g := keys[k].FillOut(full, w);
    }

    /** The loop of `fillOut`: fills out every child and sums up their weights. */
    method FillOutKeys(full: Text, w: C.Weights) returns (list: seq<C.Filled>, total: real)
      requires Valid() && T.WellKeyed(View)
      modifies (Repr - {this})`fullPrefix, (Repr - {this})`selfWeight, (Repr - {this})`weight, (Repr - {this})`order
      ensures Valid() && C.Collected(View, {}, full, w, list) && total == C.SumWeights(list) && ChildrenFilled(list)
      decreases Repr, 1
    {
      hide *;
      ValidParts();
      var todo;
      list, todo, total := [], keys.Keys, 0.0;
      C.CollectStart(View, full, w);
      NoneFilled();
      while todo != {}
        invariant todo <= keys.Keys && C.Collected(View, todo, full, w, list)
        invariant total == C.SumWeights(list) && ChildrenFilled(list)
      {
        var k :| k in todo;
        C.CollectedDone(View, todo, full, w, list);
        var g := FillOutChild(k, full, w, list);
        total := total + keys[k].weight;
        C.CollectNext(View, todo, full, w, list, k, g);
        list, todo := list + [g], todo - {k};
      }
    }

    lemma NoneFilled()
      ensures ChildrenFilled([])
    {
    }

    lemma ListSorted(list: seq<C.Filled>, sorted: seq<C.Filled>)
      requires ChildrenFilled(list) && multiset(sorted) == multiset(list)
      ensures ChildrenFilled(sorted)
    {
      hide FilledAs;
      forall i | 0 <= i < |sorted| ensures sorted[i] in list { assert sorted[i] in multiset(list); }
    }

    /** `order` has the children in the order of `list`. */
    ghost predicate Listed(list: seq<C.Filled>)
      reads this
    {
      |order| == |list| && forall i :: 0 <= i < |order| ==> list[i].prefix in keys && order[i] == keys[list[i].prefix]
    }

    /** The end of `fillOut`. */
    method SetList(sorted: seq<C.Filled>, total: real)
      requires ChildrenFilled(sorted)
      modifies this`order, this`weight
      ensures ChildrenFilled(sorted) && Listed(sorted) && weight == total
    {
      hide FilledAs;
      var dictionary := keys;
      order := seq(|sorted|, i requires 0 <= i < |sorted| => dictionary[sorted[i].prefix]);
      weight := total;
    }

    lemma ListFilled(f: C.Filled)
      requires prefix == f.prefix && value == f.value && fullPrefix == f.fullPrefix
      requires selfWeight == f.selfWeight && weight == f.weight
      requires ChildrenFilled(f.keys) && Listed(f.keys)
      ensures FilledAs(f)
    {
    }

    /** Sets the four fields in the whole subtree; `f` is the result as a value, for printing. */
    method FillOut(before: Text, w: C.Weights) returns (f: C.Filled)
      requires Valid() && T.WellKeyed(View)
      modifies Repr`fullPrefix, Repr`selfWeight, Repr`weight, Repr`order
      ensures Valid() && C.Arranges(View, before, f) && C.Weighted(f, w)
      ensures FilledAs(f) && f.prefix == prefix && weight == f.weight
      ensures Listed(f.keys)
      decreases Repr, 2
    {
      hide Valid, Forest, Views, FilledAs, ChildrenFilled, Listed, T.WellKeyed, C.Collected, C.Arranges, C.Weighted;
      hide C.SumWeights, C.Descending, C.DistinctEdges, C.WeightOf;
      ValidParts();
      fullPrefix := before + prefix;
      selfWeight := C.WeightOf(w, fullPrefix);
      var list, total := FillOutKeys(fullPrefix, w);
      var sorted := C.SortByWeight(list);
      C.CollectedSorted(View, fullPrefix, w, list, sorted);
      ListSorted(list, sorted);
      SetList(sorted, selfWeight + total);
      f := C.Filled(prefix, fullPrefix, value, selfWeight, weight, sorted);
      C.CollectedFills(View, before, w, f);
      ListFilled(f);
    }
  }
}
