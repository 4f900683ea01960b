/** Which packages cygwin-downloader.py downloads: the closure of the seeded ones under their dependencies. */
module PackageClosure {

  type Name = string

  /** What the setup.ini scan records about a package. */
  datatype Package = Package(needsDownload: bool, deps: seq<Name>, path: string, version: string, foundVersion: bool)

  type Packages = map<Name, Package>

  // ----- Graphs -----

  /** The dependency lists; they may name packages that do not exist and may be cyclic. */
  function Graph(packages: Packages): (g: map<Name, seq<Name>>)
    ensures g.Keys == packages.Keys
  {
    map n | n in packages :: packages[n].deps
  }

  ghost predicate DepsIn(g: map<Name, seq<Name>>, n: Name, s: set<Name>)
    requires n in g
  {
    forall d :: d in g[n] && d in g ==> d in s
  }

  /** A set of packages that contains every known dependency of its members. */
  ghost predicate Closed(g: map<Name, seq<Name>>, s: set<Name>) {
    s <= g.Keys && forall n :: n in s ==> DepsIn(g, n, s)
  }

  /** The least closed set that contains the seeds. */
  ghost predicate IsClosure(g: map<Name, seq<Name>>, seeds: set<Name>, s: set<Name>) {
    Closed(g, s) && seeds <= s && forall other :: Closed(g, other) && seeds <= other ==> s <= other
  }

  function Members(names: seq<Name>): set<Name> { set n | n in names }

  /** From `before` to `after` the known `roots` and all that they lead to were added, and nothing else. */
  ghost predicate Grows(g: map<Name, seq<Name>>, before: set<Name>, after: set<Name>, roots: set<Name>) {
    && before <= after <= g.Keys && roots * g.Keys <= after
    && (forall n :: n in after - before ==> DepsIn(g, n, after))
    && (forall s :: Closed(g, s) && before <= s && roots * g.Keys <= s ==> after <= s)
  }

  lemma GrowsNot(g: map<Name, seq<Name>>, names: set<Name>, name: Name)
    requires names <= g.Keys && (name in names || name !in g)
    ensures Grows(g, names, names, {name})
  {
  }

  lemma GrowsNothing(g: map<Name, seq<Name>>, names: set<Name>)
    requires names <= g.Keys
    ensures Grows(g, names, names, {})
  {
  }

  lemma GrowsUp(g: map<Name, seq<Name>>, a: set<Name>, b: set<Name>, roots: set<Name>)
    requires Grows(g, a, b, roots)
    ensures a <= b <= g.Keys && roots * g.Keys <= b
  {
  }

  lemma GrowsOn(g: map<Name, seq<Name>>, a: set<Name>, b: set<Name>, c: set<Name>, roots: set<Name>, name: Name)
    requires Grows(g, a, b, roots) && Grows(g, b, c, {name})
    ensures Grows(g, a, c, roots + {name})
  {
    forall n | n in c - a ensures DepsIn(g, n, c) {
      if n in b { assert DepsIn(g, n, b); }
    }
    forall s | Closed(g, s) && a <= s && (roots + {name}) * g.Keys <= s ensures c <= s {
      assert roots * g.Keys <= s && {name} * g.Keys <= s;
      assert b <= s;
    }
    assert (roots + {name}) * g.Keys == roots * g.Keys + {name} * g.Keys;
  }

  /** A package is added before its dependencies are followed. */
  lemma GrowsBy(g: map<Name, seq<Name>>, a: set<Name>, name: Name, c: set<Name>)
    requires a <= g.Keys && name in g && name !in a
    requires Grows(g, a + {name}, c, Members(g[name]))
    ensures Grows(g, a, c, {name})
  {
    var deps := Members(g[name]);
    forall n | n in c - a ensures DepsIn(g, n, c) {
      if n == name {
        forall d | d in g[name] && d in g ensures d in c { assert d in deps * g.Keys; }
      }
    }
    forall s | Closed(g, s) && a <= s && {name} * g.Keys <= s ensures c <= s {
      assert name in {name} * g.Keys;
      assert DepsIn(g, name, s);
      assert deps * g.Keys <= s;
    }
    assert {name} * g.Keys == {name};
  }

  function Flagged(packages: Packages): set<Name> {
    set n | n in packages && packages[n].needsDownload
  }

  /** `order` is every key once. */
  ghost predicate Enumerates(order: seq<Name>, keys: set<Name>) {
    && (forall i, j :: 0 <= i < j < |order| ==> order[i] != order[j])
    && (forall n :: n in order <==> n in keys)
  }

  datatype Message = Message(number: nat, total: nat, name: Name)

  class Downloader {
    var packages: Packages
    var namesToDownload: set<Name>

    constructor (packages: Packages)
      ensures this.packages == packages && namesToDownload == {}
    {
      this.packages := packages;
      namesToDownload := {};
    }

    /** What a call changes: the set grows, the flags of the added packages are set, the graph stays. */
    twostate predicate Grown(roots: set<Name>)
      reads this
    {
      && Graph(packages) == old(Graph(packages)) && packages.Keys == old(packages.Keys)
      && Grows(Graph(packages), old(namesToDownload), namesToDownload, roots)
      && Flagged(packages) == old(Flagged(packages)) + (namesToDownload - old(namesToDownload))
    }

    /** add_package_and_dependencies. */
    method Add(name: Name)
      requires namesToDownload <= packages.Keys
      modifies this
      ensures Grown({name})
      decreases packages.Keys - namesToDownload, 0
    {
      hide Grows, Closed, DepsIn;
      ghost var g := Graph(packages);
      if name in namesToDownload {
        GrowsNot(g, namesToDownload, name);
        return;
      }
      if name !in packages {
        GrowsNot(g, namesToDownload, name);
        return;
      }
      Mark(name);
      AddAll(packages[name].deps);
      GrowsBy(g, old(namesToDownload), name, namesToDownload);
    }

    method Mark(name: Name)
      requires name in packages && namesToDownload <= packages.Keys
      modifies this
      ensures namesToDownload == old(namesToDownload) + {name} && packages.Keys == old(packages.Keys)
      ensures Graph(packages) == old(Graph(packages)) && Flagged(packages) == old(Flagged(packages)) + {name}
      ensures packages[name].deps == old(packages[name].deps)
    {
      packages := packages[name := packages[name].(needsDownload := true)];
      namesToDownload := namesToDownload + {name};
    }

    /** The loop over the dependencies. */
    method AddAll(deps: seq<Name>)
      requires namesToDownload <= packages.Keys
      modifies this
      ensures Grown(Members(deps))
      decreases packages.Keys - namesToDownload, 1
    {
      hide Grows, Closed, DepsIn, Flagged;
      ghost var g := Graph(packages);
      GrowsNothing(g, namesToDownload);
      assert Members(deps[..0]) == {};
      for i := 0 to |deps|
        invariant Grown(Members(deps[..i]))
        invariant namesToDownload <= packages.Keys && old(namesToDownload) <= namesToDownload
      {
        ghost var before, flagged := namesToDownload, Flagged(packages);
        Add(deps[i]);
        assert Flagged(packages) == flagged + (namesToDownload - before);
        GrowsUp(g, before, namesToDownload, {deps[i]});
        assert Members(deps[..i + 1]) == Members(deps[..i]) + {deps[i]};
        GrowsOn(g, old(namesToDownload), before, namesToDownload, Members(deps[..i]), deps[i]);
      }
      assert deps[..|deps|] == deps;
    }

    /** The first loop over the names: every flagged package is added with all it needs. */
    method AddFlagged(order: seq<Name>)
      requires namesToDownload == {} && Enumerates(order, packages.Keys)
      modifies this
      ensures Graph(packages) == old(Graph(packages)) && packages.Keys == old(packages.Keys)
      ensures IsClosure(Graph(packages), old(Flagged(packages)), namesToDownload)
      ensures Flagged(packages) == namesToDownload
    {
      hide Grows, Closed, DepsIn, Enumerates, Below, Graph, IsClosure, Flagged;
      ghost var g, seeds := Graph(packages), Flagged(packages);
      ClosureStart(packages, seeds);
      for i := 0 to |order|
        invariant Graph(packages) == g && packages.Keys == old(packages.Keys) && namesToDownload <= packages.Keys
        invariant Closed(g, namesToDownload) && Below(g, seeds, namesToDownload)
        invariant Flagged(packages) == seeds + namesToDownload
        invariant forall j :: 0 <= j < i && order[j] in seeds ==> order[j] in namesToDownload
      {
        ghost var before := namesToDownload;
        EnumeratesAt(order, packages, i);
        if packages[order[i]].needsDownload {
          Add(order[i]);
          ClosureStep(g, seeds, before, namesToDownload, order[i]);
        }
      }
      ClosureEnd(packages, seeds, namesToDownload, order);
    }

    /** The download loop: one message for every package of the set, numbered from one up to the size of the set. */
    method DownloadAll(order: seq<Name>) returns (messages: seq<Message>)
      requires Enumerates(order, packages.Keys) && Flagged(packages) == namesToDownload
      ensures |messages| == |namesToDownload| == |Chosen(order, namesToDownload)|
      ensures forall k :: 0 <= k < |messages| ==>
                messages[k] == Message(k + 1, |namesToDownload|, Chosen(order, namesToDownload)[k])
      ensures Members(Chosen(order, namesToDownload)) == namesToDownload
    {
      hide Enumerates;
      var downloadedSoFar := 0;
      messages := [];
      ChosenAll(order, packages);
      for i := 0 to |order|
        invariant downloadedSoFar == |messages| == |Chosen(order[..i], namesToDownload)|
        invariant forall k :: 0 <= k < |messages| ==>
                    messages[k] == Message(k + 1, |namesToDownload|, Chosen(order[..i], namesToDownload)[k])
      {
        EnumeratesAt(order, packages, i);
        assert order[..i + 1][..i] == order[..i];
        if packages[order[i]].needsDownload {
          downloadedSoFar := downloadedSoFar + 1;
          messages := messages + [Message(downloadedSoFar, |namesToDownload|, order[i])];
        }
      }
      assert order[..|order|] == order;
    }
  }

  /** The names of a set in the given order. */
  function Chosen(order: seq<Name>, names: set<Name>): (r: seq<Name>) {
    if order == [] then []
    else
      var last := order[|order| - 1];
      Chosen(order[..|order| - 1], names) + if last in names then [last] else []
  }

  lemma MembersAdd(names: seq<Name>, n: Name)
    ensures Members(names + [n]) == Members(names) + {n} && Members([]) == {} && (n in Members(names) <==> n in names)
  {
  }

  lemma {:induction false} ChosenMembers(order: seq<Name>, names: set<Name>)
    requires forall i, j :: 0 <= i < j < |order| ==> order[i] != order[j]
    ensures Members(Chosen(order, names)) == Members(order) * names
    ensures |Chosen(order, names)| == |Members(order) * names|
  {
    hide Members;
    MembersAdd([], "");
    if order == [] {
      assert {} * names == {};
    } else {
      var init, last := order[..|order| - 1], order[|order| - 1];
      ChosenMembers(init, names);
      assert order == init + [last];
      MembersAdd(init, last);
      MembersAdd(Chosen(init, names), last);
      var before, after := Members(init) * names, Members(order) * names;
      if last in names {
        assert last !in init;
        assert after == before + {last};
      } else {
        assert after == before;
        assert Chosen(order, names) == Chosen(init, names);
      }
    }
  }

  lemma ChosenAll(order: seq<Name>, packages: Packages)
    requires Enumerates(order, packages.Keys)
    ensures var names := Flagged(packages);
            Members(Chosen(order, names)) == names && |Chosen(order, names)| == |names|
  {
    ChosenMembers(order, Flagged(packages));
    assert Members(order) * Flagged(packages) == Flagged(packages);
  }

  // ----- Closure -----

  ghost predicate Below(g: map<Name, seq<Name>>, seeds: set<Name>, names: set<Name>) {
    forall s :: Closed(g, s) && seeds <= s ==> names <= s
  }

  lemma ClosureStart(packages: Packages, seeds: set<Name>)
    ensures Closed(Graph(packages), {}) && Below(Graph(packages), seeds, {})
  {
  }

  lemma ClosureStep(g: map<Name, seq<Name>>, seeds: set<Name>, before: set<Name>, after: set<Name>, name: Name)
    requires Closed(g, before) && Below(g, seeds, before) && Grows(g, before, after, {name}) && name in seeds + before
    ensures Closed(g, after) && Below(g, seeds, after) && before <= after <= g.Keys
    ensures name in g ==> name in after
  {
    forall n | n in after ensures DepsIn(g, n, after) {
      if n in before { assert DepsIn(g, n, before); }
    }
    forall s | Closed(g, s) && seeds <= s ensures after <= s {
      assert before <= s && {name} * g.Keys <= s;
    }
    if name in g { assert name in {name} * g.Keys; }
  }

  lemma ClosureEnd(packages: Packages, seeds: set<Name>, names: set<Name>, order: seq<Name>)
    requires Closed(Graph(packages), names) && Below(Graph(packages), seeds, names)
    requires Flagged(packages) == seeds + names && Enumerates(order, packages.Keys)
    requires forall j :: 0 <= j < |order| && order[j] in seeds ==> order[j] in names
    ensures IsClosure(Graph(packages), seeds, names) && Flagged(packages) == names
  {
    forall n | n in seeds ensures n in names {
      assert n in Flagged(packages);
      assert n in order;
      var j :| 0 <= j < |order| && order[j] == n;
    }
  }

  lemma EnumeratesAt(order: seq<Name>, packages: Packages, i: nat)
    requires Enumerates(order, packages.Keys) && i < |order|
    ensures order[i] in packages && (packages[order[i]].needsDownload <==> order[i] in Flagged(packages))
    ensures order[i] !in order[..i] && order[i] in Graph(packages)
  {
  }
}
