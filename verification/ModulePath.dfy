/** Module path resolution of the jsc shell, with the Unix separator. */
module ModulePath {
  import opened Basics
  import opened StringPieces

  const Separator := '/'

  datatype DirectoryName = DirectoryName(rootName: string, queryName: string)

  // ----- Names -----

  /** The queries of a module name: its pieces, empty ones included. */
  function Queries(moduleName: string): seq<string> { Pieces(moduleName, Separator) }

  predicate StartsWithRoot(queries: seq<string>) { queries != [] && queries[0] == "" }

  function DirectoryPieces(dir: DirectoryName): seq<string> { NonEmpty(Pieces(dir.queryName, Separator)) }

  /** A root is a string that has its only separator at the end. */
  ghost predicate IsRoot(root: string) {
    root != "" && root[|root| - 1] == Separator && Separator !in root[..|root| - 1]
  }

  predicate IsNormal(piece: string) { piece != "" && piece != "." && piece != ".." && Separator !in piece }

  ghost predicate AllNormal(pieces: seq<string>) { forall i :: 0 <= i < |pieces| ==> IsNormal(pieces[i]) }

  // ----- extractDirectoryName -----

  function FindLast(s: string, c: char): (i: int)
    ensures -1 <= i < |s| && (i >= 0 ==> s[i] == c) && forall j :: i < j < |s| ==> s[j] != c
  {
    if s == "" then -1
    else if s[|s| - 1] == c then |s| - 1
    else FindLast(s[..|s| - 1], c)
  }

  /** The directory of a file; None if the path has no separator. */
  method ExtractDirectoryName(path: string) returns (dir: Option<DirectoryName>)
    ensures dir == DirectoryOf(path)
  {
    var firstSeparatorPosition := Find(path, Separator, 0);
    if firstSeparatorPosition == |path| {
      return None;
    }
    var rootName := path[..firstSeparatorPosition + 1];
    var lastSeparatorPosition := FindLast(path, Separator);
    var queryName := "";
    if firstSeparatorPosition != lastSeparatorPosition {
      var queryStartPosition := firstSeparatorPosition + 1;
      LastNotBefore(path, firstSeparatorPosition, lastSeparatorPosition);
      var queryLength := lastSeparatorPosition - queryStartPosition;
      queryName := path[queryStartPosition..queryStartPosition + queryLength];
    }
    dir := Some(DirectoryName(rootName, queryName));
  }

  lemma LastNotBefore(path: string, first: nat, last: int)
    requires first < |path| && path[first] == Separator && last == FindLast(path, Separator)
    ensures first <= last
  {
  }

  /** Root up to the first separator; query between the first and the last one. */
  function DirectoryOf(path: string): Option<DirectoryName> {
    var first := Find(path, Separator, 0);
    if first == |path| then None
    else
      var last := FindLast(path, Separator);
      LastNotBefore(path, first, last);
      Some(DirectoryName(path[..first + 1], if first == last then "" else path[first + 1..last]))
  }

  // ----- resolvePath -----

  /** One query applied to the pieces so far. */
  function Apply(pieces: seq<string>, query: string): seq<string> {
    if query == ".." then (if pieces == [] then pieces else pieces[..|pieces| - 1])
    else if query == "" || query == "." then pieces
    else pieces + [query]
  }

  function Walk(pieces: seq<string>, queries: seq<string>): seq<string>
    decreases |queries|
  {
    if queries == [] then pieces else Apply(Walk(pieces, queries[..|queries| - 1]), queries[|queries| - 1])
  }

  /** The pieces of the resolved path. */
  function ResolvedPieces(dir: DirectoryName, queries: seq<string>): seq<string> {
    Walk(if StartsWithRoot(queries) then [] else DirectoryPieces(dir), queries)
  }

  function Resolve(dir: DirectoryName, moduleName: string): string {
    dir.rootName + Join(ResolvedPieces(dir, Queries(moduleName)), Separator)
  }

  method ResolvePath(dir: DirectoryName, moduleName: string) returns (path: string)
    ensures path == Resolve(dir, moduleName)
  {
    var queries := Queries(moduleName);
    var directoryPieces := DirectoryPieces(dir);
    if StartsWithRoot(queries) {
      directoryPieces := [];
    }
    ghost var start := directoryPieces;
    for i := 0 to |queries|
      invariant directoryPieces == Walk(start, queries[..i])
    {
      var query := queries[i];
      assert queries[..i + 1][..i] == queries[..i];
      if query == ".." {
        if directoryPieces != [] {
          directoryPieces := directoryPieces[..|directoryPieces| - 1];
        }
      } else if query != "" && query != "." {
        directoryPieces := directoryPieces + [query];
      }
    }
    assert queries[..|queries|] == queries;
    path := Build(dir.rootName, directoryPieces);
  }

  /** The loop that appends the pieces with separators between them. */
  method Build(rootName: string, pieces: seq<string>) returns (builder: string)
    ensures builder == rootName + Join(pieces, Separator)
  {
    hide Join;
    builder := rootName;
    JoinNothing();
    for i := 0 to |pieces|
      invariant builder == rootName + Join(pieces[..i], Separator) + if 0 < i < |pieces| then [Separator] else []
    {
      assert pieces[..i + 1] == pieces[..i] + [pieces[i]];
      JoinSnoc(pieces[..i], pieces[i], Separator);
      builder := builder + pieces[i];
      if i + 1 != |pieces| {
        builder := builder + [Separator];
      }
    }
    assert pieces[..|pieces|] == pieces;
  }

  // ----- Resolved paths are normal -----

  lemma {:induction false} WalkNormal(pieces: seq<string>, queries: seq<string>)
    requires AllNormal(pieces) && Without(queries, Separator)
    ensures AllNormal(Walk(pieces, queries))
    decreases |queries|
  {
    if queries != [] { WalkNormal(pieces, queries[..|queries| - 1]); }
  }

  /** From a directory without "." and "..", every module name resolves to the root and normal pieces. */
  lemma {:induction false} ResolvedNormal(dir: DirectoryName, moduleName: string)
    requires AllNormal(DirectoryPieces(dir))
    ensures AllNormal(ResolvedPieces(dir, Queries(moduleName)))
  {
    PiecesWithout(moduleName, Separator);
    WalkNormal(if StartsWithRoot(Queries(moduleName)) then [] else DirectoryPieces(dir), Queries(moduleName));
  }

  /** A module name starts with the root if it is empty or starts with a separator. */
  lemma {:induction false} StartsWithRootMeans(moduleName: string)
    ensures StartsWithRoot(Queries(moduleName)) <==> moduleName == "" || moduleName[0] == Separator
  {
    var i := Find(moduleName, Separator, 0);
    assert Queries(moduleName)[0] == moduleName[..i];
  }

  /** Such a module name resolves the same from every directory with the same root. */
  lemma {:induction false} AbsoluteIgnoresDirectory(dir: DirectoryName, other: DirectoryName, moduleName: string)
    requires dir.rootName == other.rootName && (moduleName == "" || moduleName[0] == Separator)
    ensures Resolve(dir, moduleName) == Resolve(other, moduleName)
  {
    StartsWithRootMeans(moduleName);
  }

  // ----- Directories of resolved paths -----

  lemma FindLastSplit(a: string, b: string, c: char)
    requires c !in b
    ensures FindLast(a + [c] + b, c) == |a|
  {
    var s := a + [c] + b;
    assert s[|a|] == c && forall j :: 0 <= j < |b| ==> s[|a| + 1 + j] == b[j];
    forall j | |a| < j < |s| ensures s[j] != c { assert s[j] == b[j - |a| - 1]; }
  }

  lemma FindRoot(root: string, rest: string)
    requires IsRoot(root)
    ensures Find(root + rest, Separator, 0) == |root| - 1
  {
    FindSplit(root[..|root| - 1], Separator, rest);
    assert root + rest == root[..|root| - 1] + [Separator] + rest;
  }

  /** The directory of a resolved path is the root and all pieces but the last. */
  lemma {:induction false} DirectoryOfResolved(root: string, init: seq<string>, last: string)
    requires IsRoot(root) && AllNormal(init) && IsNormal(last)
    ensures DirectoryOf(root + Join(init + [last], Separator)) == Some(DirectoryName(root, Join(init, Separator)))
  {
    hide Join, Find, FindLast;
    var path := root + Join(init + [last], Separator);
    FindRoot(root, Join(init + [last], Separator));
    JoinSnoc(init, last, Separator);
    if init == [] {
      JoinNothing();
      assert path == root[..|root| - 1] + [Separator] + last;
      FindLastSplit(root[..|root| - 1], last, Separator);
      assert path[..|root|] == root;
    } else {
      var a := root + Join(init, Separator);
      assert path == a + [Separator] + last;
      FindLastSplit(a, last, Separator);
      JoinLonger(init);
      assert path[..|root|] == root && path[|root|..|a|] == Join(init, Separator);
    }
  }

  lemma JoinLonger(pieces: seq<string>)
    requires pieces != [] && AllNormal(pieces)
    ensures Join(pieces, Separator) != ""
  {
    assert IsNormal(pieces[0]);
  }

  lemma RootIsItsDirectory(root: string)
    requires IsRoot(root)
    ensures DirectoryOf(root) == Some(DirectoryName(root, ""))
  {
    FindRoot(root, "");
    assert root + "" == root;
    FindLastSplit(root[..|root| - 1], "", Separator);
    assert root == root[..|root| - 1] + [Separator] + "";
  }

  lemma PiecesOfDirectory(root: string, pieces: seq<string>)
    requires AllNormal(pieces)
    ensures DirectoryPieces(DirectoryName(root, Join(pieces, Separator))) == pieces
  {
    if pieces == [] {
      PiecesCons("", Separator, "");
      assert NonEmpty([""]) == [];
    } else {
      assert Without(pieces, Separator);
      PiecesOfJoin(pieces, Separator);
      NonEmptyAll(pieces);
    }
  }

  /** A resolved path resolves to itself when its last piece is looked up in its own directory. */
  lemma {:induction false} ResolveSibling(root: string, init: seq<string>, last: string)
    requires IsRoot(root) && AllNormal(init) && IsNormal(last)
    ensures var path := root + Join(init + [last], Separator);
            && DirectoryOf(path).Some?
            && Resolve(DirectoryOf(path).value, "./" + last) == path
  {
    var path := root + Join(init + [last], Separator);
    DirectoryOfResolved(root, init, last);
    PiecesOfDirectory(root, init);
    assert "." + [Separator] + last == "./" + last;
    PiecesCons(".", Separator, last);
    PiecesCons(last, Separator, "");
    var queries := [".", last];
    assert Queries("./" + last) == [".", last];
    assert queries[..1] == ["."] && ["."][..0] == [];
    assert Walk(init, ["."]) == init;
    assert Walk(init, queries) == init + [last];
  }

  /** The same for whatever a module name resolves to from a normalised directory, unless it is the root itself. */
  lemma {:induction false} ResolveAgain(dir: DirectoryName, moduleName: string)
    requires IsRoot(dir.rootName) && AllNormal(DirectoryPieces(dir))
    ensures var path := Resolve(dir, moduleName);
            var pieces := ResolvedPieces(dir, Queries(moduleName));
            && (pieces == [] ==> path == dir.rootName && DirectoryOf(path) == Some(DirectoryName(path, "")))
            && (pieces != [] ==>
                  var init, last := pieces[..|pieces| - 1], pieces[|pieces| - 1];
                  && DirectoryOf(path) == Some(DirectoryName(dir.rootName, Join(init, Separator)))
                  && DirectoryPieces(DirectoryOf(path).value) == init
                  && Resolve(DirectoryOf(path).value, "./" + last) == path)
  {
    hide Walk, DirectoryOf, DirectoryPieces, Join;
    var pieces := ResolvedPieces(dir, Queries(moduleName));
    ResolvedNormal(dir, moduleName);
    if pieces == [] {
      JoinNothing();
      assert dir.rootName + "" == dir.rootName;
      RootIsItsDirectory(dir.rootName);
    } else {
      var init, last := pieces[..|pieces| - 1], pieces[|pieces| - 1];
      assert pieces == init + [last];
      assert AllNormal(init) && IsNormal(last);
      DirectoryOfResolved(dir.rootName, init, last);
      PiecesOfDirectory(dir.rootName, init);
      ResolveSibling(dir.rootName, init, last);
    }
  }

  // ----- What a file name says about its directory -----

  ghost predicate IsFileIn(path: string, dir: DirectoryName, file: string) {
    && Separator !in file
    && (|| (dir.queryName == "" && path == dir.rootName + file)
        || path == dir.rootName + dir.queryName + [Separator] + file)
  }

  /** A path has a directory exactly if it has a separator, and then is root, query, separator and file name again. */
  lemma {:induction false} DirectoryMeans(path: string)
    ensures DirectoryOf(path).None? <==> Separator !in path
    ensures DirectoryOf(path).Some? ==>
              IsRoot(DirectoryOf(path).value.rootName) && exists file :: IsFileIn(path, DirectoryOf(path).value, file)
  {
    hide Find, FindLast, IsFileIn, IsRoot;
    var first := Find(path, Separator, 0);
    if first < |path| {
      var last := FindLast(path, Separator);
      LastNotBefore(path, first, last);
      RootUpTo(path, first);
      FileAfter(path, first, last);
    }
  }

  lemma RootUpTo(path: string, first: nat)
    requires first < |path| && path[first] == Separator && forall j :: 0 <= j < first ==> path[j] != Separator
    ensures IsRoot(path[..first + 1])
  {
    assert path[..first + 1][..first] == path[..first];
  }

  lemma FileAfter(path: string, first: nat, last: nat)
    requires first <= last < |path| && path[last] == Separator && forall j :: last < j < |path| ==> path[j] != Separator
    ensures IsFileIn(path, DirectoryName(path[..first + 1], if first == last then "" else path[first + 1..last]), path[last + 1..])
  {
    if first == last {
      assert path == path[..first + 1] + path[last + 1..];
    } else {
      assert path == path[..first + 1] + path[first + 1..last] + [Separator] + path[last + 1..];
    }
  }

  // ----- Up and down -----

  lemma {:induction false} WalkConcat(pieces: seq<string>, a: seq<string>, b: seq<string>)
    ensures Walk(pieces, a + b) == Walk(Walk(pieces, a), b)
    decreases |b|
  {
    hide Apply;
    if b == [] {
      assert a + b == a;
    } else {
      assert (a + b)[..|a + b| - 1] == a + b[..|b| - 1];
      WalkConcat(pieces, a, b[..|b| - 1]);
    }
  }

  lemma WalkOne(pieces: seq<string>, query: string)
    ensures Walk(pieces, [query]) == Apply(pieces, query)
  {
    assert [query][..0] == [];
  }

  lemma WalkTwo(pieces: seq<string>, a: string, b: string)
    ensures Walk(pieces, [a, b]) == Apply(Apply(pieces, a), b)
  {
    hide Apply;
    assert [a, b] == [a] + [b];
    WalkConcat(pieces, [a], [b]);
    WalkOne(pieces, a);
    WalkOne(Walk(pieces, [a]), b);
  }

  /** How far the queries lead above where they start. */
  function Climbs(queries: seq<string>): (n: nat)
    decreases |queries|
  {
    if queries == [] then 0
    else
      var init := queries[..|queries| - 1];
      Climbs(init) + if queries[|queries| - 1] == ".." && Walk([], init) == [] then 1 else 0
  }

  /** What is left of `pieces` after going up `n` levels; at the top one stays there. */
  function Up(pieces: seq<string>, n: nat): (rest: seq<string>) { if n < |pieces| then pieces[..|pieces| - n] else [] }

  /** Wherever they start, queries go up the same number of levels and then down the same pieces. */
  lemma {:induction false} WalkUpAndDown(pieces: seq<string>, queries: seq<string>)
    ensures Walk(pieces, queries) == Up(pieces, Climbs(queries)) + Walk([], queries)
    decreases |queries|
  {
    hide Apply, Up;
    if queries == [] {
      assert Up(pieces, 0) == pieces by { UpNone(pieces); }
    } else {
      var init, query := queries[..|queries| - 1], queries[|queries| - 1];
      WalkUpAndDown(pieces, init);
      ApplyLower(Up(pieces, Climbs(init)), Walk([], init), query);
      UpOnce(pieces, Climbs(init));
    }
  }

  lemma UpNone(pieces: seq<string>)
    ensures Up(pieces, 0) == pieces
  {
  }

  lemma UpOnce(pieces: seq<string>, n: nat)
    ensures Up(pieces, n + 1) == Apply(Up(pieces, n), "..")
  {
  }

  /** A query acts on the lower pieces, unless it leads up and there are none. */
  lemma ApplyLower(up: seq<string>, down: seq<string>, query: string)
    ensures Apply(up + down, query)
         == if query == ".." && down == [] then Apply(up, "..") else up + Apply(down, query)
    ensures query == ".." && down == [] ==> Apply(down, query) == []
  {
    if down == [] {
      assert up + down == up;
    } else {
      assert (up + down)[..|up + down| - 1] == up + down[..|down| - 1];
    }
  }

  /** A name that does not start with the root is resolved by going up and down from the directory. */
  lemma {:induction false} RelativeMeans(dir: DirectoryName, moduleName: string)
    requires moduleName != "" && moduleName[0] != Separator
    ensures var queries := Queries(moduleName);
            ResolvedPieces(dir, queries) == Up(DirectoryPieces(dir), Climbs(queries)) + Walk([], queries)
  {
    hide Walk, Climbs;
    StartsWithRootMeans(moduleName);
    WalkUpAndDown(DirectoryPieces(dir), Queries(moduleName));
  }

  /** Plain names only lead down; each "..", before them, leads up one level. */
  lemma {:induction false} ClimbsThenNames(n: nat, names: seq<string>)
    requires AllNormal(names)
    ensures var queries := seq(n, _ => "..") + names; Climbs(queries) == n && Walk([], queries) == names
    decreases n + |names|
  {
    var ups := seq(n, _ => "..");
    var queries := ups + names;
    if names == [] {
      assert queries == ups;
      if n > 0 {
        ClimbsThenNames(n - 1, []);
        var fewer := seq(n - 1, _ => "..");
        assert fewer + [] == fewer && ups[..n - 1] == fewer;
      }
    } else {
      var init := names[..|names| - 1];
      ClimbsThenNames(n, init);
      assert queries[..|queries| - 1] == ups + init && queries[|queries| - 1] == names[|names| - 1];
      assert names == init + [names[|names| - 1]];
    }
  }

  /** "../" and a name: a sibling of the directory, or at the root the name itself. */
  lemma {:induction false} ResolveParent(root: string, pieces: seq<string>, name: string)
    requires IsRoot(root) && AllNormal(pieces) && IsNormal(name)
    ensures Resolve(DirectoryName(root, Join(pieces, Separator)), "../" + name)
         == root + if pieces == [] then name else Join(pieces[..|pieces| - 1] + [name], Separator)
  {
    hide *;
    var dir := DirectoryName(root, Join(pieces, Separator));
    PiecesOfDirectory(root, pieces);
    ParentQueries(name);
    ParentPieces(dir, name);
    JoinOne(name);
    ResolveIs(dir, "../" + name);
  }

  lemma ResolveIs(dir: DirectoryName, moduleName: string)
    ensures Resolve(dir, moduleName) == dir.rootName + Join(ResolvedPieces(dir, Queries(moduleName)), Separator)
  {
  }

  lemma ParentQueries(name: string)
    requires IsNormal(name)
    ensures Queries("../" + name) == ["..", name]
  {
    hide Pieces;
    assert "../" + name == ".." + [Separator] + name;
    PiecesCons("..", Separator, name);
    PiecesCons(name, Separator, "");
  }

  lemma ParentPieces(dir: DirectoryName, name: string)
    requires IsNormal(name)
    ensures var pieces := DirectoryPieces(dir);
            ResolvedPieces(dir, ["..", name]) == if pieces == [] then [name] else pieces[..|pieces| - 1] + [name]
  {
    hide Walk, DirectoryPieces;
    WalkTwo(DirectoryPieces(dir), "..", name);
  }

  lemma JoinOne(name: string)
    ensures Join([name], Separator) == name
  {
  }

  /** Queries that say nothing can be left out. */
  lemma {:induction false} NothingSaid(pieces: seq<string>, a: seq<string>, query: string, b: seq<string>)
    requires query == "" || query == "."
    ensures Walk(pieces, a + [query] + b) == Walk(pieces, a + b)
  {
    hide Walk;
    WalkConcat(pieces, a, b);
    WalkConcat(pieces, a + [query], b);
    WalkConcat(pieces, a, [query]);
    WalkOne(Walk(pieces, a), query);
  }

  /** Going down to a name and up again can be left out. */
  lemma DownAndUp(pieces: seq<string>, a: seq<string>, name: string, b: seq<string>)
    requires IsNormal(name)
    ensures Walk(pieces, a + [name, ".."] + b) == Walk(pieces, a + b)
  {
    hide Walk;
    WalkConcat(pieces, a, b);
    WalkConcat(pieces, a + [name, ".."], b);
    WalkConcat(pieces, a, [name, ".."]);
    WalkTwo(Walk(pieces, a), name, "..");
    var p := Walk(pieces, a);
    assert (p + [name])[..|p|] == p;
  }

  /**
   Leaving such a pair out of a module name does not change what it resolves to, except that at the front it can turn a
   name that is resolved from the directory into one that is resolved from the root; then it does not exactly if the
   name climbs out of the directory anyway.
   */
  lemma {:induction false} CancelExactly(dir: DirectoryName, a: seq<string>, name: string, b: seq<string>)
    requires IsNormal(name)
    ensures ResolvedPieces(dir, a + [name, ".."] + b) == ResolvedPieces(dir, a + b)
       <==> a != [] || (b != [] && b[0] != "") || a + b == [] || Climbs(b) >= |DirectoryPieces(dir)|
  {
    hide Walk, Climbs, DirectoryPieces;
    var long, short := a + [name, ".."] + b, a + b;
    var pieces := DirectoryPieces(dir);
    DownAndUp(pieces, a, name, b);
    DownAndUp([], a, name, b);
    if a == [] {
      assert long[0] == name && short == b;
      WalkUpAndDown(pieces, b);
    } else {
      assert long[0] == a[0] && short[0] == a[0];
    }
  }

  lemma JoinNothing()
    ensures Join([], Separator) == ""
  {
  }
}
