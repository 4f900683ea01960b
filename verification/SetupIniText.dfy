/** The lines of a setup.ini file as text: what each of them says, and that a file written from records is read back. */
module SetupIniText {
  import opened Basics
  import opened PackageClosure
  import opened SetupIni

  // ----- Words -----

  /** A space, a tab, a line feed, a vertical tab, a form feed or a carriage return. */
  predicate Blank(c: char) { c as int == 32 || 9 <= c as int <= 13 }

  predicate Blanks(s: string) { forall i :: 0 <= i < |s| ==> Blank(s[i]) }

  predicate IsWord(w: string) { w != "" && forall i :: 0 <= i < |w| ==> !Blank(w[i]) }

  /** `s` begins with the word `w`, after the blanks `gap` and before the end or a blank. */
  ghost predicate StartsWith(s: string, gap: string, w: string, rest: string) {
    s == gap + w + rest && Blanks(gap) && IsWord(w) && (rest == "" || Blank(rest[0]))
  }

  /** `s` is the words `ws`, with blanks between them and possibly around them. */
  ghost predicate Spells(s: string, ws: seq<string>)
    decreases |ws|
  {
    if ws == [] then Blanks(s)
    else exists gap, rest :: StartsWith(s, gap, ws[0], rest) && Spells(rest, ws[1..])
  }

  lemma SpaceIsBlank(c: char)
    ensures IsSpace(c) <==> Blank(c)
  {
  }

  lemma {:induction false} WordsAfterBlanks(gap: string, s: string)
    requires Blanks(gap)
    ensures Words(gap + s, "") == Words(s, "")
    decreases |gap|
  {
    if gap == "" {
      assert gap + s == s;
    } else {
      SpaceIsBlank(gap[0]);
      assert (gap + s)[1..] == gap[1..] + s;
      WordsAfterBlanks(gap[1..], s);
    }
  }

  lemma {:induction false} WordsInWord(w: string, s: string, read: string)
    requires forall i :: 0 <= i < |w| ==> !Blank(w[i])
    ensures Words(w + s, read) == Words(s, read + w)
    decreases |w|
  {
    if w == "" {
      assert w + s == s && read + w == read;
    } else {
      SpaceIsBlank(w[0]);
      assert (w + s)[1..] == w[1..] + s;
      WordsInWord(w[1..], s, read + [w[0]]);
      assert read + [w[0]] + w[1..] == read + w;
    }
  }

  lemma WordEnds(w: string, rest: string)
    requires w != "" && (rest == "" || Blank(rest[0]))
    ensures Words(rest, w) == [w] + Words(rest, "")
  {
    if rest != "" { SpaceIsBlank(rest[0]); }
  }

  /** Splitting finds the words. */
  lemma {:induction false} SplitSpelled(s: string, ws: seq<string>)
    requires Spells(s, ws)
    ensures Words(s, "") == ws
    decreases |ws|
  {
    hide Words;
    if ws == [] {
      WordsAfterBlanks(s, "");
      assert s + "" == s;
      WordsOfNothing();
    } else {
      var gap, rest :| StartsWith(s, gap, ws[0], rest) && Spells(rest, ws[1..]);
      assert s == gap + (ws[0] + rest);
      WordsAfterBlanks(gap, ws[0] + rest);
      WordsInWord(ws[0], rest, "");
      assert "" + ws[0] == ws[0];
      WordEnds(ws[0], rest);
      SplitSpelled(rest, ws[1..]);
      assert [ws[0]] + ws[1..] == ws;
    }
  }

  lemma WordsOfNothing()
    ensures Words("", "") == []
  {
  }

  lemma SpellsAfterBlank(c: char, s: string, ws: seq<string>)
    requires Blank(c) && Spells(s, ws)
    ensures Spells([c] + s, ws)
  {
    if ws != [] {
      var gap, rest :| StartsWith(s, gap, ws[0], rest) && Spells(rest, ws[1..]);
      assert [c] + s == ([c] + gap) + ws[0] + rest;
      assert StartsWith([c] + s, [c] + gap, ws[0], rest);
    }
  }

  function WordEnd(s: string): (n: nat)
    ensures n <= |s| && (n < |s| ==> Blank(s[n])) && forall i :: 0 <= i < n ==> !Blank(s[i])
  {
    if s == "" || Blank(s[0]) then 0 else 1 + WordEnd(s[1..])
  }

  lemma {:induction false} EveryTextSpells(s: string)
    ensures Spells(s, Words(s, ""))
    decreases |s|
  {
    hide Words;
    if s == "" {
      WordsOfNothing();
    } else if Blank(s[0]) {
      EveryTextSpells(s[1..]);
      assert s == [s[0]] + s[1..];
      SpellsAfterBlank(s[0], s[1..], Words(s[1..], ""));
      WordsAfterBlanks([s[0]], s[1..]);
    } else {
      var n := WordEnd(s);
      var w, rest := s[..n], s[n..];
      EveryTextSpells(rest);
      assert s == w + rest && s == "" + w + rest && "" + w == w;
      WordsInWord(w, rest, "");
      WordEnds(w, rest);
      SpellsWord(s, "", w, rest, Words(rest, ""));
    }
  }

  lemma SpellsWord(s: string, gap: string, w: string, rest: string, ws: seq<string>)
    requires StartsWith(s, gap, w, rest) && Spells(rest, ws)
    ensures Spells(s, [w] + ws)
  {
    var all := [w] + ws;
    assert all[0] == w && all[1..] == ws;
    assert StartsWith(s, gap, all[0], rest) && Spells(rest, all[1..]);
  }

  /** Splitting gives `ws` for exactly the texts that are these words with blanks between and around them. */
  lemma {:induction false} WordsExactly(s: string, ws: seq<string>)
    ensures Words(s, "") == ws <==> Spells(s, ws)
  {
    hide Words, Spells;
    EveryTextSpells(s);
    if Spells(s, ws) { SplitSpelled(s, ws); }
  }

  // ----- Lines -----

  /** The kinds of lines, by how they begin. */
  lemma {:induction false} LineKinds(line: string)
    ensures IsRecord(line) <==> "@" <= line
    ensures IsCategory(line) <==> "category: " <= line
    ensures IsRequires(line) <==> "requires: " <= line
    ensures IsVersion(line) <==> "version: " <= line
    ensures IsInstall(line) <==> "install: " <= line
  {
  }

  /** Which lines look up the current package: before the first record they make the scanner fail. */
  lemma {:induction false} RefersMeans(o: Options, name: Name, line: string)
    ensures Refers(o, name, line) <==>
            || "requires: " <= line || "version: " <= line || "install: " <= line
            || ("category: " <= line && (name in o.requiredPackages || "Base" in Words(Middle(line, 10), "")))
  {
    hide Words, Middle;
    LineKinds(line);
  }

  lemma MiddleOf(before: string, s: string, e: char)
    ensures Middle(before + s + [e], |before|) == s
  {
  }

  /** A record line: the mark, one character, the name and the line end. */
  lemma {:induction false} RecordLine(c: char, name: string, e: char)
    ensures var line := "@" + [c] + name + [e]; IsRecord(line) && RecordName(line) == name
  {
    MiddleOf("@" + [c], name, e);
    assert |"@" + [c]| == 2;
  }

  /** A category line puts a package in Base exactly if that is one of its words, or the package is required. */
  lemma {:induction false} CategoryLine(s: string, ws: seq<string>, e: char, forced: bool)
    requires Spells(s, ws)
    ensures IsBase("category: " + s + [e], forced) <==> forced || "Base" in ws
  {
    hide Words, Spells;
    MiddleOf("category: ", s, e);
    assert |"category: "| == 10;
    LineKinds("category: " + s + [e]);
    WordsExactly(s, ws);
  }

  /** A requires line gives its words. */
  lemma {:induction false} RequiresLine(s: string, ws: seq<string>)
    requires Spells(s, ws)
    ensures IsRequires("requires: " + s) && RequiresList("requires: " + s) == ws
  {
    hide Words, Spells;
    assert ("requires: " + s)[10..] == s;
    WordsExactly(s, ws);
  }

  /** A version line gives all between its mark and its last character. */
  lemma {:induction false} VersionLine(v: string, e: char)
    ensures IsVersion("version: " + v + [e]) && VersionOf("version: " + v + [e]) == v
  {
    MiddleOf("version: ", v, e);
    assert |"version: "| == 9;
  }

  /** An install line gives what stands before the next space, and nothing if there is none. */
  lemma {:induction false} InstallLine(path: string, rest: string)
    requires ' ' !in path
    ensures PathOf("install: " + path + " " + rest) == path
    ensures PathOf("install: " + path) == ""
  {
    var line := "install: " + path + " " + rest;
    assert line[9..9 + |path|] == path && line[9 + |path|] == ' ';
    assert forall j :: 9 <= j < 9 + |path| ==> line[j] == path[j - 9];
    var short := "install: " + path;
    assert forall j :: 9 <= j < |short| ==> short[j] == path[j - 9];
  }

  // ----- Files -----

  /** A package as a file describes it. */
  datatype Entry = Entry(name: Name, categories: seq<string>, deps: seq<Name>, version: string, path: string, more: string)

  ghost predicate Writable(e: Entry) {
    && (forall i :: 0 <= i < |e.categories| ==> IsWord(e.categories[i]))
    && (forall i :: 0 <= i < |e.deps| ==> IsWord(e.deps[i]))
    && e.path != "" && ' ' !in e.path
  }

  /** Words with one space before each. */
  function Unwords(ws: seq<string>): string { if ws == [] then "" else " " + ws[0] + Unwords(ws[1..]) }

  lemma {:induction false} UnwordsSpells(ws: seq<string>, end: string)
    requires (forall i :: 0 <= i < |ws| ==> IsWord(ws[i])) && (end == "" || end == "\n")
    ensures Spells(Unwords(ws) + end, ws)
    decreases |ws|
  {
    if ws != [] {
      var rest := Unwords(ws[1..]) + end;
      UnwordsSpells(ws[1..], end);
      assert Unwords(ws) + end == " " + ws[0] + rest;
      assert rest == "" || Blank(rest[0]);
      SpellsWord(Unwords(ws) + end, " ", ws[0], rest, ws[1..]);
      assert [ws[0]] + ws[1..] == ws;
    }
  }

  function EntryLines(e: Entry): (lines: seq<string>)
    ensures |lines| == 5
  {
    ["@ " + e.name + "\n", "category: " + Unwords(e.categories) + "\n", "requires: " + (Unwords(e.deps) + "\n"),
     "version: " + e.version + "\n", "install: " + e.path + " " + e.more]
  }

  /** What the downloader is to know about it: another version than a pinned one has no path. */
  function Expected(o: Options, e: Entry): Package {
    var pinned := e.name in o.pinnedVersions && o.pinnedVersions[e.name] != "";
    var wanted := !pinned || o.pinnedVersions[e.name] == e.version;
    Package(e.name in o.requiredPackages || "Base" in e.categories, e.deps, if wanted then e.path else "",
            if pinned then o.pinnedVersions[e.name] else e.version, wanted)
  }

  lemma ScanNext(o: Options, lines: seq<string>, line: string)
    requires ScanLines(o, lines).Some?
    ensures ScanLines(o, lines + [line]) == ScanLine(o, ScanLines(o, lines).value, line)
  {
    assert (lines + [line])[..|lines|] == lines;
  }

  /** A line that is not a record updates the current package. */
  lemma ScanInner(o: Options, s: Scan, line: string)
    requires line != "" && line[0] != '@' && s.current in s.packages
    ensures ScanLine(o, s, line) == Some(s.(packages := s.packages[s.current := Update(o, s.current, s.packages[s.current], line)]))
  {
    LineKinds(line);
  }

  lemma EntryUpdates(o: Options, e: Entry)
    requires Writable(e)
    ensures var l := EntryLines(e);
            var p1 := Update(o, e.name, NewPackage(o, e.name), l[1]);
            var p2 := Update(o, e.name, p1, l[2]);
            var p3 := Update(o, e.name, p2, l[3]);
            Update(o, e.name, p3, l[4]) == Expected(o, e)
  {
    hide Words, Spells, Unwords, IsBase, RequiresList, VersionOf, PathOf, IsWord;
    var l := EntryLines(e);
    UnwordsSpells(e.categories, "");
    assert Unwords(e.categories) + "" == Unwords(e.categories);
    assert "category: " + Unwords(e.categories) + "\n" == "category: " + Unwords(e.categories) + ['\n'];
    CategoryLine(Unwords(e.categories), e.categories, '\n', e.name in o.requiredPackages);
    UnwordsSpells(e.deps, "\n");
    RequiresLine(Unwords(e.deps) + "\n", e.deps);
    VersionLine(e.version, '\n');
    assert "version: " + e.version + "\n" == "version: " + e.version + ['\n'];
    InstallLine(e.path, e.more);
    EntryKinds(e);
  }

  lemma EntryKinds(e: Entry)
    ensures var l := EntryLines(e);
            && IsCategory(l[1])
            && !IsCategory(l[2]) && IsRequires(l[2])
            && !IsCategory(l[3]) && !IsRequires(l[3]) && IsVersion(l[3])
            && !IsCategory(l[4]) && !IsRequires(l[4]) && !IsVersion(l[4]) && IsInstall(l[4])
    ensures forall i :: 1 <= i < 5 ==> EntryLines(e)[i] != "" && EntryLines(e)[i][0] != '@'
  {
    hide Unwords;
    var l := EntryLines(e);
    LineKinds(l[1]);
    LineKinds(l[2]);
    LineKinds(l[3]);
    LineKinds(l[4]);
    assert l[1][0] == 'c' && l[2][0] == 'r' && l[3][0] == 'v' && l[4][0] == 'i';
  }

  /** The lines of an entry set its package to what is expected, whatever was read before. */
  lemma EntryScans(o: Options, lines: seq<string>, e: Entry)
    requires ScanLines(o, lines).Some? && Writable(e)
    ensures ScanLines(o, lines + EntryLines(e))
         == Some(Scan(ScanLines(o, lines).value.packages[e.name := Expected(o, e)], e.name))
  {
    hide ScanLines, Update, Expected, NewPackage, Unwords, Writable;
    var l, s := EntryLines(e), ScanLines(o, lines).value;
    EntryUpdates(o, e);
    EntryKinds(e);
    var lines0 := lines + [l[0]];
    RecordLine(' ', e.name, '\n');
    assert "@ " + e.name + "\n" == "@" + [' '] + e.name + ['\n'];
    ScanNext(o, lines, l[0]);
    var p0 := NewPackage(o, e.name);
    assert ScanLines(o, lines0) == Some(Scan(s.packages[e.name := p0], e.name));
    var p1 := InnerScans(o, lines0, l[1], s.packages, e.name, p0);
    var p2 := InnerScans(o, lines0 + [l[1]], l[2], s.packages, e.name, p1);
    var p3 := InnerScans(o, lines0 + [l[1]] + [l[2]], l[3], s.packages, e.name, p2);
    var p4 := InnerScans(o, lines0 + [l[1]] + [l[2]] + [l[3]], l[4], s.packages, e.name, p3);
    assert lines + l == lines0 + [l[1]] + [l[2]] + [l[3]] + [l[4]];
  }

  lemma InnerScans(o: Options, lines: seq<string>, line: string, packages: Packages, name: Name, p: Package) returns (q: Package)
    requires line != "" && line[0] != '@' && ScanLines(o, lines) == Some(Scan(packages[name := p], name))
    ensures q == Update(o, name, p, line) && ScanLines(o, lines + [line]) == Some(Scan(packages[name := q], name))
  {
    hide ScanLines, Update;
    q := Update(o, name, p, line);
    ScanNext(o, lines, line);
    ScanInner(o, Scan(packages[name := p], name), line);
    assert packages[name := p][name := q] == packages[name := q];
  }

  function FileLines(es: seq<Entry>): seq<string> {
    if es == [] then [] else FileLines(es[..|es| - 1]) + EntryLines(es[|es| - 1])
  }

  function ExpectedAll(o: Options, es: seq<Entry>): Packages {
    if es == [] then map[] else ExpectedAll(o, es[..|es| - 1])[es[|es| - 1].name := Expected(o, es[|es| - 1])]
  }

  /** Scanning a file written from entries gives them back, a later entry replacing an earlier one of the same name. */
  lemma {:induction false} FileRoundTrip(o: Options, es: seq<Entry>)
    requires forall i :: 0 <= i < |es| ==> Writable(es[i])
    ensures ScanLines(o, FileLines(es)).Some? && ScanLines(o, FileLines(es)).value.packages == ExpectedAll(o, es)
  {
    hide EntryLines, Expected, Writable;
    if es != [] {
      FileRoundTrip(o, es[..|es| - 1]);
      EntryScans(o, FileLines(es[..|es| - 1]), es[|es| - 1]);
    }
  }
}
