/** The line scanner of cygwin-downloader.py: what it records about each package of a setup.ini file. */
module SetupIni {
  import opened Basics
  import opened PackageClosure

  // ----- Lines -----

  predicate HasPrefix(line: string, prefix: string) { |line| >= |prefix| && line[..|prefix|] == prefix }

  /** line[from:-1]. */
  function Middle(line: string, from: nat): string {
    if from < |line| then line[from..|line| - 1] else ""
  }

  predicate IsSpace(c: char) { c in {' ', '\t', '\n', '\r', 11 as char, 12 as char} }

  /** str.split(): the runs of non-blank characters; `word` is the one being read. */
  function Words(s: string, word: string): (words: seq<string>)
    decreases |s|
  {
    if s == "" then (if word == "" then [] else [word])
    else if IsSpace(s[0]) then (if word == "" then [] else [word]) + Words(s[1..], "")
    else Words(s[1..], word + [s[0]])
  }

  predicate IsRecord(line: string) { line != "" && line[0] == '@' }

  function RecordName(line: string): Name { Middle(line, 2) }

  predicate IsCategory(line: string) { HasPrefix(line, "category: ") }
  predicate IsRequires(line: string) { HasPrefix(line, "requires: ") }
  predicate IsVersion(line: string) { HasPrefix(line, "version: ") }
  predicate IsInstall(line: string) { HasPrefix(line, "install: ") }

  /** A category line for Base; for a required package every category line is read as one. */
  predicate IsBase(line: string, forced: bool) { IsCategory(line) && (forced || "Base" in Words(Middle(line, 10), "")) }

  function RequiresList(line: string): seq<Name> { if |line| >= 10 then Words(line[10..], "") else [] }

  function VersionOf(line: string): string { Middle(line, 9) }

  /** The first index from `from` on that holds a blank, or the length of the line. */
  function FindBlank(line: string, from: nat): (i: nat)
    requires from <= |line|
    ensures from <= i <= |line| && (i < |line| ==> line[i] == ' ') && forall j :: from <= j < i ==> line[j] != ' '
    decreases |line| - from
  {
    if from == |line| || line[from] == ' ' then from else FindBlank(line, from + 1)
  }

  /** The path of an install line, empty if no blank ends it. */
  function PathOf(line: string): string {
    if IsInstall(line) && FindBlank(line, 9) < |line| then line[9..FindBlank(line, 9)] else ""
  }

  // ----- The scanner -----

  datatype Options = Options(requiredPackages: set<Name>, pinnedVersions: map<Name, string>)

  datatype Scan = Scan(packages: Packages, current: Name)

  function NewPackage(o: Options, name: Name): Package {
    Package(false, [], "", if name in o.pinnedVersions then o.pinnedVersions[name] else "", false)
  }

  /** What a line does to the package it belongs to. */
  function Update(o: Options, name: Name, p: Package, line: string): Package {
    if IsCategory(line) then (if IsBase(line, name in o.requiredPackages) then p.(needsDownload := true) else p)
    else if IsRequires(line) then p.(deps := RequiresList(line))
    else if IsVersion(line) && !p.foundVersion then
      if p.version == "" then p.(version := VersionOf(line), foundVersion := true)
      else p.(foundVersion := p.version == VersionOf(line))
    else if IsInstall(line) && p.foundVersion && p.path == "" then p.(path := PathOf(line))
    else p
  }

  /** Whether the line looks up the current package. */
  predicate Refers(o: Options, name: Name, line: string) {
    IsBase(line, name in o.requiredPackages) || IsRequires(line) || IsVersion(line) || IsInstall(line)
  }

  /** One turn of the loop over the lines; None is the exception for an empty line or an unknown current package. */
  function ScanLine(o: Options, s: Scan, line: string): (r: Option<Scan>) {
    if line == "" then None
    else if IsRecord(line) then
      var name := RecordName(line);
      Some(Scan(s.packages[name := NewPackage(o, name)], name))
    else if s.current in s.packages then
      Some(s.(packages := s.packages[s.current := Update(o, s.current, s.packages[s.current], line)]))
    else if Refers(o, s.current, line) then None
    else Some(s)
  }

  function ScanLines(o: Options, lines: seq<string>): (r: Option<Scan>) {
    if lines == [] then Some(Scan(map[], ""))
    else
      var before := ScanLines(o, lines[..|lines| - 1]);
      if before.None? then None else ScanLine(o, before.value, lines[|lines| - 1])
  }

  /** The loop itself. */
  method ScanFile(o: Options, lines: seq<string>) returns (r: Option<Packages>)
    ensures r.Some? <==> ScanLines(o, lines).Some?
    ensures r.Some? ==> r.value == ScanLines(o, lines).value.packages
  {
    var packages: Packages := map[];
    var currentPackage := "";
    for i := 0 to |lines|
      invariant ScanLines(o, lines[..i]) == Some(Scan(packages, currentPackage))
    {
      var line := lines[i];
      assert lines[..i + 1][..i] == lines[..i];
      var next := ScanLine(o, Scan(packages, currentPackage), line);
      if next.None? {
        PrefixFails(o, lines, i + 1);
        return None;
      }
      packages, currentPackage := next.value.packages, next.value.current;
    }
    assert lines[..|lines|] == lines;
    r := Some(packages);
  }

  lemma {:induction false} PrefixFails(o: Options, lines: seq<string>, n: nat)
    requires n <= |lines| && ScanLines(o, lines[..n]).None?
    ensures ScanLines(o, lines).None?
    decreases |lines| - n
  {
    if n == |lines| {
      assert lines[..n] == lines;
    } else {
      assert lines[..n + 1][..n] == lines[..n];
      PrefixFails(o, lines, n + 1);
    }
  }

  // ----- What a package record says -----

  /** The name of the last record line. */
  function Current(lines: seq<string>): (name: Option<Name>) {
    if lines == [] then None
    else if IsRecord(lines[|lines| - 1]) then Some(RecordName(lines[|lines| - 1]))
    else Current(lines[..|lines| - 1])
  }

  /** The lines that belong to the latest record of `name`. */
  function Section(lines: seq<string>, name: Name): (section: Option<seq<string>>) {
    if lines == [] then None
    else
      var init, last := lines[..|lines| - 1], lines[|lines| - 1];
      if IsRecord(last) then (if RecordName(last) == name then Some([]) else Section(init, name))
      else if Current(init) == Some(name) && Section(init, name).Some? then Some(Section(init, name).value + [last])
      else Section(init, name)
  }

  /** The pinned version of a package, if it has one. */
  function Pin(o: Options, name: Name): Option<string> {
    if name in o.pinnedVersions && o.pinnedVersions[name] != "" then Some(o.pinnedVersions[name]) else None
  }

  predicate IsWanted(pin: Option<string>, line: string) {
    IsVersion(line) && (pin.None? || VersionOf(line) == pin.value)
  }

  /** Line `v` is the first version line that is wanted: equal to the pinned version, or any if none is pinned. */
  ghost predicate FirstWanted(section: seq<string>, pin: Option<string>, v: nat) {
    v < |section| && IsWanted(pin, section[v]) && forall i :: 0 <= i < v ==> !IsWanted(pin, section[i])
  }

  /** Line `p` is the first install line with a usable path after line `v`. */
  ghost predicate FirstPath(section: seq<string>, v: nat, p: nat) {
    v < p < |section| && PathOf(section[p]) != "" && forall i :: v < i < p ==> PathOf(section[i]) == ""
  }

  /** The path a record gives: that of the first usable install line after the first wanted version line. */
  ghost predicate IsPath(section: seq<string>, pin: Option<string>, path: string) {
    || (exists v: nat, p: nat :: FirstWanted(section, pin, v) && FirstPath(section, v, p) && path == PathOf(section[p]))
    || (path == "" && forall v: nat, p: nat :: FirstWanted(section, pin, v) ==> !FirstPath(section, v, p))
  }

  /** The dependencies a record gives: those of its last requires line. */
  function DepsOf(section: seq<string>): seq<Name> {
    if section == [] then []
    else if IsRequires(section[|section| - 1]) then RequiresList(section[|section| - 1])
    else DepsOf(section[..|section| - 1])
  }

  /** All that the scanner records about a package, in terms of its lines. */
  ghost predicate Describes(o: Options, name: Name, section: seq<string>, p: Package) {
    var pin := Pin(o, name);
    && (p.needsDownload <==> exists i: nat :: i < |section| && IsBase(section[i], name in o.requiredPackages))
    && p.deps == DepsOf(section)
    && (p.foundVersion <==> exists v: nat :: FirstWanted(section, pin, v))
    && (pin.Some? ==> p.version == pin.value)
    && (pin.None? && !p.foundVersion ==> p.version == "")
    && IsPath(section, pin, p.path)
  }

  lemma WantedExtends(section: seq<string>, line: string, pin: Option<string>, v: nat)
    ensures FirstWanted(section + [line], pin, v) <==>
            || FirstWanted(section, pin, v)
            || (v == |section| && IsWanted(pin, line) && forall u: nat :: !FirstWanted(section, pin, u))
  {
    hide IsWanted;
    var all := section + [line];
    assert forall i :: 0 <= i < |section| ==> all[i] == section[i];
    if v == |section| {
      if i :| 0 <= i < |section| && IsWanted(pin, section[i]) {
        var u := FirstOf(section, pin, i);
        assert IsWanted(pin, all[u]);
      }
    }
  }

  lemma {:induction false} FirstOf(section: seq<string>, pin: Option<string>, i: nat) returns (v: nat)
    requires i < |section| && IsWanted(pin, section[i])
    ensures FirstWanted(section, pin, v)
  {
    v := 0;
    while !IsWanted(pin, section[v])
      invariant v <= i && forall j :: 0 <= j < v ==> !IsWanted(pin, section[j])
      decreases i - v
    {
      v := v + 1;
    }
  }

  lemma PathExtends(section: seq<string>, line: string, v: nat, p: nat)
    requires v < |section|
    ensures FirstPath(section + [line], v, p) <==>
            || FirstPath(section, v, p)
            || (p == |section| && PathOf(line) != "" && forall i :: v < i < |section| ==> PathOf(section[i]) == "")
  {
    hide PathOf;
    var all := section + [line];
    assert forall i :: 0 <= i < |section| ==> all[i] == section[i];
  }

  /** A line that settles nothing about version or path leaves the path as it was. */
  lemma PathKept(section: seq<string>, line: string, pin: Option<string>, path: string)
    requires IsPath(section, pin, path)
    requires path != "" || PathOf(line) == "" || forall v: nat :: !FirstWanted(section, pin, v)
    ensures IsPath(section + [line], pin, path)
  {
    hide PathOf, FirstWanted;
    var all := section + [line];
    if v: nat, p: nat :| FirstWanted(section, pin, v) && FirstPath(section, v, p) && path == PathOf(section[p]) {
      FirstBounds(section, pin, v, p);
      WantedExtends(section, line, pin, v);
      PathExtends(section, line, v, p);
      assert all[p] == section[p];
    } else {
      forall v: nat, p: nat | FirstWanted(all, pin, v) ensures !FirstPath(all, v, p) {
        WantedExtends(section, line, pin, v);
        if FirstWanted(section, pin, v) {
          FirstBounds(section, pin, v, p);
          PathExtends(section, line, v, p);
        } else {
          NoPathAfterEnd(section, line, v, p);
        }
      }
    }
  }

  lemma FirstBounds(section: seq<string>, pin: Option<string>, v: nat, p: nat)
    ensures FirstWanted(section, pin, v) ==> v < |section|
    ensures FirstPath(section, v, p) ==> p < |section| && PathOf(section[p]) != ""
  {
  }

  lemma NoPathAfterEnd(section: seq<string>, line: string, v: nat, p: nat)
    requires v == |section|
    ensures !FirstPath(section + [line], v, p)
  {
  }

  /** The first usable path after the wanted version is the path. */
  lemma PathFound(section: seq<string>, line: string, pin: Option<string>, v: nat)
    requires IsPath(section, pin, "") && FirstWanted(section, pin, v) && PathOf(line) != ""
    ensures IsPath(section + [line], pin, PathOf(line))
  {
    hide PathOf;
    var n := |section|;
    forall i | v < i < n ensures PathOf(section[i]) == "" {
      if PathOf(section[i]) != "" {
        var p := FirstUsable(section, v, i);
        assert false;
      }
    }
    WantedExtends(section, line, pin, v);
    PathExtends(section, line, v, n);
    assert (section + [line])[n] == line;
  }

  lemma {:induction false} FirstUsable(section: seq<string>, v: nat, i: nat) returns (p: nat)
    requires v < i < |section| && PathOf(section[i]) != ""
    ensures FirstPath(section, v, p)
  {
    hide PathOf;
    p := v + 1;
    while PathOf(section[p]) == ""
      invariant v < p <= i && forall j :: v < j < p ==> PathOf(section[j]) == ""
      decreases i - p
    {
      p := p + 1;
    }
  }

  lemma {:induction false} UpdateDescribes(o: Options, name: Name, section: seq<string>, p: Package, line: string)
    requires Describes(o, name, section, p)
    ensures Describes(o, name, section + [line], Update(o, name, p, line))
  {
    hide IsPath, FirstWanted, FirstPath, IsBase, PathOf, RequiresList;
    var pin, q := Pin(o, name), Update(o, name, p, line);
    Exclusive(o, name, line);
    assert q.deps == DepsOf(section + [line]) by { assert (section + [line])[..|section|] == section; }
    BaseExtends(section, line, name in o.requiredPackages);
    UpdateVersion(o, name, section, p, line);
    UpdatePath(o, name, section, p, line);
  }

  /** A line is of at most one kind. */
  lemma Exclusive(o: Options, name: Name, line: string)
    ensures IsCategory(line) ==> !IsRequires(line) && !IsVersion(line) && !IsInstall(line)
    ensures IsRequires(line) ==> !IsVersion(line) && !IsInstall(line)
    ensures IsVersion(line) ==> !IsInstall(line)
    ensures IsBase(line, name in o.requiredPackages) ==> IsCategory(line)
    ensures !IsInstall(line) ==> PathOf(line) == ""
  {
    if |line| >= 9 {
      assert IsCategory(line) ==> line[..10][0] == 'c';
      assert IsRequires(line) ==> line[..10][0] == 'r';
      assert IsVersion(line) ==> line[..9][0] == 'v';
      assert IsInstall(line) ==> line[..9][0] == 'i';
    }
  }

  lemma BaseExtends(section: seq<string>, line: string, forced: bool)
    ensures (exists i: nat :: i < |section + [line]| && IsBase((section + [line])[i], forced)) <==>
            (exists i: nat :: i < |section| && IsBase(section[i], forced)) || IsBase(line, forced)
  {
    hide IsBase;
    var all := section + [line];
    assert all[|section|] == line;
    if i: nat :| i < |section| && IsBase(section[i], forced) { assert all[i] == section[i]; }
  }

  lemma UpdateVersion(o: Options, name: Name, section: seq<string>, p: Package, line: string)
    requires Describes(o, name, section, p)
    ensures var pin, q := Pin(o, name), Update(o, name, p, line);
            && (q.foundVersion <==> exists v: nat :: FirstWanted(section + [line], pin, v))
            && (pin.Some? ==> q.version == pin.value)
            && (pin.None? && !q.foundVersion ==> q.version == "")
  {
    hide IsPath, FirstWanted, FirstPath, IsBase, PathOf, RequiresList, IsCategory, IsRequires, IsVersion, IsInstall, DepsOf;
    var pin, q := Pin(o, name), Update(o, name, p, line);
    Exclusive(o, name, line);
    if v: nat :| FirstWanted(section, pin, v) { WantedExtends(section, line, pin, v); }
    WantedExtends(section, line, pin, |section|);
    forall v: nat | FirstWanted(section + [line], pin, v) ensures p.foundVersion || IsWanted(pin, line) {
      WantedExtends(section, line, pin, v);
    }
  }

  lemma UpdatePath(o: Options, name: Name, section: seq<string>, p: Package, line: string)
    requires Describes(o, name, section, p)
    ensures IsPath(section + [line], Pin(o, name), Update(o, name, p, line).path)
  {
    hide IsPath, FirstWanted, FirstPath, IsBase, PathOf, RequiresList, IsCategory, IsRequires, IsVersion, IsInstall, DepsOf, IsWanted;
    Exclusive(o, name, line);
    if p.path == "" && p.foundVersion && PathOf(line) != "" {
      var v: nat :| FirstWanted(section, Pin(o, name), v);
      PathFound(section, line, Pin(o, name), v);
    } else {
      PathKept(section, line, Pin(o, name), p.path);
    }
  }

  lemma NewDescribes(o: Options, name: Name)
    ensures Describes(o, name, [], NewPackage(o, name))
  {
  }

  // ----- The whole file -----

  /** Lines before the first record are skipped, unless they look up a package that is not there. */
  ghost predicate Scanned(o: Options, lines: seq<string>, s: Scan) {
    && (Current(lines).Some? ==> s.current == Current(lines).value && s.current in s.packages)
    && (Current(lines).None? ==> s == Scan(map[], ""))
    && (forall n :: n in s.packages <==> Section(lines, n).Some?)
    && forall n :: n in s.packages ==> Describes(o, n, Section(lines, n).value, s.packages[n])
  }

  lemma ScanLineKeeps(o: Options, init: seq<string>, line: string, s: Scan)
    requires Scanned(o, init, s) && ScanLine(o, s, line).Some?
    ensures Scanned(o, init + [line], ScanLine(o, s, line).value)
  {
    hide Describes, Update, NewPackage, IsRecord, Refers;
    var t, lines := ScanLine(o, s, line).value, init + [line];
    assert lines[..|init|] == init;
    forall n | n in t.packages ensures Section(lines, n).Some? && Describes(o, n, Section(lines, n).value, t.packages[n]) {
      if IsRecord(line) {
        if n == RecordName(line) { NewDescribes(o, n); }
      } else if Current(init) == Some(n) {
        UpdateDescribes(o, n, Section(init, n).value, s.packages[n], line);
      }
    }
  }

  /**
   For every file the scanner gets through: it records exactly the packages with a record line, and for each of them
   what the lines of its latest record say: whether it is in Base, its dependencies, and as its path that of the
   first install line with a usable path after the first wanted version line.
   */
  lemma {:induction false} ScanRecords(o: Options, lines: seq<string>)
    requires ScanLines(o, lines).Some?
    ensures Scanned(o, lines, ScanLines(o, lines).value)
  {
    hide Describes, ScanLine;
    if lines != [] {
      var init, line := lines[..|lines| - 1], lines[|lines| - 1];
      ScanRecords(o, init);
      ScanLineKeeps(o, init, line, ScanLines(o, init).value);
      assert init + [line] == lines;
    }
  }

  /** The scanner gets through exactly when no line is empty and no line before the first record looks up a package. */
  ghost predicate WellFormed(o: Options, lines: seq<string>) {
    forall i :: 0 <= i < |lines| ==> lines[i] != "" && (IsRecord(lines[i]) || Current(lines[..i]).Some? || !Refers(o, "", lines[i]))
  }

  lemma {:induction false} ScanSucceeds(o: Options, lines: seq<string>)
    ensures ScanLines(o, lines).Some? <==> WellFormed(o, lines)
  {
    hide Describes, Refers, IsRecord, Update;
    if lines != [] {
      var n := |lines| - 1;
      var init := lines[..n];
      ScanSucceeds(o, init);
      assert forall i :: 0 <= i < n ==> init[i] == lines[i] && init[..i] == lines[..i];
      if ScanLines(o, init).Some? { ScanRecords(o, init); }
    }
  }
}
