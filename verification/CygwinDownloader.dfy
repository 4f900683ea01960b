/** cygwin-downloader.py from the lines of setup.ini to the list of downloads. */
module CygwinDownloader {
  import opened Basics
  import opened PackageClosure
  import opened SetupIni
  import opened SetupIniText

  /** The keys of a dictionary in some order; the source sorts them. */
  method Keys(packages: Packages) returns (order: seq<Name>)
    ensures Enumerates(order, packages.Keys)
  {
    order := [];
    var left := packages.Keys;
    while left != {}
      invariant left <= packages.Keys && Enumerates(order, packages.Keys - left)
      decreases left
    {
      var n :| n in left;
      order, left := order + [n], left - {n};
    }
    assert packages.Keys - left == packages.Keys;
  }

  /** The seeds: packages whose latest record is in Base, or is required and has a category line. */
  ghost predicate IsSeed(o: Options, lines: seq<string>, n: Name) {
    && Section(lines, n).Some?
    && var section := Section(lines, n).value;
       exists i: nat :: i < |section| && IsBase(section[i], n in o.requiredPackages)
  }

  /** The dependency graph of the file: the requires line of each package's latest record. */
  ghost predicate IsFileGraph(lines: seq<string>, g: map<Name, seq<Name>>) {
    && (forall n :: n in g <==> Section(lines, n).Some?)
    && forall n :: n in g ==> g[n] == DepsOf(Section(lines, n).value)
  }

  /** The packages that the messages name; with as many messages as packages, each is named once. */
  ghost function NamesOf(messages: seq<Message>): set<Name> { set k | 0 <= k < |messages| :: messages[k].name }

  /**
   For every file without the lines the scanner stops at: the packages downloaded are the least set that contains the
   seeds and is closed under known dependencies, with one numbered message for each.
   */
  method Run(o: Options, lines: seq<string>) returns (names: Option<set<Name>>, messages: seq<Message>, ghost g: map<Name, seq<Name>>, ghost seeds: set<Name>)
    ensures names.Some? <==> WellFormed(o, lines)
    ensures names.Some? ==>
              && IsFileGraph(lines, g) && (forall n :: n in seeds <==> IsSeed(o, lines, n))
              && IsClosure(g, seeds, names.value)
              && |messages| == |names.value| && NamesOf(messages) == names.value
              && forall k :: 0 <= k < |messages| ==> messages[k].number == k + 1 && messages[k].total == |names.value|
  {
    hide *;
    messages, g, seeds := [], map[], {};
    var scanned := ScanFile(o, lines);
    ScanSucceeds(o, lines);
    if scanned.None? {
      return None, [], map[], {};
    }
    var packages := scanned.value;
    g, seeds := Graph(packages), Flagged(packages);
    FileFacts(o, lines, packages);
    var downloader := new Downloader(packages);
    var order := Keys(packages);
    downloader.AddFlagged(order);
    messages := downloader.DownloadAll(order);
    names := Some(downloader.namesToDownload);
    ChosenNames(messages, Chosen(order, names.value));
  }

  lemma ChosenNames(messages: seq<Message>, chosen: seq<Name>)
    requires |messages| == |chosen| && forall k :: 0 <= k < |messages| ==> messages[k].name == chosen[k]
    ensures NamesOf(messages) == Members(chosen)
  {
    forall n | n in Members(chosen) ensures n in NamesOf(messages) {
      var k :| 0 <= k < |chosen| && chosen[k] == n;
      assert messages[k].name == n;
    }
  }

  lemma FileFacts(o: Options, lines: seq<string>, packages: Packages)
    requires ScanLines(o, lines).Some? && packages == ScanLines(o, lines).value.packages
    ensures IsFileGraph(lines, Graph(packages))
    ensures forall n :: n in Flagged(packages) <==> IsSeed(o, lines, n)
  {
    hide ScanLines, IsBase, IsPath, FirstWanted, Section, DepsOf, Pin;
    ScanRecords(o, lines);
  }

  /**
   What the downloader makes of a file written from entries: it gets through, its seeds are the packages that are
   required or in Base, and its graph has their dependencies.
   */
  lemma {:induction false} WrittenFile(o: Options, es: seq<Entry>)
    requires forall i :: 0 <= i < |es| ==> Writable(es[i])
    ensures WellFormed(o, FileLines(es))
    ensures forall n :: IsSeed(o, FileLines(es), n) <==> n in ExpectedAll(o, es) && ExpectedAll(o, es)[n].needsDownload
    ensures IsFileGraph(FileLines(es), Graph(ExpectedAll(o, es)))
  {
    hide ScanLines, FileLines, ExpectedAll, Writable, IsSeed, IsFileGraph, WellFormed;
    FileRoundTrip(o, es);
    ScanSucceeds(o, FileLines(es));
    FileFacts(o, FileLines(es), ExpectedAll(o, es));
  }
}
