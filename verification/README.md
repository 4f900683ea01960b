# Verified models of WebKit tools

This project models eight small programs of the repository in Dafny 4.11 and proves what they are for.
`dafny verify dfyconfig.toml` checks all of it.
No proof relies on Dafny's automatic induction: `dafny verify --manual-lemma-induction dfyconfig.toml` checks that.

- **Keyword lookup compiler** (`Keyword*.dfy`). `KeywordTrie` has the trie on values, `KeywordTrieNode` the heap
  objects that are updated in place, `KeywordCode` the printed lines and the machine that runs them,
  `KeywordCompare` the comparison macros down to bytes in memory, `KeywordFit` the tables those macros are enough for,
  `KeywordCorrectness` and `KeywordGenerator` the proof that the printed function is the table lookup.
- **CRC-32 and PNG splice** (`Crc32`, `CrcPolynomial`, `CrcBurst`, `CyclicRedundancyCheck`, `PngChunks`,
  `PixelDumpSupport`). The table-driven loop against bit-by-bit division, division against polynomials over GF(2),
  error detection, and a PNG decoder that accepts the output.
- **Thread pool** (`ThreadPool`, `ThreadPoolRuns`, `ThreadPoolStop`). A step relation whose runs are all
  interleavings of the main thread and any number of workers.
- **Work queue** (`WorkLog`, `WorkQueue`), **package downloads** (`SetupIni`, `SetupIniText`,
  `PackageClosure`, `CygwinDownloader`), **module paths** (`ModulePath`) and **test commands** (`CommandLine`, with `StringPieces`).

Some conventions:

- Text is a sequence of UTF-16 code units in the keyword model. Keywords are assumed to be spelled with ASCII
  identifier-part units, because the generator prints each unit as a C character literal and relies on the unit
  after a keyword prefix being an identifier part.
- The thread model assumes fresh ids from createThread and that waiting for a thread returns only after it has ended.
- What callers of asserting functions must provide is a precondition: room in the work queue, at least 33 bytes of
  image data, a token left in `Next`. The source breaks the last of these itself: parseInputLine asks for a token after
  a final `--timeout`. `BadLines` gives such a line and `LineOutcome` says exactly which lines do it.
- `WorkQueue` keeps its whole history in a ghost field, and every method adds its event, so what `WorkLog` proves of all
  lawful histories holds of every queue (`Accounted`).
- "All workers have ended when stopJavaScriptThreads returns" is false. `EarlyReturnHappens` gives a run, and
  `StopWaitsForAll` says exactly at which snapshots it holds.
- "Every table gives compilable code" is false, since there is no macro for nine units. `InterfaceLacksMacro` gives a
  table and `CompilesExactly` says exactly which tables do.
- "No context is created in a released group" is false. `LateContextHappens` gives a run, and
  `LateContextExactly` says exactly after which snapshots it can happen.
- A four-byte window is exactly what the CRC protects, and maxTokenLength is exactly the length from which no bounds
  check is needed: `BurstOfFiveMissed` and `MaxTokenLengthIsLeast` show that neither can be improved.

## Model

| member | source | states |
|---|---|---|
| KeywordGenerator.Generate | Source/JavaScriptCore/KeywordLookupGenerator.py:214-305 | the whole script, for every table and weights: every printed comparison has a macro if and only if no keyword goes on for more than eight units without a stop, and then, for keywords of ASCII identifier parts, every machine, unit kind and text of at least maxTokenLength units, running the printed lines never reads past the end, returns v with shift n exactly when v is the keyword token of the first n units and no identifier part follows, and otherwise returns IDENT |
| KeywordGenerator.InsertAll | Source/JavaScriptCore/KeywordLookupGenerator.py:215-217 | inserting line by line into heap objects leaves the trie of the table |
| KeywordGenerator.BuildRoot | Source/JavaScriptCore/KeywordLookupGenerator.py:215-218 | the root object after coalesce, its return value dropped, is the coalesced trie of the table |
| KeywordGenerator.CompilesExactly | Source/JavaScriptCore/KeywordLookupGenerator.py:103-164 | for every table and every order of siblings: each printed comparison names an existing macro if and only if every keyword, from each of its points on, has within eight units a stop, that is a keyword or a text after which two keywords part |
| KeywordGenerator.OneLineCompiles | Source/JavaScriptCore/KeywordLookupGenerator.py:157-164 | a table of one line gives code that compiles if and only if its keyword has at most eight units |
| KeywordGenerator.InterfaceLacksMacro | Source/JavaScriptCore/KeywordLookupGenerator.py:157-164 | the table with the one nine-letter keyword interface gives code that does not compile |
| KeywordFit.CompiledFits | Source/JavaScriptCore/KeywordLookupGenerator.py:103-126 | the condition on the table says exactly that no edge of the coalesced trie has more than eight units |
| KeywordFit.NextStop | Source/JavaScriptCore/KeywordLookupGenerator.py:111-126 | with such edges there is a stop within eight units of every point on the way to a keyword |
| KeywordFit.FindGap | Source/JavaScriptCore/KeywordLookupGenerator.py:111-126 | a longer edge gives a keyword and a point in it without one |
| KeywordTrieNode.TrieNode.constructor | Source/JavaScriptCore/KeywordLookupGenerator.py:98-101 | a new node is a tree of its own with no value and no children |
| KeywordTrieNode.TrieNode.Insert | Source/JavaScriptCore/KeywordLookupGenerator.py:103-109 | updating the objects in place inserts the key into the trie they stand for; the objects stay a tree |
| KeywordTrieNode.TrieNode.CoalesceKeys | Source/JavaScriptCore/KeywordLookupGenerator.py:112-116 | the loop over the children files each coalesced child under its new prefix and loses none, in whatever order it visits them |
| KeywordTrieNode.TrieNode.JoinOnlyChild | Source/JavaScriptCore/KeywordLookupGenerator.py:117-126 | the returned object stands for the node joined with its only child if it has no value and one child, else for the node; nothing is changed and only new objects are added to the tree |
| KeywordTrieNode.TrieNode.Coalesce | Source/JavaScriptCore/KeywordLookupGenerator.py:111-126 | what it leaves in the object and what it returns are the coalesced trie without and with the final join |
| KeywordTrieNode.TrieNode.FillOutKeys | Source/JavaScriptCore/KeywordLookupGenerator.py:134-136 | in whatever order the children are visited, each child and all objects below it get the fields of its entry in the list, no child is missing, and the total is the sum of the weights |
| KeywordTrieNode.TrieNode.FillOut | Source/JavaScriptCore/KeywordLookupGenerator.py:128-138 | in every object of the subtree: full prefixes extend each other, weights add up, children are listed heaviest first, and no child is lost or repeated; the value returned has exactly the fields of the objects, level by level |
| KeywordTrie.InsertHolds | Source/JavaScriptCore/KeywordLookupGenerator.py:103-109 | inserting redefines exactly the inserted key |
| KeywordTrie.BuildHolds | Source/JavaScriptCore/KeywordLookupGenerator.py:215-217 | the built trie holds exactly the table, the last line of a key winning |
| KeywordTrie.CoalesceShape | Source/JavaScriptCore/KeywordLookupGenerator.py:111-116 | in a well-keyed trie re-filing by prefix never makes two siblings collide and siblings keep distinct first units |
| KeywordTrie.CoalesceHolds | Source/JavaScriptCore/KeywordLookupGenerator.py:111-126 | coalescing keeps every (text, token) pair of every well-keyed trie |
| KeywordTrie.CoalesceCompact | Source/JavaScriptCore/KeywordLookupGenerator.py:117-126 | if every leaf has a value, then after coalescing every node below the root has a value or at least two children |
| KeywordTrie.CompiledHolds | Source/JavaScriptCore/KeywordLookupGenerator.py:215-218 | the root after coalescing still holds exactly the table and has no chain below it, although the value coalesce returns is dropped |
| KeywordTrie.CompiledIgnoresOrder | Source/JavaScriptCore/KeywordLookupGenerator.py:215-218 | tables that give every key the same token compile to the same trie, whatever the order of their lines |
| KeywordCode.WeightIsTotal | Source/JavaScriptCore/KeywordLookupGenerator.py:129-138 | a node's weight is the sum of w[s] over all full prefixes s of its subtree that the weight table has |
| KeywordCode.SortByWeight | Source/JavaScriptCore/KeywordLookupGenerator.py:137 | the children are permuted into non-increasing weight |
| KeywordCode.MaxLength | Source/JavaScriptCore/KeywordLookupGenerator.py:176-182 | the loop computes the longest full prefix of the subtree |
| KeywordCode.PrintSubTree | Source/JavaScriptCore/KeywordLookupGenerator.py:140-174 | the printing loop with its item counter prints the lines of the node and of every child, each chain closed once |
| KeywordCode.PrintArm | Source/JavaScriptCore/KeywordLookupGenerator.py:153-171 | one turn of the loop, with three-unit edges widened by the unit before them |
| KeywordCode.EdgeShape | Source/JavaScriptCore/KeywordLookupGenerator.py:152-164 | a printed comparison is the part of the child's full prefix from its base to its end; it starts one unit early exactly for three units below the root, so that three are compared only at the root |
| KeywordCompare.Expand | Source/JavaScriptCore/KeywordLookupGenerator.py:260-302 | there is a macro for one to eight units and for no other number |
| KeywordCompare.EvalPair | Source/JavaScriptCore/KeywordLookupGenerator.py:248-263 | a packed two-unit load equals the packed constant exactly when both units match, for both byte orders and unit sizes |
| KeywordCompare.EvalQuad | Source/JavaScriptCore/KeywordLookupGenerator.py:250-270 | on a little-endian machine a packed four-unit load equals the packed constant exactly when all four units match, for both unit sizes |
| KeywordCompare.ExpandCompares | Source/JavaScriptCore/KeywordLookupGenerator.py:222-302 | on every machine the expansion of a comparison of one to eight ASCII units, packed and overlapping ones included, reads only the units it names and holds exactly when they match one by one |
| KeywordLexer.TestIdentPartIncludingEscape | Source/JavaScriptCore/parser/Lexer.cpp:745-778 | the code with its digit loop computes the boundary test that the printed program uses; only the first unit is read without a bounds check |
| KeywordLexer.BracedEscapeMeans | Source/JavaScriptCore/parser/Lexer.cpp:754-766 | the digit loop with its early exit accepts exactly hexadecimal digits up to a brace that spell an identifier part of at most 0x10FFFF |
| KeywordLexer.IdentPartOrEscape | Source/JavaScriptCore/parser/Lexer.cpp:745-778 | the test holds if and only if an identifier part stands there, as itself or as an escape of four digits or in braces, five units at least |
| KeywordLexer.DigitValue | Source/JavaScriptCore/parser/Lexer.cpp:756-761 | the d-th character of 0123456789ABCDEF and of 0123456789abcdef is a digit of value d |
| KeywordLexer.DigitsAreThese | Source/JavaScriptCore/parser/Lexer.cpp:757-758 | no other character is a digit |
| KeywordLexer.HexRoundTrip | Source/JavaScriptCore/parser/Lexer.cpp:754-764 | reading the usual hexadecimal writing of n, in any letter cases and with any leading zeros, gives n |
| KeywordLexer.FourDigitEscape | Source/JavaScriptCore/parser/Lexer.cpp:769-777 | wherever it stands, a four-digit escape of n passes the test exactly if n is an identifier part (or the backslash is one) |
| KeywordLexer.BracedEscapeIsRead | Source/JavaScriptCore/parser/Lexer.cpp:753-766 | so does an escape of n in braces with any number of digits, if n is at most 0x10FFFF; a larger one never does |
| KeywordLexer.EmptyBraces | Source/JavaScriptCore/parser/Lexer.cpp:750-766 | an escape with no digits in its braces passes the test if and only if code point 0 is an identifier part and some unit follows the braces |
| KeywordCorrectness.EdgeDecides | Source/JavaScriptCore/KeywordLookupGenerator.py:152-164 | where the node's own prefix has matched, the printed comparison, widened or not, decides whether the child's full prefix is there |
| KeywordCorrectness.RunLines | Source/JavaScriptCore/KeywordLookupGenerator.py:140-174 | running the flat lines of a subtree, skipping by braces, does what its decision tree does and then what follows |
| KeywordCorrectness.ProgramCorrect | Source/JavaScriptCore/KeywordLookupGenerator.py:103-212 | compiler correctness for every sibling order: result, shift, IDENT otherwise, and no read past a text of maxTokenLength units |
| KeywordCorrectness.KeywordUnique | Source/JavaScriptCore/KeywordLookupGenerator.py:140-150 | at most one keyword qualifies for a text |
| KeywordCorrectness.OrderIrrelevant | Source/JavaScriptCore/KeywordLookupGenerator.py:152-174 | any two orders of the siblings print programs with the same results |
| KeywordCorrectness.KeywordAloneFaults | Source/JavaScriptCore/KeywordLookupGenerator.py:144 | on a text that is exactly a keyword, the printed function reads past the end |
| KeywordCorrectness.MaxTokenLengthIsLeast | Source/JavaScriptCore/KeywordLookupGenerator.py:176-190 | for a table that is not empty, texts of at least b units are safe if and only if b is at least maxTokenLength |
| Crc32.PolyIsSourceConstant | Tools/DumpRenderTree/CyclicRedundancyCheck.cpp:42 | the polynomial constant is the one the source writes as a negative number |
| Crc32.FeedByteByTable | Tools/DumpRenderTree/CyclicRedundancyCheck.cpp:59-61 | one table-driven update of the register is eight bit-by-bit division steps fed with the bits of the byte |
| CyclicRedundancyCheck.TableEntry | Tools/DumpRenderTree/CyclicRedundancyCheck.cpp:39-45 | the inner loop makes eight division steps |
| CyclicRedundancyCheck.MakeCrcTable | Tools/DumpRenderTree/CyclicRedundancyCheck.cpp:36-48 | every entry of the table is eight division steps of its index |
| CyclicRedundancyCheck.FeedBuffer | Tools/DumpRenderTree/CyclicRedundancyCheck.cpp:59-62 | with such a table the loop over the buffer computes the bit-by-bit CRC |
| CyclicRedundancyCheck.CrcState.constructor | Tools/DumpRenderTree/CyclicRedundancyCheck.cpp:52-53 | before the first call the table is not computed |
| CyclicRedundancyCheck.CrcState.ComputeCrc | Tools/DumpRenderTree/CyclicRedundancyCheck.cpp:50-63 | the result is the bit-by-bit CRC of section 3.4 of RFC 2083, whether the table was just built or cached |
| CrcBurst.BurstDetected | Tools/DumpRenderTree/CyclicRedundancyCheck.cpp:40-62 | buffers of equal length that differ, but only inside four consecutive bytes, have different CRCs |
| CrcBurst.BurstOfFiveMissed | Tools/DumpRenderTree/CyclicRedundancyCheck.cpp:40-62 | any five consecutive bytes of any buffer can be changed without changing the CRC |
| CrcPolynomial.PolyIsGenerator | Tools/DumpRenderTree/CyclicRedundancyCheck.cpp:42 | the constant is the polynomial of section 3.4 of RFC 2083, coefficient by coefficient |
| CrcPolynomial.CrcIsRemainder | Tools/DumpRenderTree/CyclicRedundancyCheck.cpp:50-63 | the inverted CRC is the remainder of the buffer's bits, with 32 ones added in front, divided by the polynomial over GF(2) |
| CrcPolynomial.RemainderUnique | Tools/DumpRenderTree/CyclicRedundancyCheck.cpp:50-63 | quotient and remainder of that division are unique, the remainder as a 32-bit register |
| CrcPolynomial.CrcIsTheRemainder | Tools/DumpRenderTree/CyclicRedundancyCheck.cpp:50-63 | a quotient of one bit per data bit and a register divide the buffer's bits if and only if the register is the inverted CRC and the quotient the one computed |
| PngChunks.EncodeRoundTrip | Tools/DumpRenderTree/PixelDumpSupport.cpp:89 | a chunk laid out as length, type, data and CRC decodes to itself |
| PixelDumpSupport.ByteVector.AppendInt | Tools/DumpRenderTree/PixelDumpSupport.cpp:77-85 | four bytes, most significant first, are appended and nothing else changes |
| PixelDumpSupport.CommentIsTextChunk | Tools/DumpRenderTree/PixelDumpSupport.cpp:87-103 | the bytes added decode to one chunk whose kind is the letters tEXt and whose data is the letters checksum, a null byte and the first 32 bytes of the checksum |
| PixelDumpSupport.ConvertChecksumToPNGComment | Tools/DumpRenderTree/PixelDumpSupport.cpp:87-103 | the vector grows by exactly those bytes |
| PixelDumpSupport.SplicedDecodes | Tools/DumpRenderTree/PixelDumpSupport.cpp:105-135 | for every well-formed chunk stream whose first chunk has 13 data bytes, the output decodes to the same chunks with the tEXt chunk after the first |
| PixelDumpSupport.ImageDecodes | Tools/DumpRenderTree/PixelDumpSupport.cpp:105-110 | a signature, an IHDR chunk and any well-formed chunks make such a stream |
| PixelDumpSupport.WriteRest | Tools/DumpRenderTree/PixelDumpSupport.cpp:125-135 | the write loop outputs a prefix of the data, all of it unless a write stops short, and terminates |
| PixelDumpSupport.PrintPNG | Tools/DumpRenderTree/PixelDumpSupport.cpp:112-136 | the length of the spliced bytes is announced; complete writes output the spliced bytes, others no more than announced |
| ThreadPool.StepKeepsInv | Tools/DumpRenderTree/JavaScriptThreading.cpp:64-157 | every step of every thread keeps the invariant about mutex, tracked set, flag and contexts |
| ThreadPoolRuns.TrackedSetIsFour | Tools/DumpRenderTree/JavaScriptThreading.cpp:110-146 | in every reachable state from the end of start to the final clear: exactly 4 ids whenever the mutex is free, a worker about to respawn is in the set, and the snapshot lists 4 |
| ThreadPoolRuns.SetIsCleared | Tools/DumpRenderTree/JavaScriptThreading.cpp:148-154 | the final clear empties the set, and from then on none of the 4 threads that were waited for is in it |
| ThreadPoolRuns.WorkersDoTheirWork | Tools/DumpRenderTree/JavaScriptThreading.cpp:78-122 | every worker creates one script string and has released it if and only if it has ended; between two checks of the flag it evaluates once and makes its objects once; none ends without a check |
| ThreadPoolRuns.ContextsReleasedOnce | Tools/DumpRenderTree/JavaScriptThreading.cpp:72-121 | every worker creates at most one context and has released it exactly once if and only if it has ended |
| ThreadPoolRuns.FewWorkersAfterFlag | Tools/DumpRenderTree/JavaScriptThreading.cpp:100-139 | in every run after the flag is set at most four more workers are created and none of them ever respawns |
| ThreadPoolStop.SettledStops | Tools/DumpRenderTree/JavaScriptThreading.cpp:134-157 | if at the snapshot nobody is past the flag check and no replaced worker is still running, all workers have ended when stop returns |
| ThreadPoolStop.UnsettledReturnsEarly | Tools/DumpRenderTree/JavaScriptThreading.cpp:106-157 | otherwise some continuation lets stop return while a worker is still running |
| ThreadPoolStop.StopWaitsForAll | Tools/DumpRenderTree/JavaScriptThreading.cpp:134-157 | the two together: all workers have ended at every return if and only if they are settled at the snapshot |
| ThreadPoolStop.EarlyReturnHappens | Tools/DumpRenderTree/JavaScriptThreading.cpp:134-157 | a run from the start in which stop returns too early |
| ThreadPoolStop.LateContextHappens | Tools/DumpRenderTree/JavaScriptThreading.cpp:72-157 | a run from the start in which a worker creates a context in the released group |
| ThreadPoolStop.LateContextExactly | Tools/DumpRenderTree/JavaScriptThreading.cpp:72-157 | some continuation creates a context in the group after it was released if and only if at the snapshot some worker is past the flag check with its replacement still to be created |
| WorkQueueModel.WorkQueue.constructor | Tools/DumpRenderTree/WorkQueue.cpp:36-51 | an empty queue of 1024 slots with no history that is not frozen |
| WorkQueueModel.WorkQueue.Queue | Tools/DumpRenderTree/WorkQueue.cpp:53-64 | an item is accepted at the end, or deleted at once if the queue is frozen; the history gets the event |
| WorkQueueModel.WorkQueue.Dequeue | Tools/DumpRenderTree/WorkQueue.cpp:66-74 | the oldest waiting item leaves, never a stale slot; null if none waits |
| WorkQueueModel.WorkQueue.Count | Tools/DumpRenderTree/WorkQueue.cpp:76-79 | the number of waiting items |
| WorkQueueModel.WorkQueue.SetFrozen | Tools/DumpRenderTree/WorkQueue.h:47 | changes the flag only |
| WorkQueueModel.WorkQueue.DeleteAll | Tools/DumpRenderTree/WorkQueue.cpp:83-86 | every waiting item is deleted (deleting one twice would break a precondition), its slot is set to null, and no other slot changes |
| WorkQueueModel.WorkQueue.Clear | Tools/DumpRenderTree/WorkQueue.cpp:81-90 | every waiting item is deleted and the array starts over |
| WorkQueueModel.WorkQueue.ProcessOne | Tools/DumpRenderTree/WorkQueue.cpp:97-100 | the oldest item is taken, invoked, and then deleted, whatever its invocation does with the queue: queue, freeze, dequeue, clear or process more work; the result is that of this item's invoke |
| WorkQueueModel.WorkQueue.ProcessWork | Tools/DumpRenderTree/WorkQueue.cpp:92-105 | for every number of turns, every use of the queue by the invoked items and every nesting: each item invoked was the oldest waiting one when it was taken, and is deleted; it returns false if and only if the last item it invoked starts a load, and invokes none after one that does; unless the watch ends first, true means that nothing waits; if the items only queue and freeze, it terminates and the items invoked are the next accepted ones in order |
| WorkQueueModel.WorkQueue.Accounted | Tools/DumpRenderTree/WorkQueue.cpp:53-105 | for every queue, whatever was done to it: each item ever passed to queue was rejected, returned, worked off, dropped or is in the array, exactly once; what was returned and worked off left in the order of acceptance; nothing was deleted, worked off or invoked twice, and only what was worked off was invoked; and what was deleted at any time, rejected items included, was not accepted, invoked or returned since |
| WorkLog.EveryItemOnce | Tools/DumpRenderTree/WorkQueue.cpp:53-105 | over every sequence of operations the items returned and worked off are the accepted ones with that fate in order, and accepted items are exactly the returned, the worked off, the dropped and the waiting ones, each once |
| WorkLog.AcceptedOrRejected | Tools/DumpRenderTree/WorkQueue.cpp:53-64 | every item passed to queue is either accepted or rejected |
| WorkLog.LawfulIsClean | Tools/DumpRenderTree/WorkQueue.cpp:53-105 | if only live items are queued, nothing is deleted, worked off, invoked or waiting twice, and nothing waiting is deleted |
| WorkLog.DeletedIsGone | Tools/DumpRenderTree/WorkQueue.cpp:58-61 | in such a run an item deleted at some point is not accepted, invoked or returned at any later point |
| SetupIni.ScanFile | Tools/CygwinDownloader/cygwin-downloader.py:91-116 | the line loop computes the line-by-line scan and fails where the source raises |
| SetupIni.ScanSucceeds | Tools/CygwinDownloader/cygwin-downloader.py:93-116 | it gets through if and only if no line is empty and no line before the first record looks up a package |
| SetupIni.ScanRecords | Tools/CygwinDownloader/cygwin-downloader.py:93-116 | the packages are those with a record line; for the latest record of each: Base membership, the last requires line, and the path of the first usable install line after the first wanted version line |
| SetupIni.UpdateDescribes | Tools/CygwinDownloader/cygwin-downloader.py:99-116 | one more line keeps that description true |
| SetupIniText.WordsExactly | Tools/CygwinDownloader/cygwin-downloader.py:102-105 | splitting a text gives the words ws if and only if the text is these words with blanks between and possibly around them |
| SetupIniText.LineKinds | Tools/CygwinDownloader/cygwin-downloader.py:94-113 | which lines are records, categories, requirements, versions and installs, by how they begin |
| SetupIniText.RefersMeans | Tools/CygwinDownloader/cygwin-downloader.py:99-113 | exactly which lines look up the current package |
| SetupIniText.RecordLine | Tools/CygwinDownloader/cygwin-downloader.py:94-95 | a record line gives the name after its mark and one more character |
| SetupIniText.CategoryLine | Tools/CygwinDownloader/cygwin-downloader.py:99-103 | a category line puts a package in Base if and only if Base is one of its words or the package is required |
| SetupIniText.RequiresLine | Tools/CygwinDownloader/cygwin-downloader.py:104-106 | a requires line gives exactly its words |
| SetupIniText.VersionLine | Tools/CygwinDownloader/cygwin-downloader.py:107-112 | a version line gives all between its mark and the line end |
| SetupIniText.InstallLine | Tools/CygwinDownloader/cygwin-downloader.py:113-116 | an install line gives the path before the next space, and none without a space |
| SetupIniText.FileRoundTrip | Tools/CygwinDownloader/cygwin-downloader.py:91-116 | scanning a file written from any entries gives their Base flags, dependencies, versions and paths back, a later entry of a name replacing an earlier one and a pinned version deciding the path |
| PackageClosure.Downloader.Add | Tools/CygwinDownloader/cygwin-downloader.py:129-137 | adds the package and everything it leads to among known packages and nothing else, on cyclic graphs and unknown names; terminates |
| PackageClosure.Downloader.AddFlagged | Tools/CygwinDownloader/cygwin-downloader.py:139-141 | the set becomes the least closed set that contains the seeds, and the flags end equal to membership |
| PackageClosure.Downloader.DownloadAll | Tools/CygwinDownloader/cygwin-downloader.py:143-147 | one message for each package of the set, numbered from one to the size of the set |
| CygwinDownloader.Run | Tools/CygwinDownloader/cygwin-downloader.py:91-147 | from the lines of the file: the downloads are the least dependency-closed set that contains the seeds the file gives, and the messages, numbered from one, name each of them once; it fails if and only if the scanner does |
| CygwinDownloader.WrittenFile | Tools/CygwinDownloader/cygwin-downloader.py:91-141 | for such a file the seeds are exactly the packages that are required or in Base, and the graph has exactly the written dependencies |
| ModulePath.ExtractDirectoryName | Source/JavaScriptCore/jsc.cpp:752-768 | root up to the first separator, query between the first and the last one, failure without a separator |
| ModulePath.DirectoryMeans | Source/JavaScriptCore/jsc.cpp:752-768 | a path has a directory if and only if it has a separator, and then it is root, query, separator and a file name without separators again |
| ModulePath.ResolvePath | Source/JavaScriptCore/jsc.cpp:810-835 | the loops compute the root and the pieces left after walking the queries |
| ModulePath.Build | Source/JavaScriptCore/jsc.cpp:828-834 | the appended string is the root and the pieces with separators between them |
| ModulePath.ResolvedNormal | Source/JavaScriptCore/jsc.cpp:810-825 | from a normalised directory no resolved piece is empty, "." or ".." |
| ModulePath.StartsWithRootMeans | Source/JavaScriptCore/jsc.cpp:738-750 | a module name counts as rooted if and only if it is empty or starts with the separator |
| ModulePath.AbsoluteIgnoresDirectory | Source/JavaScriptCore/jsc.cpp:815-817 | such a name resolves the same from all directories with one root |
| ModulePath.RelativeMeans | Source/JavaScriptCore/jsc.cpp:819-825 | every other name goes up from the directory by the number of levels it climbs, stopping at the root, and then down its remaining pieces |
| ModulePath.WalkUpAndDown | Source/JavaScriptCore/jsc.cpp:819-825 | wherever they start, queries go up the same number of levels and then down the same pieces |
| ModulePath.ClimbsThenNames | Source/JavaScriptCore/jsc.cpp:819-825 | n times .. followed by plain names climbs n levels and leads down those names |
| ModulePath.ResolveParent | Source/JavaScriptCore/jsc.cpp:820-822 | ../name resolves to name beside the directory, and at the root to name in the root |
| ModulePath.NothingSaid | Source/JavaScriptCore/jsc.cpp:823 | an empty query or . anywhere changes nothing |
| ModulePath.CancelExactly | Source/JavaScriptCore/jsc.cpp:815-825 | a name followed by .. can be left out anywhere without changing the resolved pieces, except in front of queries that then start with the root, where it depends exactly on whether they climb out of the directory |
| ModulePath.DirectoryOfResolved | Source/JavaScriptCore/jsc.cpp:752-768 | the directory of a resolved path is its root and all pieces but the last |
| ModulePath.ResolveSibling | Source/JavaScriptCore/jsc.cpp:752-835 | looking up "./last" in the directory of a path gives the path back |
| ModulePath.ResolveAgain | Source/JavaScriptCore/jsc.cpp:746-835 | both for the result of every module name from every normalised directory |
| CommandLine.CommandTokenizer.constructor | Tools/DumpRenderTree/DumpRenderTreeCommon.cpp:12-17 | the tokens to come are the longest run of leading non-empty pieces of the input |
| CommandLine.CommandTokenizer.Pump | Tools/DumpRenderTree/DumpRenderTreeCommon.cpp:30-40 | what remains afterwards is the tokens of the input from the point reached on, an empty piece or the end of the input ending them |
| CommandLine.CommandTokenizer.HasNext | Tools/DumpRenderTree/DumpRenderTreeCommon.cpp:51-54 | true if and only if tokens are left |
| CommandLine.CommandTokenizer.Next | Tools/DumpRenderTree/DumpRenderTreeCommon.cpp:42-49 | returns the first of the tokens to come and leaves the others |
| CommandLine.ParseOption | Tools/DumpRenderTree/DumpRenderTreeCommon.cpp:71-82 | one turn of the loop consumes the tokens of one option or fails as the source does |
| CommandLine.ParseInputLine | Tools/DumpRenderTree/DumpRenderTreeCommon.cpp:62-85 | the loop parses the tokens of the line and terminates, error exits included |
| CommandLine.ParsePrint | Tools/DumpRenderTree/DumpRenderTreeCommon.cpp:62-85 | printing a command with a path, no quote in path or hash, and no hash without the pixel flag, and parsing the line gives the command back |
| CommandLine.RoundTripExact | Tools/DumpRenderTree/DumpRenderTreeCommon.cpp:62-85 | those commands are exactly the ones with that round trip, and exactly the ones that any line parses to |
| CommandLine.LineOutcome | Tools/DumpRenderTree/DumpRenderTreeCommon.cpp:62-85 | a line dies if and only if it has no token or something else than an option where an option is due, and otherwise breaks the assertion of next if and only if its last option is a --timeout without a token |
| CommandLine.LineSays | Tools/DumpRenderTree/DumpRenderTreeCommon.cpp:62-85 | what a line that parses says: the path is its first token; pixels are dumped if and only if -p or --pixel-test stands where an option is due; the hash is the token after the last of these that has one, else empty; the timeout is the number after the last --timeout, else 30000 |
| CommandLine.AtoiReads | Tools/DumpRenderTree/DumpRenderTreeCommon.cpp:75 | blanks, an optional sign, the decimal writing of n and anything that does not go on with a digit are read as that number |
| CommandLine.AtoiZero | Tools/DumpRenderTree/DumpRenderTreeCommon.cpp:75 | without a digit in that place the number is zero |
| CommandLine.BadLines | Tools/DumpRenderTree/DumpRenderTreeCommon.cpp:73-81 | a line that breaks the assertion, and one that dies |

## Left out

- Parsing the keyword file (lines 63-87 of KeywordLookupGenerator.py): the model starts from the list of (keyword, token) lines that it yields.
- The text of the printed C++ around the decision tree, indentation, and the identifier that the printed code stores in `data->ident`.
- Rounding of the floating-point keyword weights: they are real numbers.
- KeywordTrieNode.TrieNode.FillOut: keeps the dictionary beside the list that replaces it in the source, because one field cannot have both types, and also returns the result as a value for printing.
- The big-endian four-unit macro for UChar, which refers to itself and is never expanded.
- The tables behind isIdentPart: a parameter.
- The Content-Type and Content-Length lines of printPNG: only the announced number is modelled.
- MD5 hashing and the comparison with the expected hash in PixelDumpSupport.cpp.
- What the JavaScript workers compute: contexts, script strings, evaluations and flag checks are counted.
- WorkQueueModel.WorkQueue.ProcessWork: follows a run for any given number of turns, because with invoked items that clear the queue or process work themselves the loop need not end; an invoked item does not queue itself, nor any item when all 1024 slots are used, as the source asserts.
- The concrete items of WorkQueueItem.h: what an invocation does is nondeterministic, and whether it starts a load is a constant of the item, which is invoked once.
- The lists of required packages and pinned versions (lines 47-76 of cygwin-downloader.py): parameters.
- Sorting of package names and dependency lists: every order is covered by the proofs, so none is fixed.
- Writing the modified setup.ini, mirrors, downloads and the final exec of cygwin-downloader.py.
- Windows path separators, the current working directory and the promises around resolvePath in jsc.cpp.
- CommandLine.ParseInputLine: does not model what a build without assertions does after a final `--timeout`, nor the overflow of atoi, which C leaves undefined.
- The JavaScript binding wrappers, servers and user scripts of the repository: thin code over platforms that are not part of it.
