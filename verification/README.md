# Verified models of Rufus's core algorithms

Rufus writes bootable media. Most of it talks to the operating system, but a handful of its
algorithms are self-contained, and what they promise is about all inputs or all runs. This project
models those algorithms in Dafny and proves what they promise; where a promise does not hold as the
code stands, it proves exactly when it does.

`dafny verify dfyconfig.toml` checks everything. Devices, clocks, the user's cancel button and other
outside influences are oracles: functions of the request number about which nothing is assumed unless
a contract says so.

| files | what they model |
|---|---|
| `RegexMatch`, `RegexCompile`, `RegexSyntax` | the regular expressions of `src/re.c`: matcher, compiler into two static arrays, and the two together against a syntax tree's language |
| `Asn1`, `Oid`, `Asn1Search` | the DER search, the object identifier encoder and the public search of `src/parser.c` |
| `TokenFile`, `TokenMap` | the key/value text files of `src/parser.c`: one line, then whole files as a map |
| `BadBlockList`, `BadBlockTest`, `BadBlockPace`, `BadBlockRun`, `BadBlockFill` | the bad block test of `src/badblocks.c`: the sorted list, what a medium holds, the pace of batches and single blocks, the passes, and the patterns |
| `SectorWriter`, `ZeroDrive`, `AsyncCopy` | the three ways `WriteDrive` of `src/format.c` writes a drive |
| `Fat32Layout`, `Fat32Format` | the size arithmetic and the on-disk result of `src/format_fat32.c` |
| `ProcessSearch`, `ProcessTable` | the protocol and the slot table of `src/process.c` |
| `IsoWindow` | the window cache and the chunked extraction of `src/iso.c` |
| `Calendar` | dates to ticks, `src/dos.c` |
| `Common` | shared definitions and small lemmas |

## How the main results fit together

* **Regular expressions.** `InLanguage` defines the words of a sequence of pieces without any matching
  order. `MatchPattern` and its helpers, greedy loops with backtracking as in the source, decide it for
  every well-formed node array. `RenderCompiles` takes any syntax tree through its text and back to its
  flattened nodes, `FlattenAgrees` gives those nodes the tree's language, and `Match` joins the two; `ReMatch`
  does so for every pattern text that compiles to a well-formed array, and `DependsOnPatternAlone` says when what it
  compiles to is a function of the text.
* **DER.** `WalkIsScan` turns the recursive walk over bytes into a scan of the leaves of the tree that was
  encoded; `FindsFirstAfterOid` reads off which leaf is found, and `LeavesInBuffer` that the slice
  returned is its contents.
* **Bad blocks.** `Holds` says what a medium with any mapping of blocks to cells holds after a pass.
  `RunPass` lists, in a stamped pass, exactly the blocks that are `Overwritten`, and `WrapOverwrites`
  says that on a medium which wraps around at its real capacity C these are the b with b + C < last. `WriteLoop`
  keeps a trace of every write: each block is acknowledged or given up, once and in order, and `PacedNext` and
  `PlacesMore` pin down from which place of the buffer an acknowledged block was written. `BadBlocks` draws the
  conclusions for the whole call: bad blocks are reported exactly if C is smaller than claimed, and if only writes
  fail, exactly at some bad blocks, and the patterns are alike all over the buffer, as many as there are.
* **Writing.** `WriteStream`, `ZeroLoop` and `Copy` each state the drive's contents after a whole run,
  with short writes, retries and, for `Copy`, a pending read that may scribble over its half of the
  buffer at any moment; and each completes when nothing goes wrong.
* **FAT32.** `LayoutExact` holds for every sector count, sector size and cluster size, with the 32- and
  64-bit wrap-around of the source written out; `Format` produces `FatsWritten` and `BootWritten`, and
  `FreshFats` and `FreeCountRight` read the volume back as a driver would.
* **Process search.** `ReportIsCurrent` is about every sequence of events; its conclusion is about the
  events themselves (a whole pass with the right names), not about the counters the code looks at.

## Where the code falls short of the obvious promise

* What a pattern compiles to depends on the previous compilation if and only if the compiler gets to a
  backslash that is the last character and not itself escaped (`DependsOnPatternAlone`); the node in that slot
  then stays (`StaleNodeStays`).
* `[a-z-]` does not accept a dash (`TrailingDashAfterRange`), and an escaped dash is also read as a range from
  the backslash to the next character, so that `[\-z]` accepts the dash and every character from the backslash to z
  (`EscapedDash`). `SetAccepts` is the exact condition for all classes. A class whose ranges are ordered, and in which
  nothing follows an escaped dash, accepts the union of its items (`UnionOfItems`, the dash included where it leads or
  where no range is listed); a range out of order accepts its two ends (`DisorderlyRange`).
* A literal above 127 never matches itself, since one side is a signed char (`AtomMeans`).
* An OID arc survives the round trip if and only if it fits the platform's `unsigned long` and 35 bits
  (`Oid.RoundTrip`).
* A non-empty value without a newline reads back from a key/value file if and only if it starts with neither a blank
  nor a quote and does not end in a carriage return (`ValueReads`).
* `sector_write` reports success although data was lost exactly when the top-up write is short by the
  right amount (`Misleading`): with 512-byte sectors, 100 bytes waiting and 500 offered, a write that
  takes 500 of the 512 bytes (`LostBytes` is that run). A device that takes whole sectors cannot do this
  (`NotMisleading`).
* With regular reads, a copy that reaches its target has asked for data past the target size if and only if the
  target is not a number of sectors: the unsigned subtraction then wraps around (`RequestWraps`, `Copy`),
  despite the comment that this must never happen.
* The copy reports success when a read brings nothing. With reads that are full, an image that is shorter than the
  target then ends up at the start of the drive, followed by what rounds it up to whole sectors; with regular reads
  that bring something whenever they can, exactly the image is copied (`Copy`). `ShortImage` is such a run for every
  image of less than 2048 bytes.
* The boot, FSInfo and FAT sector writes of the FAT32 format are not checked: a completed format whose boot
  sectors are not patched has written them if and only if no write was short (`Format`), and on a volume that loses
  single sectors it completes without a file system (`UncheckedWrites`).
* After a short write the bad block test writes single blocks, all from the start of its buffer, and later
  compares them with the place they have in a batch. If reads make no errors and blocks are stored apart, then
  whatever the writes do, no acknowledged block is taken for a corrupted one unless the start of the buffer
  differs from its place; where all places are alike, a pass lists exactly the blocks it gave up, and on a medium
  that takes single blocks only also exactly the acknowledged blocks whose place differs (`RunPass`). Patterns of
  one byte are alike (`OneBytePass`). With the three-byte patterns for flash with three bits to a cell, a block
  written alone differs unless its place is a multiple of three (`ThreeBytePass`), so that such a medium has two good
  blocks out of three listed (`TestSingles`, `FalseAlarm`).
* 2^32 calls of `SetProcessSearch` between two passes make a stale report look current
  (`ReportsExactly`, `StaleReport`).
* During the first pass after new names are set, storing a process drops every process found before it,
  because `nPass - 1` wraps around at zero (`KeptIff`, `FirstPassForgets`): the first report knows the last process
  found and no other. Later passes keep every process they find while there are slots for them (`SearchPass`).
* A date after 14 September 30828, 02:48:05.477 is accepted and its ticks overflow (`ExactIff`); order and
  one-day steps hold except across that point (`TimeOrder`, `OneDayLater`).

## Model

| member | source | states |
|---|---|---|
| `RegexMatch.MatchCharClass` | src/re.c:349-385 | the loop over a class text, looking one character behind and two ahead without leaving the buffer, decides `ClassAccepts` |
| `RegexMatch.MatchOne` | src/re.c:387-402 | a character is accepted exactly if it is in the set its atom stands for, classes included |
| `RegexMatch.MatchesFirst` | src/re.c:404-457 | matching a body is matching its first piece on some prefix and the rest after it |
| `RegexMatch.MatchPattern` | src/re.c:497-530 | terminates, and returns true exactly when a word of the declarative language stands at that position (up to the end of the text with an end anchor) |
| `RegexMatch.MatchStar` | src/re.c:404-422 | greedy loop and back-off: true exactly when some run of accepted characters, possibly empty, is followed by a match of the rest |
| `RegexMatch.MatchPlus` | src/re.c:424-440 | the same with at least one character |
| `RegexMatch.MatchQuestion` | src/re.c:442-457 | the optional atom, and the sentinel, against the declarative language |
| `RegexMatch.Consume` | src/re.c:408-412 | the longest run of accepted characters |
| `RegexMatch.MatchFrom` | src/re.c:82-111 | the least matching position strictly before the end of the text, else -1; with a leading anchor, 0 exactly when the rest matches at the start |
| `RegexCompile.Engine.CopyClassText` | src/re.c:198-221 | the copy of a class into the buffer, all writes in range, fails exactly when the buffer would overflow or an escape is cut short |
| `RegexCompile.Engine.CompileClassText` | src/re.c:198-244 | a whole class: its text and terminator stand in the buffer, and the call fails exactly when they do not fit or the bracket is missing |
| `RegexCompile.Engine.CompileOne` | src/re.c:126-248 | one symbol into one slot, the other slots untouched, a lone trailing backslash leaving the slot as it was, and a class that fails leaving a class without a text of its own |
| `RegexCompile.Engine.Compile` | src/re.c:113-253 | both static arrays after a compilation, as a function of the pattern and of what the node array held before, the slots behind the sentinel untouched; after a failure, the symbols compiled before it and the slot of the class that failed |
| `RegexSyntax.RenderCompiles` | src/re.c:113-253 | compiling the text of any well-formed tree of at most 29 nodes and 39 class bytes gives back its flattened nodes and class buffer, whatever the arrays held |
| `RegexSyntax.DependsOnPatternAlone` | src/re.c:142-175 | over all patterns: the result is the same whatever the node array held if and only if no lone backslash is reached |
| `RegexSyntax.StaleNodeStays` | src/re.c:142-175 | where one is reached, the pattern compiles and its last node is the one its slot held before |
| `RegexSyntax.ClassMeaning` | src/re.c:311-385 | for every class of plain characters, ranges and escapes, the compiled class accepts a character exactly when an item does, with the exact reading of ranges out of order or above 127, of escaped dashes and of the dash itself |
| `RegexSyntax.UnionOfItems` | src/re.c:311-385 | with ordered ranges that do not mix characters below and above 128, and nothing after an escaped dash, a class accepts the union of its items; the dash itself where it leads or no range is listed |
| `RegexSyntax.DisorderlyRange` | src/re.c:311-347 | a range out of order, or from a character below 128 to one above, accepts its two ends only |
| `RegexSyntax.EscapedDash` | src/re.c:311-385 | what `[\-z]` and `[\-]` accept |
| `RegexSyntax.TrailingDashAfterRange` | src/re.c:349-385 | a concrete class that lists a dash and rejects it |
| `RegexSyntax.FlattenAgrees` | src/re.c:497-530 | the flattened tree is well-formed and has the tree's language |
| `RegexSyntax.ReMatch` | src/re.c:77-111 | for every pattern text that does not compile or compiles to a well-formed array: -1, or the least position at which the array's language is found |
| `RegexSyntax.Match` | src/re.c:77-111 | compile and match in one: for the text of a tree, the least position at which the language of the tree is found |
| `Asn1.GetDataInternal` | src/parser.c:1333-1397 | the loop that also recurses computes `Walk`: every branch of the header, the error cases, the shared match flag |
| `Asn1.HeaderRead` | src/parser.c:1341-1374 | the header reader undoes the header encoder for definite lengths (section 8.1.3 of X.690) |
| `Asn1.WalkIsScan` | src/parser.c:1340-1394 | on the encoding of any tree, the walk is the scan of its leaves in preorder |
| `Asn1.ScanFindsFirst` | src/parser.c:1382-1392 | once matched, the scan stops at the first non-empty universal primitive of the type |
| `Asn1.ScanNeedsOid` | src/parser.c:1382-1386 | before that, nothing is found, and the scan switches at the first equal OID |
| `Asn1.LeavesInBuffer` | src/parser.c:1386-1389 | each leaf's offset and length delimit its contents in the buffer |
| `Asn1Search.GetDataFromAsn1` | src/parser.c:1484-1509 | for every buffer: none above 64 KB or with an OID that does not convert, else what the walk finds |
| `Asn1Search.FindsFirstOfType` | src/parser.c:1484-1509 | without an OID: the contents of the first non-empty universal value of the type, or none if there is none |
| `Asn1Search.FindsFirstAfterOid` | src/parser.c:1484-1509 | with an OID: the same after the first occurrence of the OID, and nothing without one |
| `Oid.MakeFlaggedInt` | src/parser.c:1403-1417 | appends the base-128 octets of a value at the cursor and nothing else |
| `Oid.FlaggedDecodes` | src/parser.c:1403-1417 | decoding those octets gives the value modulo 2^35 and leaves what follows |
| `Oid.FlaggedMinimal` | src/parser.c:1409-1415 | no leading zero digit (section 8.19.2 of X.690), if and only if the value fits 35 bits or its kept highest digit is not zero |
| `Oid.RoundTrip` | src/parser.c:1423-1474 | decoding the octets of an accepted OID gives its arcs if and only if each is representable |
| `Oid.SmallArcsRepresentable` | src/parser.c:1447-1463 | arcs below 2^32, the second below 2^32 - 80, are representable on every platform |
| `Oid.OctetsPerDigits` | src/parser.c:1434-1437 | no arc needs more octets than it has digits, even with the 80 added |
| `Oid.ParseNumber` | src/parser.c:1441-1441 | the value and length of the number at the head of a string, saturated at the type's maximum |
| `Oid.AppendArc` | src/parser.c:1447-1463 | one arc: refused exactly when the first two arcs are not allowed, else its octets are appended in bounds |
| `Oid.OidFromStr` | src/parser.c:1423-1474 | the octets of the string, or none, for every string; the encoding is never longer than the string, so the buffer suffices |
| `TokenFile.GetTokenDataLine` | src/parser.c:572-628 | the value of a token on a line, or none, equal to the specification on strings |
| `TokenFile.FindEnd` | src/parser.c:618-621 | the end of the data: a quote if quoted, an angle bracket in the XML form, else the end of the line |
| `TokenFile.SetLine` | src/parser.c:750-790 | a line as it is rewritten for a token, or none if it is copied |
| `TokenMap.SetTokenDataFile` | src/parser.c:746-798 | the file after a write: every line with the token rewritten, or one line appended |
| `TokenMap.GetTokenDataFileIndexed` | src/parser.c:660-668 | the value of the index-th line that has a value for the token, and none if there are fewer |
| `TokenMap.ValueReads` | src/parser.c:604-627 | a non-empty value without a newline reads back as itself if and only if it starts with neither a blank nor a quote and does not end in a carriage return |
| `TokenMap.PlainIff` | src/parser.c:572-605 | a line is not in the XML form if and only if, for every key, reader and writer agree on what it holds |
| `TokenMap.WriteThenRead` | src/parser.c:681-798 | a write updates a case-insensitive map: that key reads as the new value, once for each line it had and at least once, every other key as before at every index, and every line stays terminated and plain |
| `TokenMap.RunRefinesMap` | src/parser.c:634-798 | over every run of writes and at every index, reading a key gives the last value written to it, once for each of its lines, or what was there before |
| `BadBlockList.InsertKeepsOrder` | src/badblocks.c:124-137 | inserting before the first larger block keeps the list strictly increasing and adds exactly that block |
| `BadBlockList.CountIsLength` | src/badblocks.c:95-139 | a strictly increasing list has as many elements as it is long |
| `BadBlockList.U64List.Add` | src/badblocks.c:95-139 | the set of listed blocks gains the block, the order stays strict, the length grows exactly if it was new |
| `BadBlockList.U64List.Find` | src/badblocks.c:150-179 | the binary search decides membership and returns a right position |
| `BadBlockTest.StampsDiffer` | src/badblocks.c:489-496 | blocks stamped with different numbers differ |
| `BadBlockTest.HoldsMore` | src/badblocks.c:497-503 | storing the next batch keeps the description of what the medium holds, for every mapping of blocks to cells |
| `BadBlockTest.TracesMore` | src/badblocks.c:497-514 | a turn adds its acknowledged blocks and the one it gives up to the trace, which stays in order and without repetition |
| `BadBlockTest.KeepsMore` | src/badblocks.c:497-503 | each acknowledged block is held as the place in the buffer it was written from, the others as before |
| `BadBlockTest.StampedCompare` | src/badblocks.c:558-567 | in a stamped pass a block compares unequal exactly when a later block took its cell |
| `BadBlockTest.PlainCompare` | src/badblocks.c:558-567 | in any pass a block that keeps its cell compares equal |
| `BadBlockTest.WrapOverwrites` | src/badblocks.c:489-497 | on a medium that wraps around at C, the overwritten blocks are exactly those with b + C < last |
| `BadBlockTest.WrapLoses` | src/badblocks.c:489-496 | such a medium loses a block exactly when it is tested past its capacity |
| `BadBlockTest.LostIffShared` | src/badblocks.c:489-497 | no block of a test is overwritten if and only if no two of them share a cell |
| `BadBlockPace.PacedNext` | src/badblocks.c:504-513 | whatever the medium answers, a request is a single block or a full batch from a batch start, single blocks only while a recovery block is set, and that is a batch start or past the last block |
| `BadBlockPace.PlacesMore` | src/badblocks.c:497-513 | every acknowledged block was written from the place it is compared with or from the start of the buffer |
| `BadBlockPace.ToldMore` | src/badblocks.c:497-514 | what a turn adds to the log of acknowledged and given-up blocks and to the medium, it adds to the trace |
| `BadBlockRun.Tester.Output` | src/badblocks.c:254-287 | the list gains the block, and one counter grows exactly if the block is new |
| `BadBlockRun.Tester.Adapt` | src/badblocks.c:504-513 | single blocks after a short count, full batches again exactly when a request ends at the recovery block |
| `BadBlockRun.Tester.WriteTurn` | src/badblocks.c:497-513 | one turn on any medium: the next position, batch size and recovery block for the count acknowledged, the new contents of the medium, and the block given up, if any, the only one added to the list |
| `BadBlockRun.Tester.WriteLoop` | src/badblocks.c:474-514 | terminates by blocks left and batch size; on any medium every block before the current position was acknowledged or given up and listed, each once and in order, the acknowledged ones from their place in a batch or from the start of the buffer, and from the start if the medium takes single blocks only; where writes fail at the bad blocks, those given up are the bad ones; what a medium that stores blocks apart then holds; without write errors, the pass |
| `BadBlockRun.Tester.Compare` | src/badblocks.c:558-567 | lists exactly the blocks that differ |
| `BadBlockRun.Tester.ReadLoop` | src/badblocks.c:521-570 | terminates; without read errors it lists exactly the blocks before the current position that differ on the medium |
| `BadBlockRun.Tester.RunPass` | src/badblocks.c:459-573 | without read errors and with blocks stored apart, whatever the writes do: it lists what it gave up and what differs from where it was written from, its place or the start of the buffer, so that no acknowledged block is listed unless the start of the buffer differs from what it is compared with; with all places alike the pass lists exactly what it gave up; on a medium that takes single blocks only, that and, over the part compared, exactly the acknowledged blocks that differ; without any errors a stamped pass lists exactly the overwritten blocks, and a pass over a faithful medium none |
| `BadBlockRun.Tester.CountPass` | src/badblocks.c:462-570 | a pass keeps the list equal to the blocks given up if places are alike and reads faithful, and those given up equal to the bad blocks if writes fail exactly there; a stamped pass that loses a block counts something |
| `BadBlockRun.Tester.TestRw` | src/badblocks.c:417-577 | on any medium the count is the number of listed blocks and stays below the threshold plus one batch; without errors, a test that nobody cancels and that stamps its first pass counts something exactly if a block is overwritten by a later one, and no test counts anything if none is; if only writes fail and patterns are alike, the test lists exactly what it gave up, and that is exactly the bad blocks unless it is cut short |
| `BadBlockRun.BadBlocks` | src/badblocks.c:579-624 | the report adds up and is bounded; a call that the user does not cancel fails exactly when its arguments are refused; on an error-free medium that wraps around at a capacity, a stamped test reports bad blocks exactly if the capacity is smaller than the disk claims; if only writes fail, exactly at fewer bad blocks than the threshold, and patterns are alike, it counts exactly those |
| `BadBlockFill.PatternFill` | src/badblocks.c:334-371 | the loop over the buffer, whose index counts down and starts over, repeats the bytes of the pattern from the most significant one |
| `BadBlockFill.ThreeBytesAlike` | src/badblocks.c:334-371 | a pattern of three bytes fills every third block of half a megabyte alike, and no others |
| `BadBlockFill.OneBytePass` | src/badblocks.c:334-371 | with a pattern of one byte all places of the buffer are alike, stamped or not |
| `BadBlockFill.ThreeBytePass` | src/badblocks.c:497-567 | with three bytes that are not all equal, the start of the buffer differs from a block's place exactly if that is not a multiple of three |
| `BadBlockFill.TestSingles` | src/badblocks.c:459-573 | on a medium that takes single blocks only, none of them bad, such a pass lists exactly the blocks whose place is not a multiple of three |
| `BadBlockFill.FalseAlarm` | src/badblocks.c:459-573 | a concrete run that lists a good block |
| `SectorWriter.Writer.TopUp` | src/format.c:1121-1129 | the waiting bytes grow by as much of the chunk as fits |
| `SectorWriter.Writer.SendSector` | src/format.c:1130-1133 | the full buffer is written, and the buffer is empty afterwards |
| `SectorWriter.Writer.SendRest` | src/format.c:1136-1157 | whole sectors to the device and the remainder to the buffer, or a short count |
| `SectorWriter.Writer.SectorWrite` | src/format.c:1102-1158 | every device write is a number of sectors and less than a sector waits; a count equal to the request means the stream grew by the chunk, except exactly in the `Misleading` case, where the count does equal it; a device that takes all always succeeds |
| `SectorWriter.LostBytes` | src/format.c:1121-1133 | a run of two calls that both report success and lose bytes |
| `SectorWriter.NotMisleading` | src/format.c:1131-1133 | a device that takes whole sectors never misleads |
| `SectorWriter.Writer.WriteChunks` | src/format.c:1310-1312 | after any chunks that were taken, device contents followed by waiting bytes are their concatenation |
| `SectorWriter.Writer.WriteStream` | src/format.c:1310-1322 | after the final flush the device starts with the concatenation and has less than a sector more, however the stream was chunked |
| `ZeroDrive.IsEmpty` | src/format.c:1243-1254 | the word loop decides whether all bits of a chunk are equal |
| `ZeroDrive.LookAhead` | src/format.c:1236-1261 | the read-ahead leaves the file pointer behind an empty chunk and puts it back before any other |
| `ZeroDrive.WriteWithRetries` | src/format.c:1266-1290 | short and failed writes leave the file pointer anywhere and some bytes written; success means the whole chunk is there and nothing else changed |
| `ZeroDrive.NextSize` | src/format.c:1220-1225 | the next chunk: whole sectors, all of the buffer or just past the target |
| `ZeroDrive.ZeroTurn` | src/format.c:1231-1290 | one chunk, skipped, throttled or looked at: the file pointer is behind it, it is uniform, and the next fifteen turns skip the look exactly if it was not blank |
| `ZeroDrive.ZeroLoop` | src/format.c:1200-1291 | the file pointer is at wb in each turn; on completion all bytes are zero, or in fast mode each chunk is uniformly ones or was and is uniformly zero; nothing beyond the current chunk changes; a willing drive is completed |
| `AsyncCopy.RequestWraps` | src/format.c:1395-1402 | the next request stays inside the target exactly if the last read was not rounded past it |
| `AsyncCopy.Copier.Tick` | src/windows_specific/winio.c:101-114 | a pending read may change its half of the buffer at any time, and nothing else |
| `AsyncCopy.Copier.Wait` | src/windows_specific/winio.c:143-178 | the finished read: how much of the image is in its half, and the new offset |
| `AsyncCopy.Copier.WriteOut` | src/format.c:1404-1429 | writing one half with retries while the other is filled: the chunk on the drive is the one that was read |
| `AsyncCopy.Copier.LaunchNext` | src/format.c:1391-1402 | the halves change roles and the next request fits what is left |
| `AsyncCopy.Copier.Turn` | src/format.c:1375-1429 | the file pointer, the reader's offset and the copied prefix advance together, and every request fits what is left |
| `AsyncCopy.Copier.Copy` | src/format.c:1361-1430 | if every read gave whole sectors or ended at the target, the drive holds the image up to the target or up to where the copy stopped, and data past the target was requested if and only if the target was reached and is not a number of sectors; if reads bring something whenever they can, success means the target was reached or, with regular reads, exactly a shorter image was copied; with full reads and an image shorter than the target, success means that the drive starts with the whole image and wb is its size in whole sectors; full reads are regular if the image reaches the target or ends with a sector, and a smooth run succeeds |
| `AsyncCopy.CopyWhole` | src/format.c:1361-1430 | a run in which nothing goes wrong succeeds and copies the image up to the target |
| `AsyncCopy.ShortImage` | src/format.c:1361-1430 | for every image of less than 2048 bytes, a run that reports success short of the target, with the image at the start of the drive |
| `Fat32Layout.FatSizeExact` | src/format_fat32.c:134-146 | no step of the size computation wraps around |
| `Fat32Layout.EntriesSuffice` | src/format_fat32.c:134-146 | the entries of a FAT of that size outnumber the clusters plus two |
| `Fat32Layout.ReservedExact` | src/format_fat32.c:311-317 | at least 32 reserved sectors, less than a megabyte more, and the data area on a megabyte |
| `Fat32Layout.LayoutExact` | src/format_fat32.c:308-399 | for every sector count in range, sector size and cluster size: the reserved count fits 16 bits, the user area does not underflow, the data area is aligned and the FAT is large enough |
| `Fat32Layout.PlanSound` | src/format_fat32.c:374-399 | a plan is never refused for too small a FAT, and every plan made fits |
| `Fat32Format.BurstsInside` | src/format_fat32.c:415-431 | the last burst of the zeroing loop ends inside the volume |
| `Fat32Format.ZeroSystemArea` | src/format_fat32.c:415-431 | the whole system area is zero, nothing two bursts beyond it changes, and a healthy volume never refuses a burst |
| `Fat32Format.WriteBootSectors` | src/format_fat32.c:433-439 | the four boot and FSInfo sectors if no write was short, else one of them is as before; no other sector changes |
| `Fat32Format.WriteFats` | src/format_fat32.c:441-446 | the first sector of each FAT if no write was short, else one of them is as before; no other sector changes |
| `Fat32Format.WriteUnchecked` | src/format_fat32.c:433-446 | on a zeroed system area: the six sectors are all written if and only if no write was short |
| `Fat32Format.PatchReserved` | src/format_fat32.c:448-455 | boot record patching as any change confined to reserved sectors |
| `Fat32Format.Format` | src/format_fat32.c:408-455 | every reserved sector holds what the patch says or else what the format put there, both FATs and the root directory are fresh, the FSInfo sectors too if the patch keeps free count and hint; without patched boot sectors all is written if and only if no write was short; its frame; a healthy volume completes |
| `Fat32Format.UncheckedWrites` | src/format_fat32.c:433-446 | for every layout, a volume on which the format completes and writes no file system |
| `Fat32Format.FreshFats` | src/format_fat32.c:354-356 | every entry of both FATs as a driver finds it: the copies are equal and only 0, 1 and 2 are in use |
| `Fat32Format.FreeCountRight` | src/format_fat32.c:408-410 | whatever the boot sectors hold: the free count in both FSInfo sectors is the number of free clusters in either FAT, and the next-free hint is free |
| `Fat32Format.AreasDisjoint` | src/format_fat32.c:358-372 | boot sectors, backups, both FATs and the data area do not overlap |
| `ProcessSearch.VersionsCount` | src/process.c:494-528 | in every run the version numbers differ by the calls since the last copy, modulo 2^32, and without any the copy is current |
| `ProcessSearch.PassCounted` | src/process.c:526-732 | a counted pass is a whole pass since the last copy with the names the thread has now |
| `ProcessSearch.ReportIsCurrent` | src/process.c:936-953 | in every interleaving a report means current names and a whole undisturbed pass with them, given fewer than 2^32 calls since the last copy |
| `ProcessSearch.ReportsExactly` | src/process.c:940-943 | when a report is given, exactly |
| `ProcessSearch.StaleReport` | src/process.c:868-943 | a run with 2^32 calls that ends in a stale report |
| `ProcessTable.PruningKeepsDistinct` | src/process.c:582-585 | pruning keeps the pids distinct |
| `ProcessTable.StoringKeepsDistinct` | src/process.c:586-594 | so does storing in the slot the search loops find |
| `ProcessTable.StoreKeeps` | src/process.c:578-600 | from pass 1 on, with a slot to spare, a store keeps the process stored and every process seen on the same pass |
| `ProcessTable.KeptIff` | src/process.c:582-585 | which entries survive the pruning, with the wrap-around at pass 0 |
| `ProcessTable.FirstPassForgets` | src/process.c:582-594 | a store during pass 0 always finds a slot, and the process stored is then alone in the table |
| `ProcessTable.BlockingProcess.SetSearch` | src/process.c:868-878 | the whole shared record moves exactly by the protocol event that the theorems about runs are about: new names, next version, pass count and own copy untouched |
| `ProcessTable.BlockingProcess.BeginPass` | src/process.c:484-536 | likewise: nothing without names, a copy and a reset pass count exactly if the versions differ, searching only if the handles could be listed |
| `ProcessTable.BlockingProcess.FinishPass` | src/process.c:729-732 | likewise: one more pass, modulo 2^32, and no change to names or versions |
| `ProcessTable.BlockingProcess.StoreFound` | src/process.c:578-600 | the whole table after a store; no two slots hold the same pid |
| `ProcessTable.BlockingProcess.StoreAll` | src/process.c:578-600 | after the processes of pass 0 the table holds the last one only; after those of a later pass with room, all of them |
| `ProcessTable.BlockingProcess.SearchPass` | src/process.c:484-732 | a whole pass is the two protocol steps; if the names were new, the first report becomes possible, and the table then holds the last process found and no other; a later pass keeps every process it finds while there are slots for all beside those in use |
| `ProcessTable.BlockingProcess.Report` | src/process.c:936-975 | reports exactly when the protocol allows, the pids and rights of the listed entries |
| `ProcessTable.ReportedIff` | src/process.c:955-970 | a pid is reported exactly when a listed entry has it |
| `ProcessTable.ReportedOnce` | src/process.c:955-970 | no pid is reported twice |
| `ProcessTable.MaskIff` | src/process.c:958-975 | the returned mask is zero exactly when nothing is listed |
| `IsoWindow.SectorAndBlock` | src/iso.c:1729-1732 | a sector size that divides the window divides a block or is a number of blocks |
| `IsoWindow.WindowHolds` | src/iso.c:1734-1738 | the new window starts on a block and holds the sector, whichever of the two is larger |
| `IsoWindow.Window.ReadSector` | src/iso.c:1725-1747 | over any sequence of accesses whose refills succeed, the cached sector is the image's at lsn * 2048 + sec * secsize |
| `IsoWindow.Open` | src/iso.c:1777-1787 | the window starts out filled with the start of the file |
| `IsoWindow.ChunkStep` | src/iso.c:960-975 | the blocks of a chunk and of the rest are the blocks of the file |
| `IsoWindow.Extract` | src/iso.c:956-981 | the extracted file is the image's bytes, and the blocks counted are those projected when the image was scanned |
| `Calendar.EpochDays` | src/dos.c:85-92 | the closed formula is the sum of the lengths of all years since 1601 |
| `Calendar.AddMonths` | src/dos.c:117-119 | the month loop adds the lengths of the months before |
| `Calendar.TimeFieldsToTime` | src/dos.c:94-128 | whole days and milliseconds in ticks, wrapped to 64 bits step by step as the source does, or a refusal exactly for invalid fields |
| `Calendar.ExactIff` | src/dos.c:115-127 | the result is exact, and not negative, if and only if the date is not after 14 September 30828, 02:48:05.477 |
| `Calendar.LastYearOverflows` | src/dos.c:115-127 | an accepted date whose result overflows |
| `Calendar.TimeOrder` | src/dos.c:94-128 | the earlier of two dates has the smaller result, unless the later one alone overflows; no two dates have the same result |
| `Calendar.OneDayLater` | src/dos.c:94-128 | the next calendar day is exactly 86400 * 10^7 ticks later, unless it alone overflows |

## Left out

- Regular expressions: the match length, which is not restored on every failing path (src/re.c:499-516); matching with node arrays that are not well-formed (a quantifier without an atom, anchors elsewhere, a class that failed to compile).
- Regular expressions: `isdigit`, `isalpha` and `isspace` of negative characters are taken as false; `.` matches every character because `RE_DOT_MATCHES_NEWLINE` is 1 (src/re.h:36).
- `RegexCompile.Engine.CompileOne`: the text pointer of a class that fails to compile is the one its slot held before, and is not modelled; nor is the class buffer after a failure.
- `RegexCompile.Engine.Compile`: the class buffer after a failed compilation is not described; the caller does not use it.
- `RegexSyntax.ReMatch`: only patterns that do not compile or compile to a well-formed array, since the matcher is modelled on those.
- `RegexSyntax.Match`: only the texts of well-formed trees, since the language is that of a tree; `ReMatch` covers other texts.
- DER: what the walker reads beyond the buffer when a header is cut short; the model stops there with its own outcome.
- Key/value files: byte order marks and encodings, lines over 1023 characters, CR LF translation, allocation failures, and the temporary file that replaces the original.
- `TokenMap.WriteThenRead`: for keys free of blanks, line ends and the signs `=<>;[`, values that pass `ValueReads`, and files whose lines are terminated and not in the XML form (`PlainLine`).
- Bad blocks: the random pattern and the random offset of the stamp are arbitrary contents and an arbitrary offset; progress and logging are not modelled.
- `BadBlockRun.Tester.TestRw`: the claims for an error-free medium need a disk of less than 1 PB, because at exactly 1 PB the comparison loop leaves at the first mismatch (src/badblocks.c:562).
- `SectorWriter.Writer.WriteStream`: the device is written from its start and only at its end; what the decompressor does with its own errors is not modelled.
- `ZeroDrive.ZeroLoop`: starts from a rewound drive, since a failed rewind is only logged (src/format.c:1180-1183); in fast mode sectors are a multiple of 4 bytes.
- `AsyncCopy.Copier.Copy`: the contents of the drive are not claimed once a read stops short inside a sector before the target, since rounding then moves the later data; mounting of virtual disks is not modelled.
- FAT32: the boot record's and FSInfo sector's remaining fields, the volume label, and what `WritePBR` writes beyond its confinement to reserved sectors; drive geometry and partition queries; default cluster sizes.
- Process search: stopping the search, lock timeouts, the enumeration of handles itself; attributing an old slot to the names it was found for is not claimed.
- `IsoWindow.Window.ReadSector`: nothing is claimed after a failed refill, since the start moves before the read succeeds (src/iso.c:1736-1743); block numbers are unbounded.
- `FatDateTimeToSystemTime` (src/dos.c), which only prepares the fields.
- Everything that talks to Windows, the user interface, networking and signature checks, localization, `sanitize_label` and `is_in_md5sum`.
