# A verified model of `cov` and `cargo-cov`

`cov` reads the coverage files that GCC-compatible compilers produce: the
`.gcno` file, which describes each function's control-flow graph (blocks,
arcs and the source lines of each block), and the `.gcda` file, which holds
the counts of the instrumented arcs after a run. The library parses both
formats into raw records and merges them into one graph. It then analyses the
graph: it marks catch blocks, unconditional arcs and exceptional blocks, and
it propagates arc counts into block counts along flow conservation. Finally
it turns the graph into a per-file report of line counts, branches and
function summaries. Source file names are interned into symbols.

`cargo-cov` is the cargo subcommand around the library. From it this project
models the following pieces:

- splitting the command line into special arguments and forwarded ones;
- deciding whether `rustc` is compiling a crate of the workspace;
- classifying source paths;
- finding the name of the profiler runtime library;
- the report template's path and `coalesce` filters.

The project is a Dafny model with one module per source file:

- The reader is a class over an in-memory byte stream. Every method of it is
  proved equal to a pure decoding function (`Decode`).
- The graph is a class whose fields are the petgraph arena (blocks, arcs,
  functions, indices). Each mutating method is proved against a function on
  the graph's value (`GraphBuild`, `GraphFlow`, `GraphMarks`, `GraphReport`).
- The properties are stated as lemmas about those functions.

## Model

| member | source | states |
|---|---|---|
| Intern.IndexOf | cov/src/intern.rs:157-164 | the position found is the first occurrence of the string, and it is past the end exactly when the string is absent |
| Intern.InternThenIndex | cov/src/intern.rs:157-164 | the symbol that interning returns resolves back to the interned string |
| Intern.InternStable | cov/src/intern.rs:157-164 | interning only appends; a known string leaves the arena unchanged; a new one gets the next symbol; interning the same string twice equals interning it once |
| Intern.InternKeepsDistinct | cov/src/intern.rs:7-20 | interning keeps the arena free of duplicates, so each string has exactly one symbol |
| Intern.Entries | cov/src/intern.rs:176-190 | the listing from a symbol on pairs each later symbol with its string, in order |
| Intern.Interner.constructor | cov/src/intern.rs:146-151 | a new interner holds only `<unknown>`, at symbol 0 (`UNKNOWN_SYMBOL`) |
| Intern.Interner.Intern | cov/src/intern.rs:157-164 | the arena and symbol after the call are those of the interning function, and the lookup stays consistent |
| Intern.Interner.Get | cov/src/intern.rs:205-213 | indexing by a valid symbol yields the string the interner maps back to that symbol |
| Intern.Interner.ArenaIsDistinct | cov/src/intern.rs:205-213 | a valid interner never holds the same string twice |
| Intern.Interner.Iter | cov/src/intern.rs:185-190 | the iterator starts after `UNKNOWN_SYMBOL`, at index 1 |
| Intern.InternerIter.Next | cov/src/intern.rs:224-235 | it yields the current symbol and its string and advances; it yields nothing once past the arena |
| Intern.InternerIter.Collect | cov/src/intern.rs:176-190 | collecting gives every (symbol, string) from the current index to the end, in order |
| Intern.InternDocExample | cov/src/intern.rs:170-184 | interning "one", "two" and "three" and iterating yields them with symbols 1, 2, 3 |
| Raw.VersionTryFrom | cov/src/raw.rs:174-177 | a version is accepted exactly when its low byte is `*` and its other bytes are ASCII; otherwise the error is `UnsupportedVersion` |
| Raw.InvalidVersionRejected | cov/src/raw.rs:159-164 | `INVALID_VERSION` is rejected and `VERSION_4_7` is accepted |
| Raw.VersionDisplay | cov/src/raw.rs:187-195 | the display is four characters, the version's bytes from the most significant down |
| Raw.VersionFromStr | cov/src/raw.rs:198-204 | a string whose UTF-8 form is not four bytes is rejected |
| Raw.VersionParseDisplay | cov/src/raw.rs:187-204 | displaying a parsed version gives back the string |
| Raw.VersionRoundTrip | cov/src/raw.rs:174-204 | parsing the display of a valid version gives back the version |
| Raw.BlockAttrFromGcno | cov/src/raw.rs:343-346 | block flags from a gcno are accepted exactly when they are 0 or UNEXPECTED; they keep their bits; anything else is `UnsupportedAttr("block", …)` |
| Raw.ArcAttrFromGcno | cov/src/raw.rs:343-346 | arc flags are accepted exactly when they lie below 8 (ON_TREE, FAKE and FALLTHROUGH); anything else is `UnsupportedAttr("arc", …)` |
| Words.SwapLE32IsBE32 | cov/src/reader.rs:103-110 | swapping the bytes of a little-endian word gives the big-endian word, and back |
| Words.RotateSwap64 | cov/src/reader.rs:119-126 | rotating a 64-bit word by 32 and swapping its bytes swaps each 32-bit half in place |
| Words.RotatedHalves | cov/src/reader.rs:119-126 | rotating by 32 exchanges the two halves |
| Words.BE32OfBytes | cov/src/raw.rs:198-204 | reading a word's four bytes big-endian gives the word back |
| Words.Combine64Halves | cov/src/reader.rs:119-126 | the low and high halves of a combined 64-bit word are its parts |
| Utf8.DecodeEncode | cov/src/reader.rs:163-173 | decoding the UTF-8 encoding of any string gives the string back |
| Utf8.DecodeEncodeChar | cov/src/reader.rs:163-173 | the first character decoded from an encoded character is that character, with its encoded length |
| Utf8.EncodeAscii | cov/src/raw.rs:187-195 | an ASCII string encodes to one byte per character, each the character's code |
| Utf8.AsciiEncoding | cov/src/raw.rs:198-204 | a string whose encoding is all ASCII bytes has those bytes as its characters |
| Utf8.EncodeEndsNonZero | cov/src/reader.rs:168-169 | a string not ending in NUL encodes to bytes not ending in 0, so trailing-NUL trimming cannot eat it |
| Decode.ReadExact | cov/src/reader.rs:103-126 | it succeeds exactly when n bytes remain before the limit and returns them; a short read is `UnexpectedEof` and consumes up to the limit |
| Decode.Read32 | cov/src/reader.rs:103-110 | it succeeds exactly when 4 bytes remain; the word is read in the file's byte order |
| Decode.Read64 | cov/src/reader.rs:119-126 | it succeeds exactly when 8 bytes remain; the value is two 32-bit words, low word first, each in file order |
| Decode.TrimNul | cov/src/reader.rs:168-169 | the result is the longest prefix without trailing NULs: only zero bytes were removed |
| Decode.ReadString | cov/src/reader.rs:163-173 | it consumes within the limit and fails only with `UnexpectedEof` or `FromUtf8` |
| Decode.StringBody | cov/src/reader.rs:166-173 | it consumes exactly the body of the string and fails only with `FromUtf8`; its value is given by `DecodeProps.BodyOfText` and `DecodeProps.StringRoundTrip` |
| Decode.MagicType | cov/src/reader.rs:199-205 | each of the four magic words selects its file type and byte order, and any other word is `UnknownFileType` |
| Decode.ReadHeader | cov/src/reader.rs:197-221 | a header is the magic, a version that `try_from` accepts, and the stamp, each read in the file's byte order; short input is `UnexpectedEof` |
| Decode.ReadRecordHeader | cov/src/reader.rs:273-290 | a record header takes 8 bytes and fails only with `UnexpectedEof` |
| Decode.SubLimit | cov/src/reader.rs:273-290 | the record's sub-reader never reaches past its parent's limit |
| Decode.ParseFunction | cov/src/reader.rs:301-337 | a parsed function consumes its whole record; before 4.7 the CFG checksum is 0; a gcda from 4.7 on has no source; an older gcda gets an unknown file name and line 0 |
| Decode.ParseFunctionSource | cov/src/reader.rs:312-325 | the source is absent exactly for a gcda from 4.7 on; an older gcda gets an unknown file name and line 0 |
| Decode.ReadSource | cov/src/reader.rs:348-360 | reading the source stays within the record; it is two `Decode.ReadString` reads and a `Decode.Read32`, whose values `DecodeProps.StringRoundTrip` and `Decode.Read32` give, and `GcovReader.Reader.ReadSource` equals it |
| Decode.BlocksFrom | cov/src/reader.rs:369-376 | on success the blocks record is consumed to its end, with one flag per 4 bytes, each flag 0 or UNEXPECTED; errors are `UnsupportedAttr` |
| Decode.ArcsFrom | cov/src/reader.rs:385-398 | on success the record is consumed with one arc per 8 bytes, all flags below 8; errors are `UnsupportedAttr` |
| Decode.CountsFrom | cov/src/reader.rs:437-441 | reading arc counts never fails: it reads one counter per whole 8 bytes and stops at the limit |
| Decode.SetBits | cov/src/reader.rs:467-471 | the bucket positions are the set bits of the bit vector, strictly increasing and below 256 |
| Decode.ParseRecordBody | cov/src/reader.rs:236-263 | each known tag yields its own record kind; the EOF tag is `Eof`; any other tag is `UnknownTag` |
| Decode.RecordEntry | cov/src/reader.rs:237-255 | every record read moves the position forward, so reading until EOF terminates |
| DecodeProps.DoubleWordOrder | cov/src/reader.rs:119-126 | the low half of a 64-bit read is the first 32-bit word and the high half the second |
| DecodeProps.TrimPadding | cov/src/reader.rs:168-169 | trimming a text padded with zeros gives the text |
| DecodeProps.StringRoundTrip | cov/src/reader.rs:166-173 | the body of an encoded string, padded with NULs, decodes to the interned string |
| DecodeProps.PaddedText | cov/src/reader.rs:166-172 | a NUL-padded UTF-8 body decodes to its text |
| DecodeProps.BodyOfText | cov/src/reader.rs:166-173 | a string body whose trimmed UTF-8 text is known yields that text interned, with the cursor at the body's end |
| DecodeProps.PaddedString | cov/src/reader.rs:163-173 | the length word (in 32-bit words) selects exactly the string body |
| DecodeProps.ReadStringWords | cov/src/reader.rs:163-167 | reading a string reads the length word, then a body cut at the limit |
| DecodeProps.RecordsEndAtLimit | cov/src/reader.rs:502-519 | reading records at the end of input yields the records read so far |
| DecodeProps.RecordsEndAtEofTag | cov/src/reader.rs:252 | an EOF tag ends the record list without an error |
| DecodeProps.RecordsUnknownTag | cov/src/reader.rs:253 | an unknown tag makes the whole parse fail with `UnknownTag` |
| DecodeProps.LinesDropTerminator | cov/src/reader.rs:407-428 | the lines kept are every entry read except the last one, which gcc writes as the terminating empty file name |
| GcovReader.Reader.constructor | cov/src/reader.rs:206-214 | a new reader starts at cursor 4 with `INVALID_VERSION` and stamp 0 |
| GcovReader.Reader.Sub | cov/src/reader.rs:273-290 | a sub-reader shares the stream and interner and is limited to the record's length |
| GcovReader.Reader.ReadExact | cov/src/reader.rs:89-94 | the result and the new position are those of `Decode.ReadExact` |
| GcovReader.Reader.Read32 | cov/src/reader.rs:103-110 | the result and position are those of `Decode.Read32`, and the cursor advances by 4 |
| GcovReader.Reader.Read64 | cov/src/reader.rs:119-126 | the result and position are those of `Decode.Read64`, and the cursor advances by 8 |
| GcovReader.Reader.ReadHistogramBitvector | cov/src/reader.rs:135-152 | the 32 bytes are read as 8 words in file order, or the read fails like `Decode.ReadExact` |
| GcovReader.Reader.DecodeWords | cov/src/reader.rs:135-152 | the 32 bytes become 8 words, each read in the file's byte order, as `Decode.HistogramWords` states |
| GcovReader.Reader.ReadString | cov/src/reader.rs:163-173 | the result, position and interner arena are those of `Decode.ReadString` |
| GcovReader.Reader.ConsumeToEnd | cov/src/reader.rs:52-66 | the reader is left at its limit |
| GcovReader.Reader.ReadSource | cov/src/reader.rs:348-360 | equal to `Decode.ReadSource` |
| GcovReader.Reader.ParseFunction | cov/src/reader.rs:301-337 | equal to `Decode.ParseFunction` |
| GcovReader.Reader.ReadCfgChecksum | cov/src/reader.rs:301-337 | equal to `Decode.CfgChecksum`: a word is read only from version 4.7 on, and the checksum is 0 before |
| GcovReader.Reader.ParseFunctionSource | cov/src/reader.rs:312-325 | equal to `Decode.ParseFunctionSource` |
| GcovReader.Reader.ReadBlockFlag | cov/src/reader.rs:369-376 | equal to `Decode.BlockFlag` |
| GcovReader.Reader.ParseBlocks | cov/src/reader.rs:369-376 | equal to `Decode.BlocksFrom` |
| GcovReader.Reader.ReadArc | cov/src/reader.rs:385-398 | equal to `Decode.ArcEntry` |
| GcovReader.Reader.ParseArcs | cov/src/reader.rs:385-398 | equal to `Decode.ParseArcs` |
| GcovReader.Reader.ReadLine | cov/src/reader.rs:407-428 | equal to `Decode.LineEntry` |
| GcovReader.Reader.ParseLines | cov/src/reader.rs:407-428 | equal to `Decode.ParseLines` |
| GcovReader.Reader.ReadLineEntries | cov/src/reader.rs:407-428 | equal to `Decode.LinesFrom`: entries are read up to the end of the record, or the first failing read |
| GcovReader.Reader.ParseArcCounts | cov/src/reader.rs:437-441 | equal to `Decode.CountsFrom`, which cannot fail |
| GcovReader.Reader.ReadBucket | cov/src/reader.rs:473-482 | equal to `Decode.Bucket` |
| GcovReader.Reader.ParseHistogram | cov/src/reader.rs:465-487 | equal to `Decode.ParseHistogram` |
| GcovReader.Reader.ReadBuckets | cov/src/reader.rs:473-482 | equal to `Decode.BucketsFrom` |
| GcovReader.Reader.ParseSummary | cov/src/reader.rs:450-498 | equal to `Decode.ParseSummary` |
| GcovReader.Reader.ReadRecordHeader | cov/src/reader.rs:273-290 | equal to `Decode.ReadRecordHeader`, and it returns a sub-reader over the record |
| GcovReader.Reader.ParseRecord | cov/src/reader.rs:237-255 | equal to `Decode.RecordEntry` |
| GcovReader.Reader.ParseBody | cov/src/reader.rs:237-255 | equal to `Decode.ParseRecordBody`: the body is parsed by the parser of its tag |
| GcovReader.Reader.Parse | cov/src/reader.rs:236-263 | equal to `Decode.RecordsFrom`, with the reader's type, version and stamp |
| GcovReader.Open | cov/src/reader.rs:197-221 | it fails exactly as `Decode.ReadHeader` does; otherwise the reader carries the header's type, byte order, version and stamp |
| GraphModel.EntryBlock | cov/src/graph.rs:881-883 | the entry block is the function's first block |
| GraphModel.ExitBlock | cov/src/graph.rs:886-893 | the exit block is the second block from 4.7 on and the last block before |
| GraphModel.OutEdges | cov/src/graph.rs:183-190 | these are exactly the arcs leaving the block, newest first as petgraph lists them |
| GraphModel.InEdges | cov/src/graph.rs:227-237 | these are exactly the arcs entering the block, newest first |
| GraphModel.LinePairsNumbers | cov/src/graph.rs:835-860 | iterating a block's lines yields one pair per line number, each a line number of the block |
| GraphBuild.CollectFromFails | cov/src/graph.rs:80-99 | collection fails, with `RecordWithoutFunction`, exactly when a blocks, arcs or lines record comes before any function |
| GraphBuild.CollectFromAnnounces | cov/src/graph.rs:80-99 | a collection that succeeds holds one identity per function record, in the order of the records |
| GraphBuild.CollectShape | cov/src/graph.rs:80-99 | the same, from the first record |
| GraphBuild.ArcEdgesShape | cov/src/graph.rs:692-715 | each arc record becomes one edge from its source block to its destination block, with the arc's flags |
| GraphBuild.ArcsEdges | cov/src/graph.rs:692-715 | all edges of a function stay inside the function's own blocks |
| GraphBuild.RealArcsExact | cov/src/graph.rs:700-714 | an arc is listed as counted exactly when it is not on the spanning tree |
| GraphBuild.RealArcsAppend | cov/src/graph.rs:700-714 | the counted arcs of two runs of arcs are those of each run, in order |
| GraphBuild.RealArcsIncreasing | cov/src/graph.rs:700-714 | the counted arcs are listed in increasing edge order, so no arc is listed twice |
| GraphBuild.LastRecordFor | cov/src/graph.rs:718-767 | the lines taken for a block come from the last lines record for it |
| GraphBuild.LinesMapLast | cov/src/graph.rs:718-767 | a block has lines exactly when some record names it, and they are the last such record's |
| GraphBuild.FloorKey | cov/src/graph.rs:718-767 | the block whose lines are inherited is the greatest block number not above the given one |
| GraphBuild.LastOfKind | cov/src/graph.rs:718-767 | the last file name and last line number of a run of lines are found at their last occurrences |
| GraphBuild.BlankBlocks | cov/src/graph.rs:670-689 | every new block carries its function, its index, its flags, no count and no lines |
| GraphBuild.WithLines | cov/src/graph.rs:718-767 | each block gets exactly the lines recorded for it, and nothing else changes |
| GraphBuild.AddFunctionShape | cov/src/graph.rs:642-667 | adding a function appends one function whose blocks and arcs are the new ones, keeping all earlier functions |
| GraphBuild.AddFunctionEdges | cov/src/graph.rs:642-667 | adding a function only appends edges |
| GraphBuild.AddFunctionArcs | cov/src/graph.rs:692-715 | an added edge has no count exactly when it is on the spanning tree |
| GraphBuild.AddFunctionWellFormed | cov/src/graph.rs:642-667 | adding a function keeps the graph well formed: blocks and arcs in range, and functions owning disjoint runs |
| GraphBuild.MergeGcno | cov/src/graph.rs:77-123 | it fails with `RecordWithoutFunction` exactly when collection fails, leaving the graph unchanged; the version is kept |
| GraphBuild.MergeIdentityWellFormed | cov/src/graph.rs:104-117 | merging one function identity keeps the graph well formed |
| GraphBuild.MergeIdentityDeduplicated | cov/src/graph.rs:104-117 | the gcno index never lists a function twice |
| GraphBuild.NewKeyDistinct | cov/src/graph.rs:104-117 | indexing a new identity to the next function number keeps the index one-to-one onto the functions |
| GraphBuild.MergeIdentityLinks | cov/src/graph.rs:104-117 | after merging, the gcda identity leads to the same function as the gcno identity |
| GraphBuild.MergeIdentityTwice | cov/src/graph.rs:106-110 | merging an identity already present adds no function, block or arc |
| GraphBuild.MergeAllKeeps | cov/src/graph.rs:104-118 | merging all identities keeps the graph well formed and deduplicated, and keeps its version |
| GraphBuild.FindFunction | cov/src/graph.rs:774-778 | a function is found exactly when its gcda identity is indexed; otherwise the error is `MissingFunction` |
| GraphBuild.GcnoThenGcda | cov/src/graph.rs:104-117 | a function merged from a gcno is found from the gcda that goes with it |
| GraphBuild.AddCounts | cov/src/graph.rs:785-800 | adding counts keeps every edge's ends and flags |
| GraphBuild.AddCountsAt | cov/src/graph.rs:785-800 | a counted edge gets the sum of the counts given for it; other edges keep their counts |
| GraphBuild.AddCountsCommute | cov/src/graph.rs:785-800 | the order in which gcda files are added does not matter |
| GraphBuild.AddArcCounts | cov/src/graph.rs:785-800 | it fails with `CountsMismatch` exactly when the number of counts differs from the function's counted arcs; only edges change |
| GraphBuild.GcdaFrom | cov/src/graph.rs:134-148 | merging a gcda keeps the graph well formed and changes only edge counts |
| GraphBuild.Merge | cov/src/graph.rs:53-68 | a version other than the graph's (once set) is `VersionMismatch` and changes nothing; otherwise the graph takes the version; a gcda never adds functions or blocks |
| GraphBuild.MergeAllVersionIsVersion | cov/src/graph.rs:104-118 | merging identities never changes the version |
| GraphBuild.MergeKeeps | cov/src/graph.rs:53-68 | merging any file keeps the graph well formed and deduplicated |
| GraphFlow.DestColor | cov/src/graph.rs:562-572 | a block turns green exactly when it has a count and one unknown arc, and red exactly when it has none of either |
| GraphFlow.LastUnknown | cov/src/graph.rs:525-558 | the arc solved is the newest arc on that side without a count; none exists exactly when all are known |
| GraphFlow.NoUnknownTotal | cov/src/graph.rs:502-513 | with no unknown arc on a side, the true total is the known total |
| GraphFlow.OneUnknownTotal | cov/src/graph.rs:525-558 | with one unknown arc, the true total is the known total plus that arc's true count |
| GraphFlow.SetCountTotals | cov/src/graph.rs:525-558 | giving an unknown arc a count moves it from unknown to known on both of its ends |
| GraphFlow.SetCountUnknownArcs | cov/src/graph.rs:525-558 | each solved arc lowers the number of unknown arcs by one, so propagation terminates |
| GraphFlow.NoUnknownArcs | cov/src/graph.rs:575-582 | no unknown arcs remain exactly when every arc has a count |
| GraphFlow.SideTruth | cov/src/graph.rs:417-457 | under flow conservation a block's true count is the true total of either side that is not the entry's or exit's sentinel |
| GraphFlow.RedTotalSound | cov/src/graph.rs:502-513 | a count that the red step derives for a block is the block's true count |
| GraphFlow.GreenArcSound | cov/src/graph.rs:525-558 | with a single unknown arc on a side, the block count minus the known total is that arc's true count |
| GraphFlow.InitialStatusOk | cov/src/graph.rs:467-492 | the initial status counts the unknown arcs and known totals of each side, with `usize::MAX` at the entry's incoming and exit's outgoing sides |
| GraphFlow.StatusAfterSet | cov/src/graph.rs:562-572 | updating both ends of a newly counted arc keeps the status accurate |
| GraphFlow.StatusAfterSolve | cov/src/graph.rs:525-572 | one green step keeps the status accurate |
| GraphFlow.GreenSolveKeeps | cov/src/graph.rs:525-572 | a green step keeps every assigned count true and removes exactly one unknown arc when it solves one |
| GraphFlow.GreenSolveSolves | cov/src/graph.rs:525-558 | the solved arc gets its true count |
| GraphFlow.RedCounts | cov/src/graph.rs:502-513 | the red pass changes only the blocks it colours |
| GraphFlow.RedCountsSolving | cov/src/graph.rs:502-513 | the red pass keeps every assigned count true |
| GraphMarks.FakeMarkedStart | cov/src/graph.rs:362-386 | before the loop over a block's arcs, no fake arc of it has been looked at |
| GraphMarks.FakeArcStep | cov/src/graph.rs:362-386 | each fake arc from a block is marked `NONLOCAL_RETURN` when the block is an entry block and `CALL_NON_RETURN` otherwise |
| GraphMarks.FakeBlockStep | cov/src/graph.rs:362-386 | a fake arc from an entry block marks its target `NONLOCAL_RETURN`; any other fake arc marks its source `CALL_SITE` |
| GraphMarks.CatchRoundCompose | cov/src/graph.rs:362-386 | marking fake arcs and then throw arcs from one block gives the bits of both passes |
| GraphMarks.CatchRound | cov/src/graph.rs:362-386 | after one more block's round, every arc and block holds the bits of the rounds for all blocks up to it |
| GraphMarks.FakeOutMeaning | cov/src/graph.rs:362-386 | a block has fake out-arcs exactly when some fake arc leaves it |
| GraphMarks.FakeArcToMeaning | cov/src/graph.rs:362-386 | the counted test finds a fake arc between two blocks exactly when one exists |
| GraphMarks.NonlocalMeaning | cov/src/graph.rs:362-386 | after the rounds for the first `k` blocks, a block is `NONLOCAL_RETURN` exactly when a fake arc from an entry block among them enters it |
| GraphMarks.NonFakeOutCounts | cov/src/graph.rs:389-411 | a block with one non-fake out-arc has no other non-fake out-arc |
| GraphMarks.UnconditionalSole | cov/src/graph.rs:389-411 | an unconditional arc is the only non-fake arc leaving its block |
| GraphMarks.TwoArcsConditional | cov/src/graph.rs:389-411 | two non-fake arcs leaving one block are both conditional |
| GraphMarks.AppliedAll | cov/src/graph.rs:389-411 | the list built marks exactly the unconditional arcs and exactly the call-return blocks |
| GraphMarks.EntryReachable | cov/src/graph.rs:585-605 | an entry block is reachable |
| GraphMarks.ReachStep | cov/src/graph.rs:585-605 | an arc followed from a reachable block reaches its target |
| GraphMarks.ClosedHoldsReachable | cov/src/graph.rs:585-605 | a visited set holding the entries and closed under arcs holds every reachable block |
| GraphMarks.SearchStart | cov/src/graph.rs:590-597 | the search starts with the entries on the stack and every block marked exceptional |
| GraphMarks.SearchVisit | cov/src/graph.rs:598-604 | visiting a block clears its exceptional mark and pushes its unvisited successors |
| GraphMarks.SearchDone | cov/src/graph.rs:598-604 | at the end, a block is marked exceptional exactly when it is unreachable from an entry |
| GraphMarks.ExceptionalAttrMeaning | cov/src/graph.rs:585-605 | the exceptional bit is set exactly for unreached blocks, and no other bit changes |
| GraphMarks.ExceptionalAgain | cov/src/graph.rs:157-166 | marking exceptional blocks twice gives the second result, so the second call in `analyze` decides |
| GraphMarks.FakeArcReaches | cov/src/graph.rs:585-605 | on a two-block graph joined only by a fake arc, following all arcs reaches the target block |
| GraphAnalyze.FlowFactsKept | cov/src/graph.rs:157-166 | the marking passes keep the facts that count propagation needs |
| GraphAnalyze.ReachableSame | cov/src/graph.rs:157-166 | marking flags does not change which blocks are reachable |
| GraphAnalyze.CatchKeepsUnconditional | cov/src/graph.rs:158-159 | marking catch blocks does not change which arcs are unconditional or fall-through |
| GraphAnalyze.CallReturnsAfterCatch | cov/src/graph.rs:158-159 | the call-return blocks seen by the second pass are those the catch pass marked |
| GraphAnalyze.MarkedArcs | cov/src/graph.rs:158-159 | after both marking passes, every arc carries exactly its catch and unconditional bits |
| GraphAnalyze.MarkedBlocks | cov/src/graph.rs:158-159 | after both marking passes, every block carries exactly its catch and call-return bits |
| GraphAnalyze.MarksAttrsOnly | cov/src/graph.rs:158-160 | the marking passes change only flags |
| GraphAnalyze.AnalyzedArcs | cov/src/graph.rs:157-166 | after analysis, every arc carries the marking passes' bits |
| GraphAnalyze.AnalyzedBlocks | cov/src/graph.rs:157-166 | after analysis, every block carries the marking bits, and the exceptional bit exactly when no walk the chosen filter allows reaches it from an entry block: every arc for `analyze` as written, non-fake non-throwing arcs for the intended filter |
| GraphAnalyze.AnalyzedCounts | cov/src/graph.rs:157-166 | after analysis, every count is the true one and every measured count is kept |
| CovGraph.LastLine | cov/src/graph.rs:718-767 | the lines inherited by a block are the last file name and the last line number of the previous record |
| CovGraph.BlockNumberToLines | cov/src/graph.rs:718-767 | the map from block number to lines is built as `GraphBuild.LinesMap`, the last record winning |
| CovGraph.Graph.constructor | cov/src/graph.rs:36-38 | a new graph is empty, with `INVALID_VERSION` |
| CovGraph.Graph.Merge | cov/src/graph.rs:53-68 | the new graph and the error are those of `GraphBuild.Merge` |
| CovGraph.Graph.MergeGcno | cov/src/graph.rs:77-123 | the new graph and the error are those of `GraphBuild.MergeGcno` |
| CovGraph.Graph.AddFunction | cov/src/graph.rs:642-667 | the new graph is `GraphBuild.AddFunction`, and the new index is the old number of functions |
| CovGraph.Graph.AddBlocks | cov/src/graph.rs:670-689 | blank blocks are appended and the function records their positions |
| CovGraph.Graph.AddArcs | cov/src/graph.rs:692-715 | the record's edges are appended and the function records its counted arcs |
| CovGraph.Graph.AddLines | cov/src/graph.rs:718-767 | the blocks become `CovGraph.GiveLines` of the function's block positions: each listed block gets the lines recorded for its block number; nothing else in the graph changes |
| CovGraph.GiveLinesGiven | cov/src/graph.rs:718-767 | after giving lines, every listed block holds the lines of its block number and every other block is unchanged |
| CovGraph.GiveLinesAppended | cov/src/graph.rs:718-767 | giving lines to the first `j` of a run of appended blocks touches only those blocks |
| CovGraph.AddedBlocksGetLines | cov/src/graph.rs:642-689 | giving lines to a function's freshly added blocks fills exactly those blocks and leaves the earlier blocks alone |
| CovGraph.AppendBlankBlocks | cov/src/graph.rs:670-689 | the blocks gain one blank block per flag, numbered from the record's index, and the positions are the new slots in order |
| CovGraph.AppendArcEdges | cov/src/graph.rs:692-715 | one arc record's edges are appended and the function's arc list grows by exactly the positions of the new edges that are not on the spanning tree |
| CovGraph.AppendArcRecordEdges | cov/src/graph.rs:692-715 | all arc records' edges are appended in record order, and the function's arc list is exactly the positions of the counted ones |
| CovGraph.AddCountsToArcs | cov/src/graph.rs:785-800 | each listed arc's count is added in turn, as `GraphBuild.AddCounts` states |
| CovGraph.CollectFunctions | cov/src/graph.rs:80-99 | the functions announced in a gcno are collected with their checksums in file order, as `GraphBuild.Collect` states, failing when a record comes before any function |
| CovGraph.Graph.MergeIdentities | cov/src/graph.rs:104-117 | the graph becomes `GraphBuild.MergeAll` of the collected functions: each known identity is reused and each new one is indexed to a new function |
| CovGraph.TallyArcs | cov/src/graph.rs:470-481 | every side of every block holds the sum of its arcs' known counts and the number of its arcs without one |
| CovGraph.MarkSentinels | cov/src/graph.rs:483-489 | exactly the entry blocks' incoming sides and the exit blocks' outgoing sides get the never-solved count; other sides keep their tallies |
| CovGraph.Graph.PropagateRound | cov/src/graph.rs:427-456 | one red pass and one green pass keep every assigned count equal to the true flow; the loop goes on exactly when a block was queued, and a round that assigns no count leaves nothing queued |
| CovGraph.Graph.FindFunction | cov/src/graph.rs:774-778 | equal to `GraphBuild.FindFunction` |
| CovGraph.Graph.AddArcCounts | cov/src/graph.rs:785-800 | on a count mismatch the graph is unchanged; otherwise it becomes `GraphBuild.AddArcCounts` |
| CovGraph.Graph.MergeGcda | cov/src/graph.rs:134-148 | the new graph and the error are those of `GraphBuild.GcdaFrom` |
| CovGraph.Graph.CreateBlockStatus | cov/src/graph.rs:467-492 | each side's total is its known total, and its invalid count is its unknown arcs, or `usize::MAX` at the entry's incoming and exit's outgoing sides |
| CovGraph.Graph.ProcessRedBlock | cov/src/graph.rs:502-513 | a block turns green and takes a count exactly when one side is fully known; otherwise nothing changes |
| CovGraph.Graph.FirstUnknownArc | cov/src/graph.rs:525-558 | the arc found is `GraphFlow.LastUnknown` |
| CovGraph.Graph.ProcessGreenBlock | cov/src/graph.rs:525-558 | nothing happens unless the side has exactly one unknown arc; then that arc gets the remaining count |
| CovGraph.Graph.PropagateCounts | cov/src/graph.rs:417-457 | every count that propagation assigns equals the true flow, and every measured count is kept |
| CovGraph.Graph.MarkFakeArcs | cov/src/graph.rs:362-386 | it marks the fake arcs of one block and reports whether the block throws |
| CovGraph.Graph.MarkThrowArcs | cov/src/graph.rs:362-386 | it marks the throw arcs of one block and changes nothing else |
| CovGraph.Graph.MarkCatchFrom | cov/src/graph.rs:362-386 | one block's round of catch marking |
| CovGraph.Graph.MarkCatchBlocks | cov/src/graph.rs:362-386 | every arc and block gets exactly its catch bits; ends and counts stay |
| CovGraph.Graph.SoleNonFakeArc | cov/src/graph.rs:389-411 | an arc is found exactly when the block has one non-fake out-arc, and that arc is unconditional |
| CovGraph.Graph.UnconditionalArcs | cov/src/graph.rs:389-411 | the list holds exactly the unconditional arcs |
| CovGraph.Graph.ApplyUnconditional | cov/src/graph.rs:389-411 | applying the list marks exactly the unconditional arcs and the call-return blocks |
| CovGraph.Graph.MarkUnconditionalArcs | cov/src/graph.rs:389-411 | exactly the unconditional arcs and the call-return blocks are marked |
| CovGraph.Graph.Successors | cov/src/graph.rs:598-604 | every followed successor is visited or pushed, and all pushed blocks are reachable |
| CovGraph.Graph.InitialMarks | cov/src/graph.rs:590-597 | every block is marked exceptional, and exactly the entry blocks are on the stack |
| CovGraph.Graph.Search | cov/src/graph.rs:598-604 | each block is marked exceptional exactly when it is unreachable |
| CovGraph.Graph.MarkExceptional | cov/src/graph.rs:585-605 | the exceptional bit is set exactly on unreachable blocks, for the chosen arc filter |
| CovGraph.Graph.MarkExceptionalBlocksAsWritten | cov/src/graph.rs:585-605 | as written: reachability follows every arc, fake and throw arcs included |
| CovGraph.Graph.MarkExceptionalBlocks | cov/src/graph.rs:585-605 | as intended: reachability follows only non-fake, non-throw arcs |
| CovGraph.Graph.VerifyCounts | cov/src/graph.rs:575-582 | the check passes exactly when every block and arc has a count |
| CovGraph.Graph.Analyze | cov/src/graph.rs:157-166 | after analysis, every count is true, measured counts are kept, and arcs and blocks carry exactly the marking bits; `followAll` true runs `mark_exceptional_blocks` as written (the program's behaviour), false runs the corrected filter |
| CovGraph.Graph.Report | cov/src/graph.rs:169-195 | the report is `GraphReport.ReportOf` of the graph |
| GraphReport.Valued | cov/src/graph.rs:835-860 | each file-and-line pair keeps its file and its line number |
| GraphReport.LastLine | cov/src/graph.rs:257-270 | the line that a block's branches attach to is one of its lines, and it is absent only for a block without lines |
| GraphReport.ReportArc | cov/src/graph.rs:273-291 | an unconditional arc that is not a call without return gives no branch; otherwise the branch carries the arc's count, its flags and the first line of the target block (unknown and 0 if it has none) |
| GraphReport.ArcBranchesSkip | cov/src/graph.rs:183-190 | the branches of a list of arcs are exactly the branches of its arcs |
| GraphReport.BlockBranchesSkip | cov/src/graph.rs:183-190 | a block's branches are exactly the reported arcs that leave it, except arcs into its function's exit block whose count is 0 |
| GraphReport.ExecutedCountCounts | cov/src/graph.rs:203-204 | `blocks_executed` is the number of positions of the function's blocks whose count is positive |
| GraphReport.FunctionArcs | cov/src/graph.rs:209-212 | the arcs walked are exactly the graph's arcs whose source is one of the function's blocks |
| GraphReport.FunctionArcsDistinct | cov/src/graph.rs:209-212 | when the blocks are listed once each, so is every arc walked |
| GraphReport.BranchTallyCounts | cov/src/graph.rs:209-223 | the fold counts the arcs that are neither unconditional nor fake, those of them whose source block ran, and those taken |
| GraphReport.FunctionReport | cov/src/graph.rs:198-254 | the record carries the function's name and line; entry count is the entry block's; exit count is the exit block's minus what the fake arcs into it carry, and when those carry more it is that difference wrapped by 2^64 below 2^64, as the release build's `u64` subtraction gives; executed ≤ blocks and executed, taken ≤ branches |
| GraphReport.WrappingSub | cov/src/graph.rs:227-237 | `a -= b` on `u64`: the difference when `b ≤ a`, otherwise the difference plus 2^64 (for `b ≤ a + 2^64`), below 2^64 and congruent to `a - b` modulo 2^64 |
| GraphReport.FunctionReportTallies | cov/src/graph.rs:203-223 | `blocks_executed` counts the blocks that ran; `branches_count`, `branches_executed` and `branches_taken` count the function's branch arcs, those whose source ran, and those taken |
| GraphReport.ClaimLineAt | cov/src/graph.rs:261-267 | claiming a line raises its count to the maximum and ORs the flags, and leaves every other line alone |
| GraphReport.ClaimLinesAt | cov/src/graph.rs:257-270 | claiming all of a block's lines touches exactly those lines |
| GraphReport.PushAllAt | cov/src/graph.rs:172-174 | pushing function records appends them to their files in order and changes no line |
| GraphReport.FunctionEntries | cov/src/graph.rs:172-174 | one record per function, in order |
| GraphReport.ContributeAt | cov/src/graph.rs:176-192 | one block's contribution touches only its own lines |
| GraphReport.ContributeAllAt | cov/src/graph.rs:176-192 | a line is present exactly when some block claims it; its count is the maximum claim, its flags the OR, its branches those of blocks ending on it |
| GraphReport.MaxCountIsMax | cov/src/graph.rs:261-267 | the line count is the greatest count among the blocks claiming the line, and some block attains it |
| GraphReport.Contributions | cov/src/graph.rs:176-192 | one contribution per block, in order |
| GraphReport.PushNext | cov/src/graph.rs:172-174 | each loop step pushes the next function's record |
| GraphReport.ContributeStep | cov/src/graph.rs:176-192 | each loop step adds the next block's lines and its branches |
| GraphReport.ReportIs | cov/src/graph.rs:169-195 | every line of the report is what the blocks' contributions make it |
| GraphReport.ClaimsOfBlocks | cov/src/graph.rs:176-192 | a line is claimed exactly when some block lists it, and the count is the maximum over those blocks |
| GraphReport.ReportLinesClaimed | cov/src/graph.rs:169-195 | a report line exists exactly when some block lists that file and line |
| GraphReport.ReportLineCount | cov/src/graph.rs:169-195 | a report line's count is at least the count of each block listing it, and equal to one of them |
| GraphReport.ReportBlock | cov/src/graph.rs:257-270 | the block's lines are claimed, and its last line is returned |
| GraphReport.ReportFunctions | cov/src/graph.rs:172-174 | the loop pushes every function's record in order |
| GraphReport.ReportBlocks | cov/src/graph.rs:176-192 | the loop adds every block's contribution in order |
| GraphReport.ReportBranches | cov/src/graph.rs:183-190 | the branches collected for a block are exactly `GraphReport.BlockBranches`, newest arc first |
| GraphReport.ArcsToBranches | cov/src/graph.rs:183-190 | the loop over a list of out-arcs collects exactly `GraphReport.ArcBranches` of that list |
| Report.Tuples | cov/src/report.rs:45-57 | one summary tuple per function |
| Report.Summary | cov/src/report.rs:45-57 | the file summary counts lines and covered lines (covered ≤ lines), functions and called ones (called ≤ functions), and the sums of the branch fields |
| Report.CoveredWithinLines | cov/src/report.rs:45-57 | covered lines never exceed the lines |
| Report.SummaryTotals | cov/src/report.rs:47-56 | folding the tuples with `tuple_4_add` gives the sums of each field |
| Utils.FillWithOnes | cov/src/utils.rs:33-43 | exactly the bits below the length are set; with a whole number of words, every word is all ones |
| Utils.FillBit | cov/src/utils.rs:33-43 | the last word's mask sets exactly the bits below the length |
| Utils.LowMaskBits | cov/src/utils.rs:40-41 | `0x7fff_ffff >> (31 - k)` has exactly its `k` lowest bits set |
| Utils.Fold3Componentwise | cov/src/utils.rs:46-48 | folding with `tuple_3_add` sums each component separately |
| Utils.Fold4Componentwise | cov/src/utils.rs:51-53 | folding with `tuple_4_add` sums each component separately |
| Utils.SumOfBitsBounded | cov/src/report.rs:45-57 | a sum of 0/1 values is at most their number |
| Utils.OrDefault | cov/src/utils.rs:18-30 | the key is present afterwards with its old value, or the default if absent; no other key changes |
| Utils.OrDefaultIdempotent | cov/src/utils.rs:18-30 | doing it twice is doing it once |
| ArgParse.Normalize | cargo-cov/src/argparse.rs:122-157 | the loop computes `NormAll` over the arguments: forwarded arguments and the special map |
| ArgParse.NormAllAppend | cargo-cov/src/argparse.rs:127-154 | normalising two runs of arguments is normalising one and then the other |
| ArgParse.AfterDoubleMinusForwarded | cargo-cov/src/argparse.rs:128 | after `--` every argument is forwarded as is |
| ArgParse.DoubleMinusForwardsRest | cargo-cov/src/argparse.rs:135-138 | `--` is itself forwarded, and so is everything after it, and no special is taken |
| ArgParse.SpecialWithValue | cargo-cov/src/argparse.rs:129-141 | `--name value` for a special name stores the value and forwards nothing |
| ArgParse.SpecialWithEquals | cargo-cov/src/argparse.rs:142-147 | `--name=value` for a special name stores the value and forwards nothing |
| ArgParse.LaterSpecialWins | cargo-cov/src/argparse.rs:129-147 | a special given twice keeps the later value |
| ArgParse.NormalizeKeepsOrder | cargo-cov/src/argparse.rs:122-157 | the forwarded arguments are a subsequence of the input |
| ArgParse.OrdinaryForwarded | cargo-cov/src/argparse.rs:134-153 | with no option pending and before `--`, an argument that is not `--`, not `--NAME` or `--NAME=VALUE` for a special NAME, is pushed to the forwarded ones and nothing else changes |
| ArgParse.OrdinaryArgsForwarded | cargo-cov/src/argparse.rs:122-157 | a run of such arguments is forwarded whole and in order, leaving the special values alone |
| ArgParse.NormalizedGrows | cargo-cov/src/argparse.rs:122-157 | later arguments only add to the forwarded ones |
| ArgParse.OrdinaryKept | cargo-cov/src/argparse.rs:122-157 | such an argument anywhere in the input is forwarded, right after the arguments forwarded before it |
| ArgParse.IsRustcCompilingLocalCrate | cargo-cov/src/argparse.rs:87-110 | the loop computes `LocalCrateFrom` over the arguments |
| ArgParse.NoPositionalNotLocal | cargo-cov/src/argparse.rs:87-110 | without a positional argument the crate is not local |
| ArgParse.FirstPositionalDecides | cargo-cov/src/argparse.rs:101-107 | the first positional argument decides, by whether it lies under the workspace |
| ArgParse.DoubleMinusNotLocal | cargo-cov/src/argparse.rs:99-100 | a `--` met before the crate path makes the crate not local |
| ArgParse.FlagValueSkipped | cargo-cov/src/argparse.rs:90-98 | the value after a flag that takes one is never taken for the crate path |
| SourcePath.FromStr | cargo-cov/src/sourcepath.rs:101-111 | exactly the six names parse, each to a non-empty subset of all kinds; the rest are `UnsupportedSourceTypeName` |
| SourcePath.FromMultiStr | cargo-cov/src/sourcepath.rs:76-85 | the list parses exactly when every name does, to the union of their kinds |
| SourcePath.UnionOfNames | cargo-cov/src/sourcepath.rs:76-85 | the union holds each name's kinds and nothing outside all kinds |
| SourcePath.Prefix | cargo-cov/src/sourcepath.rs:88-95 | local paths show `.`, the standard library `«rust»`, crates `«crates»`, others nothing |
| SourcePath.IdentifySourcePath | cargo-cov/src/sourcepath.rs:139-157 | paths under the workspace are local and strip it; registry paths strip the registry and the crate directory; `<… macros>` are macros; the three standard-library roots are stripped; everything else is unknown; the length never exceeds the path |
| SourcePath.MacosStandardLibrary | cargo-cov/src/sourcepath.rs:125-135 | the documented macOS path is the standard library, and strips to `src/libstd/lib.rs` |
| Template.FileNameFilter | cargo-cov/src/template.rs:49-53 | a string gives its last component; anything else is "expecting path" |
| Template.SimplifySourcePath | cargo-cov/src/template.rs:55-68 | the path is rewritten to its kind's prefix, a separator and the kept tail; macro paths stay; the two error messages match their cases |
| Template.SimplifyLocal | cargo-cov/src/template.rs:55-68 | a workspace file is shown as `./` and its relative path |
| Template.SimplifyRegistryCrate | cargo-cov/src/template.rs:55-68 | a registry file is shown under `«crates»/` without the crate directory |
| Template.RegistryCrateIdentified | cargo-cov/src/sourcepath.rs:139-157 | a registry path outside the workspace is identified as a crate file, with the registry and crate directory as the part to strip |
| Template.SimplifyUnknown | cargo-cov/src/template.rs:55-68 | an unknown path is shown whole behind `/` |
| Template.Coalesce | cargo-cov/src/template.rs:70-76 | a non-null value passes; null becomes the default, whose absence is an error |
| Template.CoalesceIdempotent | cargo-cov/src/template.rs:70-76 | applying it twice is applying it once |
| Lookup.Architecture | cargo-cov/src/lookup.rs:61-66 | the architecture is the target's part before its first `-` |
| Lookup.TargetPart | cargo-cov/src/lookup.rs:53-63 | a whole-target match gives one of the listed parts |
| Lookup.ArchPart | cargo-cov/src/lookup.rs:64-89 | an architecture match gives one of the listed parts |
| Lookup.ProfilerNamePart | cargo-cov/src/lookup.rs:52-93 | the whole-target table wins, then the architecture table; `NoDefaultProfilerLibrary` exactly when both fail |
| Lookup.ArchitectureDecides | cargo-cov/src/lookup.rs:64-89 | any x86_64 target outside the table gets `-x86_64` |
| Lookup.LibraryNames | cargo-cov/src/lookup.rs:108-115 | the library name is `clang_rt.profile` plus the part; the file is it plus `.lib` on MSVC, else `lib` … `.a` |
| Lookup.ProfilerLibrary | cargo-cov/src/lookup.rs:106-115 | it fails exactly when no name part exists; otherwise the names are `LibraryNames` |
| Lookup.SplitProfilerLib | cargo-cov/src/lookup.rs:153-162 | it fails with `InvalidProfilerLibraryPath` exactly when the path has no file stem |
| Lookup.SplitLibraryPath | cargo-cov/src/lookup.rs:153-162 | a path splits into its directory and its stem, less `lib` for a `.a` file |
| Lookup.SplitUsrLibExample | cargo-cov/src/lookup.rs:166-169 | `/usr/lib/libfoo.1.a` splits into `/usr/lib` and `foo.1` |
| Lookup.ImportLibrarySplits | cargo-cov/src/lookup.rs:153-162 | an MSVC library file splits back into its directory and name |
| Lookup.StaticLibrarySplits | cargo-cov/src/lookup.rs:153-162 | a static library file splits back into its directory and name |
| Lookup.LibraryNamesSplit | cargo-cov/src/lookup.rs:106-162 | splitting the file name built for a name part gives back the library name |
| Lookup.SplitFindsLibraryName | cargo-cov/src/lookup.rs:106-162 | splitting the profiler library found for a target gives its directory and library name |
| Lookup.SplitDefaultUnreachable | cargo-cov/src/lookup.rs:160 | whenever the split succeeds the path has a parent, so the `.` default is never used |
| Lookup.SplitBareName | cargo-cov/src/lookup.rs:153-162 | as written: a bare `libfoo.a` splits into the empty directory and `foo` |
| Lookup.SplitProfilerLibIntended | cargo-cov/src/lookup.rs:153-162 | as intended: the directory is never empty, and the library name is the same |
| Lookup.SplitBareNameIntended | cargo-cov/src/lookup.rs:160 | as intended: a bare `libfoo.a` splits into `.` and `foo` |
| Paths.Split | cargo-cov/src/argparse.rs:106-107 | a path splits into at least one piece, none holding a separator, and the pieces joined with separators give the path back |
| Paths.FileName | cargo-cov/src/lookup.rs:154 | a file name is non-empty and holds no separator |
| Paths.Parent | cargo-cov/src/lookup.rs:160 | a path has no parent exactly when it is empty or the root |
| Paths.SplitAtDot | cargo-cov/src/lookup.rs:154-155 | a name splits at its last dot into a non-empty stem and an extension without dots |
| Paths.ParentJoinsFileName | cargo-cov/src/lookup.rs:153-162 | joining a path's parent and file name gives the path back |
| Text.Find | cargo-cov/src/sourcepath.rs:144 | the index is the first occurrence of the character, or there is none |
| Text.RFind | cargo-cov/src/template.rs:51 | the index is the last occurrence of the character, or there is none |
| Text.FindAfter | cargo-cov/src/sourcepath.rs:143-144 | searching after a prefix without the character finds the same occurrence, shifted |

## Left out

- Reading files from disk (`Gcov::open`) is left out. The stream is an in-memory byte sequence given to `GcovReader.Open`.
- Error locations (`Location::wrap`, with cursor and file) are left out. They decorate an error without changing which error is raised. `Location` is not part of this model, so it is assumed to keep `is_eof`.
- Serde serialisation, the deserializer and `write_dot` are left out, as output formatting.
- The `DuplicatedFunction` error is documented on `merge_gcno` but never raised. The code deduplicates instead, and the model follows the code.
- Counts are unbounded naturals. The u64 additions in `add_arc_counts` and in the flow totals are not modelled as wrapping.
- GraphReport.FunctionReport: follows a release build, where the u64 subtraction at graph.rs:227 wraps when the fake arcs into the exit block carry more than its count. A debug build panics there instead; that panic is not modelled.
- CovGraph.Graph.PropagateCounts: proves that every count it assigns equals the true flow. It does not prove that every count gets assigned. That needs a spanning-tree property of gcc's instrumentation, which the files do not guarantee.
- CovGraph.Graph.PropagateCounts: requires counts that agree with some flow obeying conservation (the ghost `truth`). The source takes any gcda. Counters from threaded programs are not updated atomically, and a file may be corrupt. On inconsistent counts, the u64 subtraction at graph.rs:552 wraps in release builds and panics in debug builds. Neither outcome is modelled.
- CovGraph.Graph.PropagateCounts: requires every function to have its entry and exit blocks (`GraphFlow.AllHaveExit`). `entry_block` and `exit_block` panic in the source on a function with too few blocks.
- CovGraph.Graph.Analyze: leaves out `verify_counts`, which runs only in debug builds and only asserts. It is modelled separately as `CovGraph.Graph.VerifyCounts`.
- CovGraph.Graph.Analyze: its counts are proved sound only for counts consistent with a conserved flow, as for `PropagateCounts`. Inconsistent input, which wraps or panics at graph.rs:552, is not modelled.
- CovGraph.Graph.Analyze: requires `GraphFlow.AllHaveExit`. The source panics in `entry_block`/`exit_block` on a function with too few blocks.
- CovGraph.Graph.CreateBlockStatus: requires `GraphFlow.AllHaveExit`. The source panics in `entry_block`/`exit_block` on a function with too few blocks.
- CovGraph.Graph.Report: requires `GraphFlow.AllHaveExit`. The source panics in `entry_block`/`exit_block` on a function with too few blocks. Exit counts smaller than their fake in-arcs wrap, as in a release build (see `GraphReport.FunctionReport`); the debug-build panic is not modelled.
- CovGraph.Graph.Merge: requires `GraphBuild.MergeFits`. The source panics on the excluded inputs. An arc naming a block index past the function's blocks panics in `FunctionInfo::node`. An ArcCounts record before any Function record in a gcda indexes `functions[usize::MAX]`.
- CovGraph.Graph.MergeGcno: requires `GraphBuild.GcnoFits`. The source panics in `FunctionInfo::node` on an arc naming a block index past the function's blocks. The same holds for `CovGraph.Graph.MergeIdentities`, `CovGraph.Graph.AddFunction` and `CovGraph.Graph.AddArcs` (`GraphBuild.IdentityFits`, `GraphBuild.ArcsFit`).
- CovGraph.Graph.MergeGcda: requires `GraphBuild.CountsAttached`. The source panics when an ArcCounts record comes before any Function record, because it indexes `functions[usize::MAX]`.
- Intern.Interner.Get: requires a symbol the interner holds. The source panics (`expect("valid symbol")`, intern.rs:211) on any other symbol, which only a deserialised or hand-made symbol can be.
- `HistogramBucket::default` (raw.rs:586-594: `num` 0, `min` `u64::MAX`, `sum` 0) is not modelled. `parse_histogram` builds every bucket from the words it reads and never uses the default.
- The petgraph arena is modelled as sequences of blocks and edges. Indices are positions, and an edge list in iteration order is newest first.
- The `FixedBitSet` work lists of `propagate_counts` are sequences of booleans. `Utils.FillWithOnes` models the bit-level fill separately.
- Report line numbers are naturals converted from the 32-bit line numbers. Floating-point fields are not part of the report model.
- Non-UTF-8 command-line arguments (`OsStr` that `to_str` rejects) are left out. Arguments are strings.
- Paths are `/`-separated strings. Windows paths and `Path`'s normalisation of `.` components are left out.
- String lengths count characters, not UTF-8 bytes. `identify_source_path` returns a byte length; the two agree on ASCII paths.
- The cargo registry directory (`REGISTRY_PATH`, computed from the environment) is a parameter.
- `find_native_profiler_lib`'s glob search over the library directories, `find_cargo` and `find_rustc` are left out, as file-system and process I/O. `Lookup.ProfilerLibrary` models the names it searches for.
- The template filters `md5`, `clamp`, `to_fixed`, `demangle_rust` and `debug` are left out, as hashing, floating point and symbol demangling.
- `update_from_clap` is left out, as it reads clap's parsed matches.
- A special argument left without a value at the end of the command line is dropped, as in the source (`current_name` is never flushed).
- cargo.rs, shim.rs, ui.rs, main.rs, build.rs and the shim binary are left out, as process orchestration.

## Findings

| source | as written | input that shows it | evidently intended | confidence | as-written member | corrected member |
|---|---|---|---|---|---|---|
| cov/src/graph.rs:585-605 | `mark_exceptional_blocks` builds the arc filter `is_non_exc_edge`, but the search walks `&self.graph`, so fake and throw arcs are followed too | two blocks joined only by a fake arc: the target is reached and not marked exceptional | reachability only over non-fake, non-throw arcs, so blocks reached only by exceptional arcs are marked | not executed | CovGraph.Graph.MarkExceptionalBlocksAsWritten (exhibited by GraphMarks.FakeArcReaches) | CovGraph.Graph.MarkExceptionalBlocks |
| cargo-cov/src/lookup.rs:160 | `profiler.parent().unwrap_or_else(\|\| Path::new("."))`: for a bare file name `parent()` gives an empty path, not `None` | `libfoo.a` splits into `""` and `foo`, and `-L ""` names no directory | the `.` default applies to a bare file name | not executed | Lookup.SplitBareName | Lookup.SplitProfilerLibIntended (with Lookup.SplitBareNameIntended) |
