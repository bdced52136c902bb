# unstrip: a verified model of the recovery core

unstrip rebuilds symbols from a stripped Go binary. This project models the
decoders, writers, graph walks and scanners under its reporting layers, and
proves what they promise. Each module follows one source file:

| file | models |
|---|---|
| `Varint.dfy`, `PcValue.dfy` | varints, zig-zag and the delta-coded pc-value streams |
| `Pclntab.dfy`, `PclntabWriter.dfy` | the pclntab header, the function table, lookup by pc, the whole-table walk; a pclntab as the linker writes it, and what the reader makes of it |
| `InlineTree.dfy`, `InlineWriter.dfy`, `InlineCap.dfy`, `InlineGraph.dfy` | a function's inline tree and the per-pc walk through it; trees as the linker writes them; a binary on which the walk leaves the tree; the inlined call graph |
| `GoBin.dfy`, `AddressMap.dfy` | address translation, section clamping, pcHeader discovery |
| `Moduledata.dfy` | the four moduledata layouts and the search for the record |
| `TypeGraph.dfy` | the type worklist closure and the linear scan |
| `ElfRewrite.dfy`, `ElfReader.dfy`, `PeRewrite.dfy`, `PeHeaders.dfy` | the symbol-table writers, independent readers of their output, PE headers as written |
| `Xrefs.dfy`, `CallScan.dfy`, `DataXref.dfy` | bounded call-graph search, call scanners, data reference scanners |
| `Diff.dfy`, `Garble.dfy`, `StructLayout.dfy` | build comparison, name dictionaries, emitted C structs |
| `Wrappers.dfy`, `Bytes.dfy`, `WordList.dfy`, `Bits.dfy`, `FileImage.dfy` | results, machine integers and words, records of words, bitwise operations, file slices |

Integers are unbounded; each place where the program wraps, saturates, truncates
or reinterprets a number goes through `Wrap32`, `Wrap64`, `SatAdd64`, `AsI32`,
`AsI64`, `ToLe` or `ToBe`. Bitwise operators are functions on naturals
(`Bits.And`, `Or`, `Xor`), and the proofs derive the arithmetic from them. Loops
of the program are methods with loops; each is proved against a function or a
property, and the theorems are about that function. Files are byte sequences,
names byte sequences without encoding.

Standards: the varint is Unsigned LEB128 (section 7.6 of DWARF version 5). The
ELF reader follows chapter 4 of the System V ABI ("ELF Header", "Section
Header", "String Table", "Symbol Table"). The COFF reader follows sections 5.4.1
and 5.6 of the Microsoft PE/COFF Specification, revision 8, and `PeHeaders` its
sections 3.3, 3.4 and 4. `ElfReader.SmallestElf`
and `PeRewrite.SmallestPe` exhibit files meeting the round trips' conditions with one
function.

## Where the code differs from what it says

The model follows the code; each point names its lemma, where there is one.

- An empty run list written as a bare terminator is not self-terminating: the
  zero is read as the first value delta. It reads as -1 at every offset exactly when the
  bytes behind it are silent (`PcValue.EmptyListReads`), which for climbing pcs means
  that no pc delta and whole record follow (`PcValue.EmptyListExact`);
  `PcValue.EmptyListRunsOn` exhibits bytes that are read.
- `lookup_inline` follows inline indexes up to and including 65,536, while the
  decoder keeps 65,536 records. The walk stays in the decoded tree for every pc of a
  function exactly when no offset of it is indexed 65,536 or that record is unmapped
  (`InlineTree.LookupStaysInTree`); `InlineCap.CapLeavesOneOut` gives a binary with a
  pclntab that parses, and a function in it, for which it does not.
- `truncated` is documented as stopping before the depth bound was exhausted; it
  is also set when the last node in reach was the one that filled the bound, and
  a bound of zero still records one node. With nothing missing it is set exactly when
  the names within depth just fill the bound (`Xrefs.BfsExact`,
  `Xrefs.TruncatedWithNothingMissing`).
- The PE writer patches eight COFF header bytes; for some small `e_lfanew` they overlap
  the pointer at offset 60 itself. The header is then found where it was exactly when
  every pointer byte covered already has the value written there
  (`PeRewrite.HeaderFound`), and on that condition the round trip holds. At 48 the
  header is never found (`PeRewrite.PointerOverwritten`, `PeRewrite.OverlappingPe`); at
  44 it is for 44 functions and no other number (`PeRewrite.CountIsPointer`).
- The PE writer's comment counts a trailing NUL among the eight bytes of an inline
  name; the code also writes names of exactly eight bytes inline, and a reader
  recovers them (`PeRewrite.NameFieldRoundTrip`).
- With `e_shstrndx` beyond the section header table the ELF writer indexes out of
  range and panics; the model gives that case an error of its own. (No lemma.)
- Four additions can wrap in a build without overflow checks: an offset in the last
  bytes of the address space plus the word size in `read_u32`, a Pre118 `_func` offset
  plus its name field in `functions_with_offsets`, and in the ELF
  writer the offsets of the section header table and of the name table plus their
  sizes. The wrapped sum passes the bounds check and the slice panics, except that some
  Pre118 offsets read a name offset from the header. The model adds exactly and gives
  no value or an error. (No lemma.)
- The ELF writer stores the section count as it is. The ABI reserves the values from
  0xff00 up and has an escape for such counts, which the writer lacks; the round trip
  is stated below that. The count itself is stored whole up to 65,535
  (`ElfReader.CountStored`).
- An empty name does not read back from a COFF record, and a name containing NUL
  neither from there (`PeRewrite.NameFieldRoundTrip`) nor from the ELF table
  (`ElfReader.SymbolsRoundTrip`).
- The call-site scanner takes an itab header to be 40 bytes, the itab reader 24,
  so the slot the scanner calls k is the reader's k + 2 (`CallScan.SlotsDisagree`).
- Both data reference scanners look only where seven bytes are left, so a six-byte
  indirect call that starts in the last six bytes is never seen, and any other is
  exactly when the sweep stops at it (`DataXref.CallReported`).
- The tail member brings the last offset of an emitted C struct to the Go size,
  but `sizeof` rounds up whenever that is no multiple of the strictest alignment
  (`StructLayout.OddSizeGrows`, `StructLayout.SixBytesTakeEight`).
- The entry value is reported for a table whose first pc delta is missing, where the
  walk gives -1 (`PcValue.FirstAgrees`).

## Model

| member | source | states |
|---|---|---|
| `Varint.ReadVarint` | src/pclntab/mod.rs:893-910 | the shift-and-or loop reads an Unsigned LEB128 number of at most ten bytes, truncated to 64 bits, and how many bytes it took |
| `Varint.DecodeEncode` | src/pclntab/mod.rs:893-910 | every 64-bit value survives encoding, whatever bytes follow it |
| `Varint.ZigZagValue` | src/pclntab/mod.rs:889-891 | the shift/xor/negate expression is the zig-zag number |
| `Varint.ZigZagInverse` | src/inline/mod.rs:286-288 | zig-zag is a bijection between all 64-bit words and all signed 64-bit numbers, and zero is zero |
| `PcValue.PcvalueAt` | src/pclntab/mod.rs:835-869 | the loop returns the value of the first state of the stream whose pc is above the offset, else -1 |
| `PcValue.MaxPcvalue` | src/inline/mod.rs:247-284 | the second walker, written apart, returns the maximum over the same states up to the limit |
| `PcValue.StreamRoundTrip` | src/pclntab/mod.rs:827-834 | decoding an encoded run list gives back its runs, up to the first repeated value and the record limit |
| `PcValue.AllVisible` | src/pclntab/mod.rs:851-853 | no run is lost exactly when neighbouring values differ |
| `PcValue.ValueRoundTrip` | src/pclntab/mod.rs:835-869 | a lookup in an encoded run list returns the value of the covering run for every offset, and -1 past the end |
| `PcValue.ValueLost` | src/pclntab/mod.rs:846-853 | with no condition on the runs: a run is found exactly when it is visible and within the record limit, else its offsets read as -1 |
| `PcValue.EmptyListStates` | src/pclntab/mod.rs:851-866 | behind an empty list's terminator the stream goes on: a first record of value -1 with the pc delta that follows, or nothing when none does |
| `PcValue.EmptyListReads` | src/pclntab/mod.rs:835-869 | whatever follows, an empty list reads as -1 at every offset exactly when no pc delta follows or every later state reaching beyond all before it has the value -1 |
| `PcValue.EmptyListExact` | src/pclntab/mod.rs:835-869 | where the pcs climb, an empty list reads as -1 at every offset exactly when no nonzero pc delta and whole record follow |
| `PcValue.EmptyListRunsOn` | src/pclntab/mod.rs:851-853 | for example: a one-byte pc delta and an encoded run behind the terminator are read as records |
| `PcValue.ValueAtMostMax` | src/inline/mod.rs:244-284 | on every byte stream a value found below a limit is at most the maximum up to that limit |
| `PcValue.MaxValueAttained` | src/inline/mod.rs:244-284 | where pcs climb the maximum is the value at some offset below the limit |
| `PcValue.FirstAgrees` | src/pclntab/mod.rs:874-887 | on every table: the entry value equals the walk's value at offset 0 when it reports one and the first record is whole and advances; it reports none for a first value of -1; without a first record it reports one exactly when only the pc delta is missing, where the walk gives -1 |
| `GoBin.ReadUintAt` | src/gobin/mod.rs:779-799 | both accumulating loops read the word in its byte order, or nothing past the end |
| `GoBin.ScanForMagic` | src/gobin/mod.rs:637-681 | returns the leftmost offset with an accepted magic and header shape; fails only when there is none |
| `GoBin.ScanForOne` | src/gobin/mod.rs:657-675 | for one magic, stepping over each rejected match whole still finds the leftmost accepted header |
| `GoBin.NoOverlap` | src/gobin/mod.rs:632-635 | two occurrences of one magic never overlap |
| `GoBin.FindSubslice` | src/gobin/mod.rs:684-691 | the first occurrence, none only if there is none |
| `AddressMap.ClampSections` | src/gobin/mod.rs:924-935 | after loading a section declares exactly the bytes it declared that the file has, and nothing else about it changes |
| `AddressMap.OffsetRoundTrip` | src/gobin/mod.rs:619-630 | offset to address and back is the identity, and reads the same byte, when sections do not overlap in memory |
| `AddressMap.AddressRoundTrip` | src/gobin/mod.rs:174-181 | address to offset and back is the identity when sections do not overlap on disk |
| `AddressMap.ReadSucceeds` | src/gobin/mod.rs:186-208 | once clamped, a read succeeds exactly when it stays inside its section's file bytes |
| `Pclntab.HeaderParses` | src/pclntab/mod.rs:100-227 | every header the scan accepts parses, with the same table offsets in ascending order, except the one refused magic, always refused |
| `Pclntab.ScannedHeaderParses` | src/gobin/mod.rs:834-912 | what the scan returns always parses |
| `Pclntab.SearchFunctab` | src/pclntab/mod.rs:358-381 | the binary search is sound on every table, and on a sorted one it succeeds exactly between the first entry and the sentinel |
| `Pclntab.SpanUnique` | src/pclntab/mod.rs:358-381 | on a sorted table one index spans a pc |
| `Pclntab.Lookup` | src/pclntab/mod.rs:358-388 | lookup returns the function of the index spanning the pc, none outside the table; which function that is in bytes is `PclntabWriter.LookupRoundTrip` |
| `Pclntab.FoundExactly` | src/pclntab/mod.rs:358-381 | on a readable sorted table the search finds exactly the index that spans the pc |
| `PclntabWriter.HeaderRoundTrip` | src/pclntab/mod.rs:100-227 | a written header parses exactly when its tables start inside, as the fields written; a zero text start stands for the text section's |
| `PclntabWriter.AcceptedExactly` | src/gobin/mod.rs:834-912 | the scan accepts exactly the written headers of three magics with ascending offsets inside and a text start in the text |
| `PclntabWriter.EntryReads` | src/pclntab/mod.rs:259-295 | an entry of a written function table reads back as its pc and record offset, in both layouts, widths and byte orders |
| `PclntabWriter.FieldsRead` | src/pclntab/mod.rs:300-305 | the fields of a written `_func` record are read at their places behind its leading pc |
| `PclntabWriter.FileReads` | src/pclntab/mod.rs:614-632 | a file number resolves to the name its unit's word leads to, none for all ones and for negative numbers |
| `PclntabWriter.FunctionReads` | src/pclntab/mod.rs:752-824 | a written function is read with its name and the file and line of the first run of its two streams, neither when one starts with the value -1; the table walk records the same name, its offset and its size |
| `PclntabWriter.LookupRoundTrip` | src/pclntab/mod.rs:358-388 | every pc of a written function is answered with that function, every pc outside the text with none |
| `PclntabWriter.ListRoundTrip` | src/pclntab/mod.rs:702-750 | the walk of a written table lists every function in order with its name and size |
| `PclntabWriter.PclntabRoundTrip` | src/pclntab/mod.rs:100-388 | from bytes to answer: a written header and the tables behind it parse, and give back the function of every pc |
| `Pclntab.FunctionsWithOffsets` | src/pclntab/mod.rs:702-750 | succeeds exactly when the claimed entries and the sentinel fit, and lists every readable record in order |
| `Pclntab.RecordsTile` | src/pclntab/mod.rs:702-750 | on a sorted table the records' sizes tile the text from the first entry to the sentinel |
| `Pclntab.LookupMatchesRecord` | src/pclntab/mod.rs:355-388 | lookup finds index i exactly for the pcs inside record i |
| `InlineTree.DecodeInlineTree` | src/inline/mod.rs:81-206 | a decoded tree is the records at its address, in order, none pointing outside the function, short only at unmapped memory; it fails exactly when a claimed tree's stream cannot be located, when there are records to read but no base, or at a first bad record; what a record and a tree are in bytes is `InlineWriter`'s |
| `InlineWriter.CallRoundTrip` | src/inline/mod.rs:166-180 | a record written as function id, three bytes of padding, name offset, parent pc and start line is parsed as those fields |
| `InlineWriter.TreeReads` | src/inline/mod.rs:90-160 | a `_func` record written with its arrays has a tree exactly with three pcdata and four funcdata slots and a fourth funcdata word other than all ones: that word beyond gofunc, indexed by the third pcdata stream |
| `InlineWriter.LengthIs` | src/inline/mod.rs:117-130 | as many records are read as the function's offsets index, at most 65,536 |
| `InlineWriter.TreeRoundTrip` | src/inline/mod.rs:81-206 | where the image holds the records, the only decoded tree is exactly those records; decoding fails exactly when one of them points outside the function |
| `InlineTree.SearchesAgree` | src/pclntab/mod.rs:421-444 | the second binary search, on 32-bit offsets, retraces the first |
| `InlineTree.LookupInline` | src/pclntab/mod.rs:395-578 | no frames exactly when lookup finds nothing; otherwise inlined ones for the records of the walk, innermost first, up to 4 GiB into the text, then exactly one physical frame, of the function lookup finds |
| `InlineTree.FollowParents` | src/pclntab/mod.rs:523-577 | the walk follows parent pcs through the index stream, at most 32 deep |
| `InlineWriter.WalkExact` | src/pclntab/mod.rs:513-577 | each step's record is the one the index stream names at its offset; the first offset is the pc's, each later one the parent pc before it; the walk stops only where no record follows or after 32 |
| `InlineWriter.StepsRoundTrip` | src/pclntab/mod.rs:417-522 | for a pc of a written function the walk starts at its distance from the function's entry, in the function's own tree |
| `InlineWriter.FrameRoundTrip` | src/pclntab/mod.rs:536-557 | an inlined frame has the name its record points to and the file and line of the runs covering its offset; the record's start line stands in for a line that is not positive |
| `InlineTree.NoValueAtTop` | src/pclntab/mod.rs:560-577 | no stream covers the largest offset, so a parent pc of -1 ends the walk |
| `InlineTree.LookupStaysInTree` | src/pclntab/mod.rs:523-577 | every record read for a pc of the function is the decoded one at its index or number 65,536; over all its pcs they are all the decoded ones exactly when no offset of the function is indexed 65,536 with that record mapped |
| `InlineTree.StepPastCap` | src/pclntab/mod.rs:523-577 | at such an offset the first record read is beyond the decoded tree |
| `InlineCap.CapLeavesOneOut` | src/inline/mod.rs:66-70 | the exception exists: a binary whose pclntab slice parses, with 65,537 mapped records of distinct fields and a function whose walk reads the last of them, which its full decoding leaves out |
| `InlineCap.ExampleAnswers` | src/pclntab/mod.rs:358-388 | in that binary every pc of the function is answered with its name, file and line |
| `InlineGraph.ResolveLeafName` | src/inline/mod.rs:212-230 | a resolved name is nonempty and NUL-free |
| `InlineGraph.LeafNames` | src/inline/mod.rs:212-230 | the name is the string the record's offset leads to in the name table; none for offsets of zero and below, past the table, or to the empty string |
| `InlineGraph.AddCall` | src/inline/mod.rs:485-550 | one record, one step: the graph becomes that of the calls so far with this one added |
| `InlineGraph.InlineCallgraph` | src/inline/mod.rs:444-555 | the graph built is that of all inlined calls of all decoded trees, corrupt ones skipped |
| `InlineGraph.FreshOnce` | src/inline/mod.rs:497-538 | one synthetic node per callee identity without a body: none twice, none missing |
| `InlineGraph.SyntheticAddresses` | src/inline/mod.rs:352-364 | synthetic addresses are tagged and pairwise distinct, as many as callees without a body; with distinct entries below the tag bit all node addresses differ |
| `InlineGraph.EdgesExact` | src/inline/mod.rs:540-549 | no edge twice, an edge for every call, and no other edge |
| `InlineGraph.EdgesMean` | src/inline/mod.rs:473-549 | every call has an edge and every edge a call: from its function, at the address its parent pc gives, to a node with its name: the last function of that name, else one made for a call of that name, or an unnamed one of its caller and start line |
| `InlineGraph.CallsExact` | src/inline/mod.rs:473-494 | the calls are those of the decoded records that are no root marker, each with its function and resolved name |
| `InlineGraph.EdgesWithin` | src/inline/mod.rs:493-549 | both ends of every edge are nodes and its call site lies in the caller's range |
| `InlineGraph.SameNodeIffSameCallee` | src/inline/mod.rs:496-538 | two calls lead to one node exactly when they have the same name, or unnamed the same parent, parent pc and start line |
| `InlineGraph.GraphGrows` | src/inline/mod.rs:444-555 | the graph of the first k calls is a prefix of the whole one |
| `InlineGraph.DecodedCallsPlaced` | src/inline/mod.rs:188-202 | every call found in a decoded tree lies inside its function |
| `InlineGraph.RecordsFit` | src/pclntab/mod.rs:722-748 | a record's span ends inside the address space |
| `Moduledata.TryParse` | src/moduledata/mod.rs:479-721 | succeeds exactly on a complete, plausible record, and returns it |
| `Moduledata.Reader.Uptr` | src/moduledata/mod.rs:735-765 | reads the word under the cursor and moves past it; at the end of the file fails and stays |
| `Moduledata.Reader.Slice` | src/moduledata/mod.rs:767-772 | reads three words as a slice header and moves past them |
| `Moduledata.LayoutRoundTrip` | src/moduledata/mod.rs:502-588 | for every layout, pointer width and byte order a record written in the layout's field order reads back field by field, zeros for what the layout lacks |
| `Moduledata.LayoutPlaces` | src/moduledata/mod.rs:532-588 | where each layout has the types region, gofunc, typelinks and itablinks, and how long it is |
| `Moduledata.PlausibleExactly` | src/moduledata/mod.rs:479-721 | below the top of the address space the checks accept exactly the records whose six tables lie in the pclntab, whose regions are ordered and at most a gigabyte, whose gofunc is zero or mapped, and whose typelinks and itablinks lie in a section |
| `Moduledata.PlausibleRecord` | src/moduledata/mod.rs:479-721 | for example a record with typelinks and itablinks in a binary of one section |
| `Moduledata.AddrsAgree` | src/gobin/mod.rs:619-630 | the address given to the record found is that of the general translation, zero outside every section |
| `Moduledata.NewerReadAsOlder` | src/moduledata/mod.rs:580-588 | what a 1.26 record reads as under the 1.20 layout: right up to the drift, then each slice one pointer early |
| `Moduledata.OlderLayoutRejects` | src/moduledata/mod.rs:641-675 | a plausible 1.26 record passes as 1.20 exactly when the two shifted slices happen to fit a section |
| `Moduledata.ScanSection` | src/moduledata/mod.rs:430-477 | finds a candidate whenever there is one, aligned ones first, then front to back |
| `TypeGraph.CloseOverChildren` | src/types/mod.rs:319-358 | terminates on every input with at most the ceiling of results, all reachable through what the types mention; all reachable types when neither bound bit; the ceiling never costs anything when headers are disjoint; the queue cap never bites while the references number at most four times the ceiling |
| `TypeGraph.ChildAddrsExact` | src/types/mod.rs:361-388 | the children of a type are exactly the types its kind mentions: the element, the key, element and bucket, the fields', methods', parameters' and results' types, one for each reference |
| `TypeGraph.RootsOfLinks` | src/types/mod.rs:320-326 | a typelinks table of signed 32-bit offsets gives one root for each, at that distance from the region's start; an incomplete word is ignored |
| `TypeGraph.PushChildren` | src/types/mod.rs:343-354 | queues the unseen children inside the region unless the queue cap stops it |
| `TypeGraph.Packing` | src/types/mod.rs:304-308 | headers a header apart inside the region number at most its length divided by the header size |
| `TypeGraph.CeilingLosesNothing` | src/types/mod.rs:304-332 | pigeonhole: once the ceiling is reached every reachable type is already there |
| `TypeGraph.RecoverFocused` | src/types/mod.rs:278-359 | succeeds exactly on a supported target with a readable typelinks table; the result is in address order and is the types reachable from its roots through what types mention |
| `TypeGraph.LinearScan` | src/types/mod.rs:227-276 | finds exactly the plausible types at aligned addresses not seen before, each once, in order |
| `StructLayout.PlausibleKinds` | src/types/mod.rs:252-269 | the linear scan takes the kinds Go has and no other |
| `TypeGraph.RecoverFull` | src/types/mod.rs:204-212 | the full mode keeps the focused result, never lists an address twice, and covers every plausible aligned header |
| `ElfRewrite.WriteSymbolsAsElf` | src/rewrite/mod.rs:66-286 | composes the specified output in the program's order, patching symbols and header in place, or fails with the first failing check |
| `ElfReader.OriginalBytesKept` | src/rewrite/mod.rs:181-286 | all input bytes are in the output unchanged but for header bytes 40..48 and 60..64 |
| `ElfReader.CountStored` | src/rewrite/mod.rs:279-286 | the output's section count is the original's and three exactly when that fits sixteen bits |
| `ElfReader.HeadersKept` | src/rewrite/mod.rs:209-278 | every original section header is found again byte for byte, three new ones follow |
| `ElfReader.SectionNamesKept` | src/rewrite/mod.rs:137-154 | an original section keeps its name exactly when its name was NUL-terminated in the original table (or refers beyond both) |
| `ElfReader.NewSections` | src/rewrite/mod.rs:235-278 | the three new headers decode to the tables' type, place, size and link |
| `ElfReader.NewSectionNames` | src/rewrite/mod.rs:146-154 | the new sections are named .symtab, .strtab and .shstrtab |
| `ElfReader.SymbolsRoundTrip` | src/rewrite/mod.rs:156-233 | symbol k+1 is function k: its address, its type; its section, read from the output, is the first to have SHF_EXECINSTR, or 1 when none has; its name through sh_link exactly when NUL-free |
| `ElfReader.RewriteAgain` | src/rewrite/mod.rs:99-151 | the output is a valid input: the writer reads it without error, as the enlarged header table and name table |
| `ElfReader.AcceptedExactly` | src/rewrite/mod.rs:66-132 | the writer accepts exactly the little-endian ELF64 files whose section headers and name table the reader finds |
| `ElfReader.TextIndexFirst` | src/rewrite/mod.rs:216-227 | the section the symbols name is the first of the output's whose header decodes with SHF_EXECINSTR, or 1 |
| `PeRewrite.WriteSymbolsAsPe` | src/rewrite/mod.rs:370-532 | composes the specified output, or fails with the first failing check |
| `PeRewrite.OnlyTwoFieldsChange` | src/rewrite/mod.rs:515-532 | of the original bytes only the COFF header's symbol table pointer and count change |
| `PeRewrite.HeaderFound` | src/rewrite/mod.rs:515-532 | the header is found where it was exactly when every byte of the pointer to it that the patch covers already has the value written there |
| `PeRewrite.TableLocated` | src/rewrite/mod.rs:515-532 | on that condition a reader finds the table, 4-aligned, with one record per function |
| `PeRewrite.StringsLocated` | src/rewrite/mod.rs:479-532 | the string table's size field is exact and the table ends the file |
| `PeRewrite.CoffRoundTrip` | src/rewrite/mod.rs:485-509 | record k is function k: section, type, class; its name exactly when nonempty and NUL-free; its address exactly when within 4 GiB above the image base |
| `PeHeaders.AcceptedExactly` | src/rewrite/mod.rs:370-456 | the writer accepts exactly the files that hold a PE signature, file header, optional header and section headers as the specification lays them out, and knows what they say |
| `PeHeaders.RecordsRoundTrip` | src/rewrite/mod.rs:406-509 | from those headers to the records: each names the first section with IMAGE_SCN_MEM_EXECUTE, or 1, and gives its function's address exactly when within 4 GiB above the stated image base |
| `PeRewrite.NameFieldRoundTrip` | src/rewrite/mod.rs:486-498 | a name field, inline or through the string table, reads back exactly when the name is nonempty and NUL-free |
| `PeRewrite.TextSectionBound` | src/rewrite/mod.rs:457-473 | the records' section is the first executable one, or 1, and fits its field |
| `PeRewrite.PointerOverwritten` | src/rewrite/mod.rs:527-532 | with e_lfanew at 48 the table offset is written over the pointer and the header is lost, for every list of functions |
| `PeRewrite.CountIsPointer` | src/rewrite/mod.rs:527-532 | with e_lfanew at 44 the count is written over the pointer, which keeps it for 44 functions and no other number |
| `Xrefs.CalleesFrom` | src/xrefs/mod.rs:251-308 | lists the names some chain of calls within the depth leads to from the root, each with the length of the shortest such chain and the address on the first call of it: as many as there are up to the bound, none farther than one left out; truncated exactly when the bound is met; the loops over hash maps compute the bounded search |
| `Xrefs.CallersOf` | src/xrefs/mod.rs:189-246 | likewise the names from which a chain of calls leads to the target, each with the address on the first call it makes |
| `Xrefs.BfsExact` | src/xrefs/mod.rs:189-308 | on any arcs: every reported depth is a shortest nonempty path length, even truncated; nothing nearer than a reported name is left out; the nodes number the smaller of the bound and all within depth; truncation is reported exactly at the bound, otherwise nothing is missing; reported with nothing missing exactly when the nodes just fill the bound |
| `Xrefs.LayerIsCallees` | src/xrefs/mod.rs:275-296 | the k-th round reaches exactly the names a chain of k calls leads to |
| `Xrefs.LayerIsCallers` | src/xrefs/mod.rs:213-234 | the k-th round reaches exactly the names from which a chain of k calls leads to the target |
| `Xrefs.TruncatedWithNothingMissing` | src/xrefs/mod.rs:215-218 | for example: one call, bound one |
| `Xrefs.CallersAreReversedCallees` | src/xrefs/mod.rs:189-308 | callers equal callees of the reversed edges in names, depths and truncation |
| `Xrefs.LayerIsPaths` | src/xrefs/mod.rs:213-240 | the k-th layer is exactly the ends of call paths of length k |
| `CallScan.ScanAmd64` | src/xrefs/mod.rs:76-107 | an edge for every CALL rel32 to a recovered entry from inside a function, in text order |
| `CallScan.ScanArm64` | src/xrefs/mod.rs:109-143 | an edge for every BL to a recovered entry from inside a function, in text order |
| `CallScan.ScanDirectAmd64` | src/callsites/mod.rs:208-235 | every CALL rel32 to the target, with its caller if any, in text order |
| `CallScan.ScanDirectArm64` | src/callsites/mod.rs:312-347 | every BL to the target, with its caller if any, in text order |
| `CallScan.ExtensionsAgree` | src/callsites/mod.rs:324-330 | the 32-bit and the 64-bit sign extension of imm26 give the same signed number |
| `CallScan.ScannersAgree` | src/callsites/mod.rs:208-347 | for a recovered entry the graph's edges into it are exactly the direct hits that have a caller: sites, callers, order |
| `CallScan.NoEdgesElsewhere` | src/xrefs/mod.rs:93-103 | an address that is no recovered entry has no edges |
| `CallScan.AllCallsExact` | src/xrefs/mod.rs:83-106 | the sweep lists a call exactly when some position of the text decodes to it, on either architecture |
| `CallScan.EdgesExact` | src/xrefs/mod.rs:83-106 | an edge is listed exactly when some position calls its callee's address, that is the last function entered there, and its caller is the function the site lies in, names and addresses included |
| `CallScan.SitesExact` | src/callsites/mod.rs:208-347 | a site is listed for a target exactly when a call there reaches it, with the function it lies in, if any |
| `CallScan.EncodedCallSeen` | src/callsites/mod.rs:217-221 | a CALL rel32 reaches the address it was assembled for |
| `CallScan.EncodedBranchSeen` | src/callsites/mod.rs:321-333 | a BL reaches the address it was assembled for, over its whole range |
| `CallScan.CallWasEncoded` | src/callsites/mod.rs:217-221 | whatever is taken for a CALL rel32 was assembled as one |
| `CallScan.BranchWasEncoded` | src/callsites/mod.rs:321-333 | whatever is taken for a BL was assembled as one |
| `CallScan.ScanIndirectItabForSlotAmd64` | src/callsites/mod.rs:261-306 | the loop collects the calls through the slot at every position |
| `CallScan.SlotCallsExact` | src/callsites/mod.rs:261-306 | every call through the slot is reported and nothing else |
| `CallScan.EncodedSlotCallSeen` | src/callsites/mod.rs:254-259 | an encoded call is seen to go through its target exactly when the displacement fits 32 bits |
| `CallScan.SlotsDisagree` | src/callsites/mod.rs:33-39 | the scanner's slot k is the itab reader's slot k + 2, never its slot k |
| `DataXref.ScanAmd64` | src/dataxref/mod.rs:105-174 | the hits for a target are those of the text's references that the direction wants, in order |
| `DataXref.ScanTextAmd64` | src/dataxref/mod.rs:275-305 | the set collected is the targets of the text's references |
| `DataXref.SetAgreesWithScan` | src/dataxref/mod.rs:105-305 | an address is in the set exactly when the scan for it in both directions finds something |
| `DataXref.DirectionsPartition` | src/dataxref/mod.rs:176-183 | readers and writers are an order-preserving partition of all hits |
| `DataXref.RefsAscend` | src/dataxref/mod.rs:113-173 | references come in text order from instructions that do not overlap |
| `DataXref.IndirectForms` | src/dataxref/mod.rs:119-125 | the ModR/M tests accept exactly the bytes 15 and 25 after FF |
| `DataXref.RefsExact` | src/dataxref/mod.rs:275-305 | the references found are exactly those decoded where the sweep stops with seven bytes left |
| `DataXref.AssembledSeen` | src/dataxref/mod.rs:119-165 | a LEA, load, store, comparison or indirect call or jump assembled at a position is found there, with its target and kind |
| `DataXref.SeenAssembled` | src/dataxref/mod.rs:119-165 | whatever is found was assembled as one of those |
| `DataXref.SizeExactly` | src/dataxref/mod.rs:119-172 | the sweep advances by six at FF with a memory operand relative to the next instruction, by seven at any other reference, else by one |
| `DataXref.HitsExact` | src/dataxref/mod.rs:176-194 | a hit is a reference to the target in a direction asked for, with the function its instruction is in |
| `DataXref.CallReported` | src/dataxref/mod.rs:113-136 | in any text an indirect call or jump is reported exactly when the sweep stops at it and seven bytes are left |
| `DataXref.LastCallMissed` | src/dataxref/mod.rs:113-114 | for example: a six-byte call that is the whole text is not seen; one byte more and it is |
| `Diff.Compute` | src/diff/mod.rs:71-193 | with unique addresses the report lists exactly the pairings of the matching, each once, whatever order the hash maps iterate in, and a pairing is listed exactly when what it says is so; every count is the size of its part |
| `Diff.ListedExactly` | src/diff/mod.rs:71-243 | moved is the same name at another place, unambiguous among what is not identical; renamed the same signature, unambiguous among what is left; removed and added the rest |
| `Diff.UniqueIndex` | src/diff/mod.rs:200-217 | the index holds exactly the keys that occur once among the unmatched, with their function |
| `Diff.PairUnambiguous` | src/diff/mod.rs:112-160 | pairs exactly the functions whose key is unambiguous on both sides |
| `Diff.MatchExact` | src/diff/mod.rs:88-110 | pairs exactly the functions with the same name at the same address |
| `Diff.MatchPartitions` | src/diff/mod.rs:71-193 | every old and every new function is in exactly one part, so the counts add up to the totals |
| `Diff.MatchSymmetric` | src/diff/mod.rs:71-193 | swapping the sides swaps added and removed and turns every pair around |
| `Diff.SelfDiff` | src/diff/mod.rs:71-193 | a build compared with itself is all identical |
| `Garble.Relabel` | src/garble/mod.rs:470-492 | the accumulator loop replaces exactly the tokens of the name and keeps every separator |
| `Garble.TokenizeSplits` | src/garble/mod.rs:466-469 | a name is its maximal tokens and separators put back together |
| `Garble.SplitUnique` | src/garble/mod.rs:466-469 | there is only one such split of a name |
| `Garble.RelabelInverts` | src/garble/mod.rs:470-492 | relabelling with the inverse dictionary restores the name exactly when no token the dictionary lacks is itself an original |
| `Garble.InverseExists` | src/garble/mod.rs:410-413 | every injective dictionary has an inverse |
| `Garble.PairsFromRun` | src/garble/mod.rs:571-600 | a dictionary is found exactly when some alignment has an ascending segment of eight identifier keys; it is such a segment and none under either alignment is longer |
| `Garble.LessExactly` | src/garble/mod.rs:583-587 | keys are compared lexicographically: a proper prefix, or smaller where they first differ |
| `Garble.CollectExact` | src/garble/mod.rs:588-592 | no two keys of a segment collide: the dictionary holds every pair of it and nothing else |
| `StructLayout.StructCDecl` | src/export/mod.rs:520-575 | emits the members with padding and tail; nothing for a struct of size zero without sized fields |
| `StructLayout.PlacedIffNatural` | src/export/mod.rs:536-561 | a C compiler puts every sized field at its Go offset exactly when the fields are aligned, ordered and disjoint |
| `StructLayout.LayoutKept` | src/export/mod.rs:520-575 | the same for the whole struct; its C size is the Go size exactly when the fields end within it and it is a multiple of the strictest alignment |
| `StructLayout.SizedByKind` | src/export/mod.rs:588-617 | with Go's 64-bit size for every kind, each field's C type has the field's size, aligned to it for numbers and pointers and to one byte for the rest |
| `StructLayout.OddSizeGrows` | src/export/mod.rs:562-565 | every struct whose size is no such multiple takes more than the Go size, by less than the alignment |

## Left out

- Container parsing: `describe_elf`, `describe_mach`, `describe_pe` and the fat-binary slicing start from a foreign library; the model starts from a section list and bytes.
- Reading and writing files, permissions, the command line, serialization, and the text of the IDA, Ghidra and Binary Ninja scripts: input, output and formatting.
- UTF-8: names are byte sequences; the program rejects a name that is not UTF-8, the model does not.
- Error texts: errors are constructors without their messages.
- `usize` additions are exact here where the program adds without a check; the four that can overflow on 64-bit inputs are listed above. Where the program checks, saturates or wraps, so does the model.
- ElfReader.SymbolsRoundTrip: stated for fewer than 0xff00 sections; the ABI's extended section numbering is not modelled, as the writer does not use it.
- The synthetic-node counter is unbounded here; the theorems about its addresses assume fewer than 2^63 - 1 inlined calls.
- TypeGraph.CloseOverChildren: decoding one type header (`parse_type`, `decode_kind`) is a parameter, a function of the address.
- TypeGraph.RecoverFocused: assumes a decoded header records its own address, as `parse_type` sets it.
- Diff.Compute: says what the report contains only when addresses are unique on each side, as a function table has them.
- Xrefs.CalleesFrom: the result maps names to depth and address; the sort by name is not modelled. Which names of the last depth are kept when the bound cuts it short is fixed only by the search function, in discovery order.
- InlineTree.LookupInline: agreement of the two searches is stated for the Modern layout, the only one whose inline trees are read, and for pcs less than 4 GiB above the text start, where the offset survives its truncation to 32 bits.
- Moduledata.ScanSection: the chain around it (`locate`, `locate_all`, `layouts_for`, `read_name_len` and the name-encoding vote) is left out.
- CallScan.ScanAmd64: choosing the text section and the architecture gate of `find_calls` and `find` are left out, as is the best-effort arm64 scanner for indirect calls.
- DataXref.ScanTextAmd64: the pass over data sections in `referenced_addresses` is left out, an easier version of the same loop.
- Garble.PairsFromRun: finding the run of string headers (`recover_reflect_names`, `string_header`) is left out; `assess` and `detect` are floating-point heuristics.
- StructLayout.StructCDecl: label sanitizing, reserved words and skipping of repeated names are left out; members are named by the field's position.
- StructLayout.LayoutKept: C sizes and alignments are those of a 64-bit implementation; a recovered type must have the size Go gives its kind (`StructLayout.SizedByKind`).
- `forward_graph`, `to_dot`, `text_slice_at`, `buildinfo`, `strings`, `dataview`, `funcsig`, `stdlib`, `capabilities`, `fingerprint`, `goroutines` and `probe`: easier versions of loops covered here, lookups in fixed tables, library calls, or display.
