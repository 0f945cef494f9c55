# Models and proofs for Binaryen's tooling core

Six parts of Binaryen that carry real algorithms are modelled here in Dafny, each in the form the
source has (classes and loops where it changes state, functions where it computes), and each is
proved against an independent statement of what it is for. `dafny verify dfyconfig.toml` checks
everything.

**The instruction parser generator** (`scripts/gen-s-parser.py`). `InstructionTrie.Node` is the
trie on the heap, with in-place edge splitting; `Trie` is the trie as a value, the map it stands
for (`Lookup`), and its invariant (`Compressed`: distinct first characters among siblings, no
empty edges, every non-root node carries an entry or branches). `TrieCompiler` holds the language
of the emitted `switch` code, its evaluation on a zero-padded buffer, and the emitter.
The script measures names in characters while the C++ it prints works on the bytes of UTF-8, and the
model keeps the two apart (`Utf8`). `GeneratorProofs` shows that the code means a linear search of
the table, for every string of bytes. This is not true of every table; `GeneratorTheorem` gives the
exact condition, in both directions (`Compilable`):

- every instruction has an action text (or else an assertion trips or its case is lost), and there is
  a non-empty name (or else nothing to switch on);
- no name continues another one with a NUL character (which makes a duplicate `case '\0'`);
- every name means itself inside a string literal (no quotation mark, backslash or line end), and its
  bytes are no more than the characters of the longest name (or else the length check rejects it);
- every name starts with a character that can be a label, an ASCII character that means itself in a
  character literal, and any two names are ASCII up to where they part and go on with labels there (or
  else a switch looks at the wrong byte; `SwitchableTries` proves that this is what the trie needs).

`CompilableMeans` writes the condition out character by character, and `EveryRow` says what the output
does with each row of the instruction list, the seven names that are left out included.
For names without quotation marks, backslashes, NUL, line ends and characters beyond ASCII, only the
first of the four says anything (`PlainTables`).
`GeneratorExamples` has tables that the script accepts and compiles wrongly: `TooManyBytes`, `NoLabel`,
`WrongByte` and `BrokenLiteral`.

**LEB128 and section sizes** (`src/wasm-binary.h`). `IntegerGrammar` states the grammar uN/sN of
section 5.2.2 of the WebAssembly Core Specification as a partial function from bytes to integers.
`WasmBinary.LEB` has the loops `write`, `writeAt` and `read` with the source's masks and shifts, for
every width N of at least 8 bits, signed and unsigned; the reader is proved to accept exactly the
grammar. `WasmBinary.BufferWithRandomAccess` backpatches and shrinks size fields; `Sections` shows
that arbitrarily nested backpatching writes the recursive encoding. `BinaryIndexes` has the index
spaces, whose indexes keep 32 bits.

`Locations` is about the offsets that are recorded for the source map while all this is written:
before a byte, before a size field, or several at one place. If what lies in a payload moves with it,
every recorded offset keeps its byte in every run (`PlacesStayValid`). The source moves offsets by count
instead: a function body remembers how many there were when it began, while all sections share one
such count; and when a section is put in front of the code section, it raises all of them. Such a run moves
the right offsets in every step if and only if every step is aligned (`AlignedExactly`): at each finish the
remembered count is the one from the region's own beginning, or nothing shrinks, and whatever is raised
lies behind the new section. Runs in which no section begins inside another one in which something was
recorded are aligned (`OrderlyAligned`), and the writer makes no others: its sections nest only in the
name and dylink sections, where nothing is recorded. `LeftBehind` is a run of the two primitives that is
not aligned and loses an offset.

**Check weaving** (`scripts/update_lit_checks.py`). `CheckWeaving` has the nested loops that merge
queues of output items into source lines; `CheckWeavingProofs` shows conservation and order. Source
lines are kept exactly when each annotation is followed, in its module, by a source line that is no
annotation: otherwise the script stops at its assertion, or loses the annotations at the end of the
last module (`KeepsSourceIfSettled`, an equivalence; `StopsAfterAnnotation` and `LastAnnotationLost` are
the two failures). `CheckWeavingLaws` says which items the updated test shows: all of them with
--all-items, and otherwise exactly those it names.

**Simulated memory** (`src/shell-interface.h`). The vector in `ShellMemory.Memory` is never shorter
than 4096 bytes; it refines a byte sequence of the logical size because its tail stays zero.
`ShellInterface` has the overflow-safe size test and the 1 GiB limit.

**Fuzzing shell** (`scripts/fuzz_shell.js`). `StringEscape` has the escaper of `printed` and a reader
for the strings of section 7 of RFC 8259; what is printed is the only shortest printable text with
lower-case digits that reads as the string (`PrintedForm`). `HashSeed`, `TaskScheduler` and
`FuzzShell` have the seeded hash and the loop that runs, defers and finishes export calls, for every
behaviour of the calls.

**Base64** (`scripts/wasm2js.js`). `Base64` proves the decoder against the encoding of section 4 of
RFC 4648, with any foreign characters put in. Because its loop runs once before it tests, the empty
encoding decodes to three NUL characters; for every other byte sequence decoding inverts encoding.

Integer widths are explicit: fixed-width values are integers with their conversions written out
(`MachineInts`), and 32-bit offsets, sizes and counts appear as bounds or as `%`.

## Model

| member | source | states |
|---|---|---|
| Trie.CommonPrefix | scripts/gen-s-parser.py:733-740 | the result is a prefix of both strings and no longer one is |
| InstructionTrie.Node.CommonPrefixOf | scripts/gen-s-parser.py:733-740 | the loop finds the longest common prefix |
| InstructionTrie.Node.FindKey | scripts/gen-s-parser.py:749-754 | the key found shares a non-empty prefix, which is returned too; if none is found no child shares one |
| InstructionTrie.Node.DoInsert | scripts/gen-s-parser.py:742-767 | in place, on any tree-shaped heap trie that satisfies the invariant: the nodes stay tree-shaped without sharing and match the pure insertion, new nodes are fresh, and the assertion trips exactly for a name already present, leaving the trie unchanged |
| InstructionTrie.Node.InsertUnder | scripts/gen-s-parser.py:759-767 | the same through a child that shares a prefix, split or not |
| InstructionTrie.Node.SplitEdge | scripts/gen-s-parser.py:760-765 | popping the key and re-adding it below a new node gives a tree whose middle node has the rest of the edge |
| InstructionTrie.Node.AddLeaf | scripts/gen-s-parser.py:755-758 | a new leaf under the whole remaining name, everything else unchanged |
| Trie.InsertLookup | scripts/gen-s-parser.py:742-767 | after insertion every name maps as before, except the inserted one, through any chain of edge splits |
| Trie.InsertCompressed | scripts/gen-s-parser.py:742-767 | insertion of a new name keeps non-empty edges, distinct first characters and branching of nodes without entry |
| Trie.Canonical | scripts/gen-s-parser.py:742-770 | two tries with the invariant that hold the same names are the same trie |
| InstructionTable.BuildOrderIrrelevant | scripts/gen-s-parser.py:777-784 | tables with the same rows in any order lead to the same trie |
| InstructionTable.MaxLengthAnyOrder | scripts/gen-s-parser.py:783 | the buffer's length does not depend on the order of rows |
| InstructionParser.BuildHolds | scripts/gen-s-parser.py:775-784 | inserting the rows of a table without repeats one after the other gives a trie with the invariant that holds exactly the table |
| InstructionParser.OutputOrderIrrelevant | scripts/gen-s-parser.py:773-834 | reordering the instructions changes neither the emitted switches nor the buffer's length |
| InstructionTable.FindAnyOrder | scripts/gen-s-parser.py:777-784 | searching a table without repeats does not depend on the order of rows |
| InstructionTable.FindRow | scripts/gen-s-parser.py:777-784 | the reference search finds every row by its name |
| InstructionTable.SearchName | scripts/gen-s-parser.py:797-806 | searching for the bytes of a name finds what searching for the name finds, as no two names have the same bytes |
| SortedStrings.ListingUnique | scripts/gen-s-parser.py:816 | the sorted order of the children is determined by their keys |
| SortedStrings.FirstDifference | scripts/gen-s-parser.py:816 | a string comes after its beginnings, and otherwise the first different character decides |
| InstructionParser.BuildTrie | scripts/gen-s-parser.py:773-784 | building stops exactly for a repeated name among the rows kept; otherwise the heap trie is the one that inserting these rows in order gives, with its invariant, and the buffer length is the number of characters of the longest of their names |
| InstructionParser.EmitNode | scripts/gen-s-parser.py:808-829 | the recursive printer over the heap trie produces the emitted program of the trie it represents, or stops at its assertions |
| InstructionParser.EmitChildNode | scripts/gen-s-parser.py:817-828 | a child becomes a nested switch or a leaf, or trips the assertion on a missing action |
| InstructionParser.Generate | scripts/gen-s-parser.py:773-834 | for rows kept without repeats: the output is the program of their trie and the length of the longest name, and it is correct if and only if their table is compilable; with a repeat there is no output |
| InstructionParser.KeptRows | scripts/gen-s-parser.py:777-782 | the rows kept are those of all names but these seven, written out |
| InstructionParser.EveryRow | scripts/gen-s-parser.py:773-834 | if the rows kept are compilable, then for every row whose name is none of `block`, `loop`, `if`, `try`, `then`, `else`, `try_table` the output runs its action on the bytes of its name; on all other bytes, those of the seven names included, it reaches the parse error |
| TrieCompilerProofs.Sound | scripts/gen-s-parser.py:796-829 | whatever the buffer holds, an action runs only for the bytes of a name that the trie holds with this action, although most of them are never compared before |
| TrieCompilerProofs.Complete | scripts/gen-s-parser.py:796-829 | the bytes of a name that the trie holds reach its own action through the nested switches on a zero-padded buffer, where the trie can be switched over |
| TrieCompilerProofs.EmitSucceeds | scripts/gen-s-parser.py:808-829 | neither assertion of the emitter can fail when every entry has an action and there is a child |
| TrieCompilerProofs.EmitWellFormed | scripts/gen-s-parser.py:788-829 | every buffer index lies inside the declared array, labels and literals mean themselves, and the labels of each switch are pairwise distinct, NUL included |
| TrieCompilerProofs.DistinctLabels | scripts/gen-s-parser.py:810-820 | no two cases of one switch have the same label |
| TrieCompilerProofs.LabelsAscend | scripts/gen-s-parser.py:812-820 | behind the NUL case, the labels of each switch ascend |
| GeneratorProofs.InBounds | scripts/gen-s-parser.py:788-794 | a well-formed program never reads outside its buffer |
| TrieCompilerProofs.Misaligned | scripts/gen-s-parser.py:808-821 | a switch behind a character of several bytes makes the program fail for one of the names below it |
| TrieCompilerProofs.OnlyIfSwitchable | scripts/gen-s-parser.py:808-829 | if the program of a trie works for all names, every edge starts with a label and every edge to a switch is ASCII |
| SwitchableTries.SwitchableExactly | scripts/gen-s-parser.py:808-829 | that holds of a trie if and only if its names start with labels, are ASCII up to where they part, and go on with labels there |
| TrieCompilerProofs.NulClash | scripts/gen-s-parser.py:812-820 | a name that continues another one with a NUL character yields a program with duplicate labels |
| GeneratorProofs.RowKept | scripts/gen-s-parser.py:788-825 | if the program is correct, every row has an action, its name can be quoted, and its bytes fit the buffer |
| GeneratorProofs.RunsRow | scripts/gen-s-parser.py:788-829 | the action of a row runs for the bytes of its name |
| GeneratorProofs.RunsNothing | scripts/gen-s-parser.py:788-834 | bytes that are no name's reach the parse error |
| GeneratorProofs.CompiledCorrectly | scripts/gen-s-parser.py:788-834 | for a compilable table the emitted program finishes, is well formed, and for every string of bytes runs what the linear search finds, or reaches the parse error |
| GeneratorProofs.CorrectOnlyIfCompilable | scripts/gen-s-parser.py:808-834 | a correct program comes only from a compilable table, each part of the condition being needed |
| GeneratorProofs.GeneratorTheorem | scripts/gen-s-parser.py:773-834 | for a table without repeats, the emitted program is correct for every string of bytes if and only if the table is compilable, a condition on names and actions that can be checked before |
| GeneratorProofs.CompilableMeans | scripts/gen-s-parser.py:783-829 | that condition, written out with the characters that cannot be quoted or be labels, and the place where two names part |
| Utf8.CharBits | scripts/gen-s-parser.py:797-806 | the lead byte and the continuation bytes of a character hold its bits, as in section 3 of RFC 3629 |
| GeneratorProofs.PlainTables | scripts/gen-s-parser.py:777-784 | for names of plain ASCII characters the condition is that each row has an action and some name is not empty |
| GeneratorExamples.TooManyBytes | scripts/gen-s-parser.py:783-794 | a longest name with a character of two bytes never passes the length check |
| GeneratorExamples.NoLabel | scripts/gen-s-parser.py:818-827 | a name that starts with a character of two bytes has no valid case |
| GeneratorExamples.WrongByte | scripts/gen-s-parser.py:809-821 | two names that part behind a character of two bytes are not told apart, though the buffer is long enough |
| GeneratorExamples.BrokenLiteral | scripts/gen-s-parser.py:801 | a name with a quotation mark breaks the literal it is compared with |
| IntegerGrammar.EncodeDenotes | src/wasm-binary.h:80-95 | a value of the type, written with any minimum up to ceil(N/7) bytes, is derived by the grammar as that value |
| IntegerGrammar.EncodeLength | src/wasm-binary.h:78-95 | the number of bytes is the larger of the minimum and the shortest length |
| IntegerGrammar.DenotesBounds | src/wasm-binary.h:97-144 | what the grammar derives is in range and takes at most ceil(N/7) bytes |
| IntegerGrammar.ShortestIsLeast | src/wasm-binary.h:64-76 | what is written without padding is the unique shortest derivation of the value |
| IntegerGrammar.PrefixFree | src/wasm-binary.h:122-124 | no proper prefix of an encoding is an encoding, so the reader stops at one place |
| WasmBinary.LEB.NextByte | src/wasm-binary.h:85-90 | one round of the writing loops takes the low seven bits, shifts arithmetically, and continues exactly when the rest is not yet told by the sign bit, or padding is asked for |
| WasmBinary.LEB.Step | src/wasm-binary.h:55-62 | hasMore is false exactly when the byte written so far represents the remaining value |
| WasmBinary.LEB.Write | src/wasm-binary.h:64-76 | the bytes appended are the shortest encoding, for every width and signedness |
| WasmBinary.LEB.WriteAt | src/wasm-binary.h:80-95 | exactly the bytes of the padded encoding are replaced, nothing else, and their number is returned |
| WasmBinary.LEB.TakePayload | src/wasm-binary.h:104-121 | the masks and shifts accumulate the significant bits; wrong unused bits are an error, and which one it is tells the sign |
| WasmBinary.LEB.Read | src/wasm-binary.h:97-144 | for every input, the reader returns v after k bytes if and only if those bytes derive v in the grammar; otherwise the error says whether the input ended while its bytes asked for more, or else whether the byte at which the type is full has wrong unused bits, and of which sign, or asks for one more; the sign-extension error is never reached |
| MachineInts.AndBit | src/wasm-binary.h:104-117 | a bit is set in the conjunction if it is set in both |
| MachineInts.OrBit | src/wasm-binary.h:87-112 | a bit is set in the disjunction if it is set in one of the two |
| LebBits.LastByte | src/wasm-binary.h:104-121 | a final byte is derived exactly if its unused bits repeat the sign (or are zero) |
| LebBits.SignExtend | src/wasm-binary.h:130-142 | shifting left and arithmetically right subtracts 2^k and gives a negative value |
| LebReading.ReadAfterWrite | src/wasm-binary.h:64-144 | reading what was written, padded up to ceil(N/7) bytes and followed by any bytes, gives the value and the length |
| WasmBinary.WriteThenRead | src/wasm-binary.h:64-144 | writing to a buffer and reading from it, with any bytes behind, gives the value back, for every width and sign |
| WasmBinary.WriteAtThenRead | src/wasm-binary.h:80-144 | the same for a padded value written into the middle of a buffer |
| LebReading.OverPadded | src/wasm-binary.h:126-128 | an encoding padded beyond ceil(N/7) bytes is refused, whatever follows it |
| LebReading.WriteIsShortest | src/wasm-binary.h:64-76 | of all byte sequences that read as a value, the written one is strictly the shortest, at most ceil(N/7) bytes |
| LebReading.RefusedByte | src/wasm-binary.h:113-128 | a byte with wrong unused bits, or one that continues past the width, belongs to no derivation of any prefix |
| WasmBinary.BufferWithRandomAccess.PutInt32 | src/wasm-binary.h:170-179 | four little-endian bytes are appended |
| WasmBinary.BufferWithRandomAccess.WriteU32LEBPlaceholder | src/wasm-binary.h:267-272 | five bytes are appended and their offset returned, truncated to 32 bits |
| WasmBinary.BufferWithRandomAccess.WriteAtFullFixedSize | src/wasm-binary.h:243-246 | exactly five bytes are replaced, by the padded encoding |
| WasmBinary.BufferWithRandomAccess.WriteSize | src/wasm-binary.h:247-249 | exactly the bytes of the shortest encoding are replaced |
| WasmBinary.BufferWithRandomAccess.EmitRetroactiveSectionSizeLEB | src/wasm-binary.h:280-299 | the size field shrinks to the shortest encoding of the body's size, the body moves down unchanged, bytes before it are kept, and the shrinkage is returned |
| Sections.FinishedSection | src/wasm-binary.h:274-299 | placeholder plus body becomes the shortest size encoding plus body |
| Sections.WriteSized | src/wasm/wasm-binary.cpp:146-156 | placeholder, body and size put in afterwards append the size encoding and the body |
| Sections.WriteItem | src/wasm/wasm-binary.cpp:146-163 | for any nesting of sized bodies, backpatching appends the recursive encoding of section 5.5.2 and leaves earlier bytes alone |
| Sections.WriteItems | src/wasm/wasm-binary.cpp:146-163 | the same for sequences of sized bodies |
| Sections.InsertSection | src/wasm/wasm-binary.cpp:624-634 | putting a section in front of what was written from a place on keeps the bytes before, and moves those behind up unchanged |
| Locations.FinishMoves | src/wasm/wasm-binary.cpp:155-163 | when a region is finished, a location in its payload is lowered and keeps its byte, one before it stays, and one that waits at the placeholder stays and is at the first byte of the size |
| Locations.StepKeepsInv | src/wasm/wasm-binary.cpp:146-163 | if what lies in a payload moves with it, each append, mark, start, finish and insertion keeps every location on its byte, and keeps apart what was recorded before and in each open region |
| Locations.PlacesStayValid | src/wasm-binary.h:274-299 | the same over every run, without any condition but sizes below 2^32 |
| Locations.CountIsPlace | src/wasm/wasm-binary.cpp:157-163 | in any state of such a run, moving by count moves exactly what lies in the payload if and only if the count is the one from the region's beginning, or nothing shrinks |
| Locations.AlignedExactly | src/wasm/wasm-binary.cpp:146-163 | a run by count moves the right locations in every step if and only if each of its steps is aligned |
| Locations.LocationsStayValid | src/wasm/wasm-binary.cpp:532-579 | over every aligned run by count, every location keeps its byte |
| Locations.OrderlyAligned | src/wasm/wasm-binary.cpp:146-153 | a run is aligned if no section begins inside another one in which something was recorded, and sections are put in front of everything recorded |
| Locations.RunFromEmpty | src/wasm/wasm-binary.cpp:155-163 | after every aligned run from the empty buffer, all locations are right, and the bytes appended are those present plus the sum of returned adjustments |
| Locations.LeftBehind | src/wasm/wasm-binary.cpp:146-163 | in a run that is not aligned, a location recorded before an inner section is left behind and points outside the buffer |
| BinaryIndexes.AddIndexes | src/wasm-binary.h:1330-1345 | the two loops give each definition the 32 bits of the index of its place, imports first, and there are no other entries; up to 2^32 definitions that is the index itself |
| BinaryIndexes.AddGlobals | src/wasm-binary.h:1365-1379 | each global gets the 32 bits of the first index of its interval and the count is that of the sum of the arities; up to a sum of 2^32 these are the indexes themselves |
| BinaryIndexes.Ordered | src/wasm-binary.h:1330-1379 | all imports come before all definitions, relative order is kept, and intervals do not overlap |
| BinaryIndexes.Partition | src/wasm-binary.h:1361-1379 | every index below the total belongs to exactly one global |
| BinaryIndexes.Bijection | src/wasm-binary.h:1330-1349 | the map of functions, tags, tables or memories is one-to-one onto the indexes below their number |
| CheckWeaving.EmitChecks | scripts/update_lit_checks.py:353-363 | one check per line of an item: EMPTY for lines of white space, the plain form first, NEXT after it |
| CheckWeaving.HasItem | scripts/update_lit_checks.py:406-410 | a named line finds an item exactly if its queue holds its kind and name |
| CheckWeaving.PopThrough | scripts/update_lit_checks.py:411-421 | the pop loop ends, removes the items up to and including the first match, and appends the blocks of those removed |
| CheckWeaving.DrainQueues | scripts/update_lit_checks.py:402-421 | the loop over prefixes drains each queue that has a match and appends the blocks in order |
| CheckWeaving.EmitRemaining | scripts/update_lit_checks.py:426-434 | the items left at the end of a module are emitted prefix by prefix, with the separators shared by all prefixes |
| CheckWeaving.WeaveLines | scripts/update_lit_checks.py:382-424 | the loop over lines performs the state machine of queues, pending annotations and output |
| CheckWeaving.Weave | scripts/update_lit_checks.py:351-434 | the loop over modules yields the notice and the woven output, or stops at the assertion on pending annotations |
| CheckWeavingProofs.StepConserves | scripts/update_lit_checks.py:382-424 | one line keeps the sum of what was emitted and what is queued, for each prefix, and of the source lines written and pending |
| CheckWeavingProofs.StepsConserve | scripts/update_lit_checks.py:382-424 | the same over any sequence of lines |
| CheckWeavingProofs.PendingAfter | scripts/update_lit_checks.py:389-391 | no annotation is pending at the end exactly if each was followed by a source line that is no annotation |
| CheckWeavingProofs.ModulesConserve | scripts/update_lit_checks.py:377-434 | after any number of modules: when the script has not stopped, what source lines and what checks were written |
| CheckWeavingProofs.KeepsSourceIfSettled | scripts/update_lit_checks.py:373-434 | every source line that is no old check survives in order if and only if each annotation is followed in its module by a source line |
| CheckWeavingProofs.LastAnnotationLost | scripts/update_lit_checks.py:375-434 | a test that consists of an annotation is updated to one without it |
| CheckWeavingProofs.StopsAfterAnnotation | scripts/update_lit_checks.py:377-378 | a module after one that ends in an annotation trips the assertion |
| CheckWeavingProofs.EmitsEveryItemOnce | scripts/update_lit_checks.py:400-434 | for each prefix, the checks in the output are those that the items of its queues call for, each once, in the original order over all modules |
| CheckWeavingLaws.ShowsTheItems | scripts/update_lit_checks.py:400-434 | with --all-items, the checks of a prefix in the updated test are the texts of all its output items over all modules, each once and in order; without it, those of exactly the items whose key the test names |
| CheckWeavingLaws.BlocksShow | scripts/update_lit_checks.py:411-421 | the checks of a group of blocks are the whole blocks of all its items, or of exactly the named ones |
| CheckWeavingLaws.DueShows | scripts/update_lit_checks.py:402-421 | in front of a named line, the blocks stand in the order of the prefixes and are indented like the line |
| CheckWeavingLaws.RemainingShows | scripts/update_lit_checks.py:426-434 | the blocks left over at the end of a module stand prefix after prefix, without indentation |
| CheckWeavingLaws.UnnamedTakesNothing | scripts/update_lit_checks.py:406-410 | a line of an item without a name emits nothing and leaves the queues as they are |
| CheckWeavingProofs.BlockEndsAtNamedLine | scripts/update_lit_checks.py:400-424 | at a named line, each prefix's block ends with the matching item, follows only its earlier items, and goes just before the pending annotations and the line |
| CheckWeavingProofs.BlockStandsBeforeNamedLine | scripts/update_lit_checks.py:377-434 | in the finished test, behind exactly the earlier source lines of all modules, stand the group of a named line, its annotations and the line; for each prefix the group ends with the block of the line's unconsumed item |
| CheckWeavingProofs.CheckForms | scripts/update_lit_checks.py:353-363 | EMPTY checks are exactly the lines of the 29 white-space characters written out, only a first line is matched anywhere, and the text is the line, with a space in front unless it begins with one |
| CheckWeavingProofs.SeparatorsBetween | scripts/update_lit_checks.py:412-421 | a group of blocks has one empty line for each block but the first |
| CheckWeavingProofs.SeparatorsAtEnd | scripts/update_lit_checks.py:426-434 | the blocks left over at the end of a module are one such group across all prefixes |
| CheckWeavingProofs.UpToEndsWithMatch | scripts/update_lit_checks.py:413-421 | the items popped end with the first match and contain no other |
| ShellMemory.Memory.Resize | src/shell-interface.h:43-56 | the logical bytes are truncated or extended with zeros, whatever the history, the hidden tail stays zero, and the vector has at least 4096 bytes |
| ShellMemory.Memory.Set | src/shell-interface.h:57-59 | a store of any width replaces exactly its little-endian bytes |
| ShellMemory.Memory.SetBytes | src/shell-interface.h:232-238 | a store of an array of bytes replaces exactly those |
| ShellMemory.Memory.Get | src/shell-interface.h:60-62 | a load gives the little-endian value of the logical bytes, signed or not |
| ShellMemory.LittleEndianRoundTrip | src/shell-interface.h:57-62 | reading the bytes of a value gives it back |
| ShellMemory.LittleEndianAt | src/shell-interface.h:57-62 | byte i of an integer of any width is the value divided by 2^(8i), modulo 256 |
| ShellMemory.LoadAfterStore | src/shell-interface.h:57-62 | loading what was stored gives the value, for every width and signedness |
| ShellMemory.ReplayIsLatest | src/shell-interface.h:43-62 | after any run of resizes and in-bounds stores, each byte is the one of the latest store over it since it last came into being, and zero without one |
| ShellMemory.Perform | src/shell-interface.h:37-62 | any such run on the memory object, with its hidden tail, gives those logical bytes |
| ShellMemory.LoadAfterRun | src/shell-interface.h:37-62 | a load of any width and sign after any such run gives the little-endian value of the latest bytes at its addresses |
| ShellInterface.ShiftBack | src/shell-interface.h:101-103 | the shifted-back size equals the original exactly if the product did not wrap |
| ShellInterface.AcceptsExactly | src/shell-interface.h:101-105 | the 64-bit test accepts exactly the sizes of at most 0x40000000 bytes in unbounded arithmetic, and then nothing wrapped |
| ShellInterface.ShellExternalInterface.InitMemory | src/shell-interface.h:96-115 | up to 0x40000000 bytes, a memory of zeros of the exact size is added under its name; above that the host limit is reported and nothing changes |
| ShellInterface.ShellExternalInterface.Init | src/shell-interface.h:95-116 | all memories are created exactly if each is within the limit; each that no later one replaces is then full of zeros |
| ShellInterface.ShellExternalInterface.GrowMemory | src/shell-interface.h:240-263 | above 0x40000000 bytes and for an unknown name nothing changes; otherwise that memory alone is resized, and no memory ever exceeds the limit |
| ShellInterface.ShellExternalInterface.StoreInt | src/shell-interface.h:208-231 | stores reach the named memory and leave all memories valid |
| ShellInterface.ShellExternalInterface.LoadInt | src/shell-interface.h:153-200 | loads read the named memory |
| StringEscape.PrintEscape | scripts/fuzz_shell.js:132-138 | the masks and shifts print the four hexadecimal digits of a code unit |
| StringEscape.Escape | scripts/fuzz_shell.js:98-146 | the loop over code points, which splits pairs into surrogates, escapes every code unit on its own |
| StringEscape.RoundTrip | scripts/fuzz_shell.js:95-147 | reading the escaped text by the rules of section 7 of RFC 8259 gives back every sequence of code units, lone surrogates included |
| StringEscape.OnlyPrintable | scripts/fuzz_shell.js:95-147 | the escaped text has only printable ASCII |
| StringEscape.EscapeInjective | scripts/fuzz_shell.js:95-147 | different strings are printed differently |
| StringEscape.PrintsLowerDigits | scripts/fuzz_shell.js:132-138 | the digits of `\u` escapes are 0-9 or a-f |
| StringEscape.ShortestForm | scripts/fuzz_shell.js:99-138 | no printable ASCII text that denotes the string by section 7 of RFC 8259 is shorter than the escaped text |
| StringEscape.PrintedForm | scripts/fuzz_shell.js:99-138 | of the printable texts with lower-case digits that denote the string, the escaped text is the only one that is no longer than it, which fixes the form of every character |
| HashSeed.SumsAreExact | scripts/fuzz_shell.js:300 | for the values that are mixed in, -1 and array lengths, no sum of doubles is rounded |
| HashSeed.Formula | scripts/fuzz_shell.js:300-301 | for the low 32 bits p of the seed, the result is p with the low 32 bits of value + 0x9e3779b9 + 64 p + floor(p / 4) flipped in it |
| HashSeed.XorBit | scripts/fuzz_shell.js:300 | a bit is set in the exclusive disjunction if it is in one of the two alone |
| HashSeed.StoredSeed | scripts/fuzz_shell.js:300-301 | the seed that is stored is the result as a signed 32-bit integer, and reads back as the unsigned one |
| HashSeed.CombinedInRange | scripts/fuzz_shell.js:300-301 | the result is an unsigned 32-bit number |
| HashSeed.OnlyLowBitsMatter | scripts/fuzz_shell.js:300-301 | seeds that agree modulo 2^32 give the same numbers |
| HashSeed.DistinctResults | scripts/fuzz_shell.js:300-301 | from one seed, values that differ modulo 2^32 give different results |
| FuzzShell.Shell.HashCombine | scripts/fuzz_shell.js:296-302 | the new seed and the returned bits, in JavaScript's 32-bit conversions |
| FuzzShell.Shell.RandomBits | scripts/fuzz_shell.js:306-308 | the same for the value -1 |
| FuzzShell.Shell.Choose | scripts/fuzz_shell.js:655-663 | the position is in range: the last without an ordering, else the hash modulo the count |
| FuzzShell.Shell.Execute | scripts/fuzz_shell.js:665-713 | one task logs what the state machine says, is deferred in place exactly then, and updates the seed accordingly |
| FuzzShell.Shell.BuildTasks | scripts/fuzz_shell.js:584-647 | one fresh task, none shared, for each function and, unless in wasm2js, each global, in list order, and for nothing else |
| FuzzShell.Shell.Next | scripts/fuzz_shell.js:654-714 | a round over task objects refines one step of the state machine |
| FuzzShell.Shell.CallExports | scripts/fuzz_shell.js:576-715 | the loop ends, its assertion on the seed never trips, and the log is that of the state machine's whole run: every function and, unless in wasm2js, every global is called and finished, and nothing else |
| TaskScheduler.StepDecreases | scripts/fuzz_shell.js:654-714 | each round lowers two per undeferred task plus one per deferred task |
| TaskScheduler.RunTaskShape | scripts/fuzz_shell.js:665-713 | only a task that was not deferred yet can be deferred, and only with an ordering and promise integration |
| TaskScheduler.StepConsistent | scripts/fuzz_shell.js:654-714 | a round keeps every task's history in agreement with the queue |
| TaskScheduler.EachTaskOnce | scripts/fuzz_shell.js:576-715 | for any seed and any pattern of throws, promises and rejections: each function, and each global unless in wasm2js, is called once, deferred at most once and finished once; no other export has an event |
| TaskScheduler.ListOrder | scripts/fuzz_shell.js:649-659 | without an ordering, the functions and, unless in wasm2js, the globals run in list order, each ending before the next begins |
| TaskScheduler.OrderedStep | scripts/fuzz_shell.js:659-694 | with an ordering, the task at the hash of the number of tasks modulo that number is taken out and started; it goes to the end of the list exactly if promise integration is on, it was not deferred before, its call gave a promise, and the next random number is odd |
| TaskScheduler.NothingDeferred | scripts/fuzz_shell.js:675-697 | without an ordering or without promise integration nothing is deferred |
| TaskScheduler.LogIsTruthful | scripts/fuzz_shell.js:665-713 | in every run, a task is deferred only if its call gave a promise under promise integration, is reported as failed exactly if its call threw or the promise it awaited was rejected, and without a result exactly if there was none |
| Base64.DecodeBase64 | scripts/wasm2js.js:35-63 | the do-while loop decodes the filtered input group by group; an input that is the RFC 4648 encoding of some bytes, at least one, with any characters outside the alphabet anywhere in it, decodes to these bytes |
| Base64.GroupDecodes | scripts/wasm2js.js:45-61 | a group of one, two or three bytes, with its padding, decodes to those bytes |
| Base64.DecodesEncoding | scripts/wasm2js.js:35-63 | any text that the filter reduces to the RFC 4648 encoding of some bytes decodes to them if and only if there is at least one byte |
| Base64.InterspersedDecodes | scripts/wasm2js.js:35-63 | the encoding of at least one byte, with any characters outside the key string put anywhere in it, decodes to the bytes |
| Base64.EncodingUnfiltered | scripts/wasm2js.js:42-43 | the filter removes nothing from an encoding |
| Base64.KeepsKey | scripts/wasm2js.js:43 | the filter keeps exactly the 65 characters of the key string |
| Base64.ForeignIgnored | scripts/wasm2js.js:43 | a character outside the key string changes nothing, wherever it stands |
| Base64.EmptyInput | scripts/wasm2js.js:44-62 | the empty encoding decodes to three NUL characters |
| Base64.MissingReadAsA | scripts/wasm2js.js:45-48 | a text whose length is no multiple of four decodes as if `A` were appended |

## Left out

- The instruction list itself and the rewriting of action texts: names and actions are arbitrary strings and programs are values.
- GeneratorProofs.GeneratorTheorem: quoted text either means itself or makes the program incorrect; what a compiler makes of escapes, of a character constant of several bytes or of a literal that ends early is not modelled, a raw NUL between quotes means itself as compilers take it, and names hold no surrogates, which UTF-8 cannot print.
- Parse-time behaviour of actions: running an action ends the evaluation, whether or not it then reports an error.
- InstructionTrie.Node.DoInsert: its recursion passes through InsertUnder and InsertBelow, which hold the second half of the source's method body; they add no behaviour.
- WasmBinary.LEB.Write: the loop body is shared with the padded form as NextByte; widths below 8 bits do not occur in the source and are excluded.
- WasmBinary.LEB.Read: the byte source is a sequence and running out of it is an error, where the source calls back for a byte.
- Sections of 2^32 bytes or more, and offsets that do not fit 32 bits: excluded by preconditions, as the format excludes them.
- Locations.LocationsStayValid: covers the source map's list of locations; the maps of expression and function locations, which are moved by the same adjustments, and the later rebasing of code offsets to the section body are not modelled. That the writer's runs are orderly is read off its callers of startSection and is no lemma.
- Index spaces of element and data segments: single loops in the same form as the modelled ones.
- Regular expressions, splitting into modules, RUN lines, running commands and writing the file in the update script: lines come already classified, output comes as queues.
- What precedes weaving: skipping an old notice and taking options from it, and removing empty lines between old check blocks. The text of the new notice is a parameter.
- Allocation failure while a memory is created, which the source reports like the host limit.
- ShellInterface.AcceptsExactly: page-size logarithms of 64 or more, for which the C++ shift is undefined, are excluded by a precondition.
- Loads and stores out of bounds: callers check bounds before, as in the source. Vector loads of 16 bytes are read as bytes.
- The other cases of `printed`, and the `string("…")` around an escaped string.
- TaskScheduler.EachTaskOnce: a call or an await is an arbitrary outcome together with a number of random draws; what WebAssembly code does beyond that, the `call-export` imports included, is not modelled.
- The ordering is an integer; a seed that is no number does not occur. Lists of tasks have fewer than 2^32 elements, as arrays have.
- Base64.DecodeBase64: output characters are their codes, without JavaScript's reduction modulo 2^16, which cannot matter because codes stay below 2^16.
