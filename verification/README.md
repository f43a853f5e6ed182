# Verification of the minidump-to-core pipeline

minidump2core turns a captured process into an ELF core file. Captured stacks are injected
into an ordered table of memory mappings, the structures that a debugger walks (`r_debug`,
the `link_map` list, the `_DYNAMIC` array) are rebuilt as bytes, and everything is written
as program headers, notes and segment data. This project models that pipeline in Dafny and
proves that a reader of the result, an ELF loader or a debugger, gets the same meaning back.

Check it with `dafny verify dfyconfig.toml`.

## Main results

- `Pipeline.Convert`: the conversion succeeds exactly when the link map can be encoded, every
  injection succeeds and the file can be written (`CoreFormat.CanWriteExactlyWhen` and
  `LinkMap.BlobFitsExactlyWhen` say when that is). The bytes it writes are a core file of the
  class and machine of the process, from which a debugger reads back process information,
  auxiliary vector, crash, and the registers of every thread with a context. As long as the
  captures land, every byte of every capture that lasts is at its address, and `NT_FILE` gives
  every address what backed it before augmentation, where file offsets are page multiples and
  names are free of NULs. As long as blob and dynamic section can be placed where the stacks
  leave room for them, the link map can be walked. If the captures share no page and fit a
  disjoint table, all this holds (`PlaceableSuffices`), and every stack of every thread is at
  its address.
- `Pipeline.DebuggerWalksCore`: a debugger that opens the file, parses its headers, finds
  `DT_DEBUG`, follows `r_map`, then `l_next` to the end and `l_prev` back, visits exactly the
  DSO list with its addresses, and for each the name that the signatures give its address, or
  else its own.
- `Ingestion.IngestedWellFormedWhen`: module ingestion leaves a page-aligned, disjoint table
  exactly when it starts from one and the modules that it adds fill whole pages and overlap
  nothing. `IngestedCore` carries this to the program headers and to `NT_FILE`.
- `InjectionOrder.OrderIrrelevant`: every permutation of a run of injections fails with the
  run, or succeeds with the same table. `RunSucceedsWhen`: the run succeeds exactly when
  each capture, alone, goes into the table the run starts from.
- `InjectionSeen.CapturesSurvive`, `RunWrites`, `RunLeaves`: what the table shows at every
  address after a run; after every prefix of a run all captures so far are read back.
  `Survival.RunSurvivesExactlyWhen`: exactly when they are, if captures may share pages.
- `InjectionRun.RunKeepsTable`, `RunKeepsBacking`, `RunCovers`: the table stays disjoint, file
  positions and permissions behind covered addresses are kept, and exactly the pages that
  fill gaps are added. `InjectionRoom.RunKeepsDataInside`: exactly when no mapping gets more
  bytes than addresses.
- `CoreReader.FileLoadsBack`: the file loads back to one segment per mapping, and the notes.
- `FileMeaning.NtFileSurvivesAugmentation`: what `NT_FILE` says about any address after
  augmentation is what backed that address before it.
- `Registers.SegmentShowsThreads`: the general, floating-point and extended registers of every
  thread with a context are read back, each from the context that counts.
- `CoreFormat.WrittenSaysItIs`, `WrittenHasHeaders`: header and program headers of the written
  file, field by field. `CoreAccess.AugmentedAccess`: the flags of every address.
- `ScanMeaning`: exactly when the three header scans succeed, and what they give, at the offsets
  of the ELF format.
- `CrashingThread.SegmentShowsCrash`: which thread a debugger sees with the fatal signal, and
  exactly when it is the crashing one.
- `Pipeline.AugmentedCoreConforms`, `ConformsExactlyWhen`: when the program headers conform
  to the System V gABI, chapter 5, "Program Header".
- `InjectionLimits`: where injection does not meet its promises, with the exact conditions.

## How it is modelled

One module per concern; `Bytes`, `Memory`, `Model` and `Ascending` are the base. A method
follows the control flow of its Rust original and is proved against a function of its inputs
and the old state; lemmas state what that function means to a reader that is defined on its
own, with the numbers and offsets of the formats written out (`Elf.ReadPhdrs`, `Notes.ReadNotes`, `NtFile.ReadNtFile`, `CoreReader.Load`,
`DynamicSection.FindDebug`, `LinkMap.WalkNext`, `InjectionStep.ByteAt`,
`InjectionStep.BackingAt`).

- The `BTreeMap` of mappings is a `map`, visited in ascending key order. `MappingTable` and
  `CrashedProcess` are classes; `patch_dt_debug` works in place on an array; the `Write`
  argument of the writers is a `Sink` that is appended to.
- Strings are byte sequences. `usize` has 64 bits. `checked_add` and `try_from` are explicit.
  Additions and subtractions that the source leaves unchecked are exact, and a result that
  does not fit is the failure `ArithmeticPanic`: a build with overflow checks stops there.
- There are two conditions on a run over a table that is page-aligned, disjoint and keyed by
  start (`WellFormed`), which may hold bytes captured before. `Reaches`: every capture has
  bytes and, at its turn, either begins in a mapping or no mapping begins in its pages;
  exactly these runs keep the table `WellFormed` at every turn (`ReachesExactlyWhen`).
  `Placeable`, the stronger one: captures share no page and every mapping holds all the pages
  of a capture or none. It is asked for only where order, success or sizes need it. A capture
  `Lasts` when it fits at its turn and no later one shares a page with it.
- Ingestion does not promise a `WellFormed` table: `Ingestion.ModulesMayOverlap` is an input,
  `IngestedWellFormedWhen` the exact condition.

## Where the code and its promises differ

- tests/augment_tests.rs:50-68 expects every capture to go into an empty table. A capture
  without bytes at a page boundary is refused: `InjectionLimits.EmptyTableAccepts` gives the
  exact condition and `EmptyCaptureRefused` an input.
- Two stacks on one page: the later replaces the page and what follows it in the mapping.
  `SharedPageLosesBytes` is an input, `SurvivesExactlyWhen` the exact condition for one later
  capture, `RunSurvivesExactlyWhen` for a whole run.
- A capture that runs past the mapping it starts in gives a segment with more file bytes
  than memory: `PastItsMapping` is an input, `InjectKeepsDataInside` the exact condition. A
  split does not shorten the bytes of the mapping below it: `RunKeepsDataInside` is the exact
  condition for a whole run, and `ConformsExactlyWhen` what it means for the program headers.
- A split hides the bytes that its mapping showed above the capture: `RunLeaves` says at which
  addresses. `InTheMiddle` is an input for this and for the bytes of the mapping below.
- A capture in a gap may run into the next mapping: `IntoTheNext` is an input,
  `InjectKeepsTable` the exact condition.
- A failed injection may have shortened a mapping already: `ShortenedByFailure` is an input,
  `FailureShortens` the exact condition.
- The fatal signal is lost when the first thread of the order has no context
  (`ContextlessCrash`), and goes to another thread when none has the crashing id
  (`AbsentCrash`). `SegmentShowsCrash` gives the exact conditions for both, as a note reader
  sees them.
- Two modules may overlap or leave pages unaligned: `ModulesMayOverlap` is an input,
  `IngestedWellFormedWhen` the exact condition.
- When several threads have the crashing id all but one are dropped: `DuplicateCrash` is an
  input, `OrderIsPermutation` the exact condition.
- The comment at src/model.rs:373-375 says that `insert_mapping` preserves an existing entry;
  the code replaces it. `InsertionReplaces` is an input, `InsertionPreservesWhen` the exact
  condition. The preference for maps over modules that the comment speaks of does hold, by
  `insert_mapping_if_absent`: `MapsArePreferred`.

## Model

| member | source | states |
|---|---|---|
| Bytes.ReadLE | src/rust_minidump.rs:742-761 | A little-endian read succeeds exactly when the word lies in the buffer |
| Bytes.ReadBack | src/rust_minidump.rs:742-761 | A word written little-endian is read back unchanged |
| Bytes.LEByte | src/rust_minidump.rs:742-761 | Byte i of a word is its digit of weight 256 to the power of i |
| Bytes.PushWord | src/augment.rs:318-327 | Appends a target word; rejected exactly when the value does not fit the width (also src/notes.rs:223-236) |
| Ascending.Keys | src/model.rs:320-321 | The table is visited in strictly ascending key order, each key once |
| Model.AlignDown | src/model.rs:445-450 | The greatest multiple at or below the value; refused for alignment zero |
| Model.AlignUp | src/model.rs:427-438 | The least multiple at or above the value; refused for alignment zero or when it does not fit 64 bits |
| Model.AlignedIsMultiple | src/model.rs:422-450 | Alignment as counted in pages is divisibility by the page size |
| Model.AlignedBetween | src/model.rs:422-450 | Rounding down and up are the only multiples within a page below and above |
| Model.PaddedVec | src/model.rs:452-473 | Zeros, the data and zeros up to the alignment; fails exactly when the padded length does not fit |
| Model.PaddedFillsPages | src/augment.rs:28-33 | For every page size, address and data, the padded length is the distance between the page bounds of the capture |
| Mappings.FindContaining | src/augment.rs:35-37 | The least key whose mapping contains the address, or none |
| Mappings.MappingTable.FindKey | src/augment.rs:35-37 | The search loop computes that key |
| Mappings.MappingTable.SplitAt | src/augment.rs:39-61 | New state and outcome of splitting a mapping in place, error paths included |
| Mappings.MappingTable.AddSynthetic | src/augment.rs:63-74 | New state and outcome of adding an anonymous mapping |
| Mappings.MappingTable.AddData | src/augment.rs:22-75 | New state and outcome of one injection, for every table, capture and page size |
| InjectionStep.FindsOwner | src/augment.rs:35-37 | In a disjoint table the search finds the one mapping that covers the address |
| InjectionStep.InjectKeepsTable | src/augment.rs:22-75 | The table stays page-aligned, disjoint and keyed by start exactly when a mapping is split or no mapping begins in the pages of the capture |
| InjectionStep.InjectKeepsDataInside | src/augment.rs:39-61 | No mapping gets more bytes than addresses, exactly when the capture ends in the mapping it splits and that one has no bytes from there on |
| InjectionStep.InjectBytes | src/augment.rs:22-75 | Every byte visible after an injection, at every address |
| InjectionStep.InjectBacking | src/augment.rs:39-61 | File, file position and permissions behind every address are kept; a gap becomes anonymous memory on exactly the pages of the capture |
| InjectionStep.SyntheticIsFilled | src/augment.rs:63-74 | A synthetic mapping holds as many bytes as addresses, whole pages, the capture at its own addresses and zeros around it |
| InjectionRun.PlaceableReaches | src/augment.rs:90-105 | Captures that fit and share no page land, each at its turn |
| InjectionRun.ReachesExactlyWhen | src/augment.rs:22-75 | A run keeps the table page-aligned, disjoint and keyed by start at every turn exactly when each capture, at its turn, begins in a mapping or no mapping begins in its pages |
| InjectionRun.RunKeepsTable | src/augment.rs:90-105 | Such a run leaves the table page-aligned, disjoint and keyed by start, whatever bytes it held |
| InjectionRoom.RunKeepsDataInside | src/augment.rs:39-61 | A run of page-disjoint captures that fit leaves no mapping with more bytes than addresses exactly when the bytes of every mapping end before the captures that split it, or it is replaced from its start |
| InjectionSeen.PlaceableLasts | src/augment.rs:90-105 | Captures that fit and share no page last |
| InjectionSeen.RunWrites | src/augment.rs:90-105 | After a run the pages of each capture that lasts show that capture, whatever they held before and whatever the other captures do to each other |
| InjectionSeen.RunLeaves | src/augment.rs:39-61 | Outside the pages of the captures a run hides exactly what lies above a capture in the same mapping, and shows the rest as before |
| InjectionSeen.CapturesSurvive | src/augment.rs:90-105 | After every prefix of a run each byte of each capture so far is read back at its address |
| InjectionRun.RunKeepsBacking | src/augment.rs:39-61 | No run whose captures land, on shared pages or not, changes the file position or permissions behind a covered address |
| InjectionRun.RunCovers | src/augment.rs:63-74 | Such a run covers with anonymous memory exactly the uncovered addresses in the pages of captures that lie in a gap at their turn |
| InjectionRun.PlaceableFills | src/augment.rs:63-74 | For page-disjoint captures that fit, these are all uncovered addresses in the pages of the captures |
| InjectionOrder.SucceedsWhen | src/augment.rs:22-75 | An injection fails exactly on arithmetic: sizes, split offset or end of the address space |
| InjectionOrder.InjectionsCommute | src/augment.rs:22-105 | Two page-disjoint captures that fit give the same table in either order, and both orders succeed or neither |
| InjectionOrder.OrderIrrelevant | src/augment.rs:22-105 | The same for every permutation of a whole run |
| InjectionOrder.RunSucceedsWhen | src/augment.rs:22-105 | A whole run of such captures succeeds exactly when each of them, alone, goes into the table the run starts from |
| InjectionLimits.EmptyTableAccepts | tests/augment_tests.rs:50-68 | When an empty table accepts a capture, exactly |
| InjectionLimits.EmptyCaptureRefused | tests/augment_tests.rs:50-68 | A capture without bytes at a page boundary is refused |
| InjectionLimits.FailureShortens | src/augment.rs:45-54 | A failure leaves the table unchanged, except that an offset overflow has already shortened the mapping |
| InjectionLimits.SurvivesExactlyWhen | src/augment.rs:57-59 | An earlier capture survives a later injection exactly when the later one shows the same bytes wherever it replaces them |
| Survival.RunSurvivesExactlyWhen | src/augment.rs:90-105 | All captures so far are read back whole after every prefix of a run exactly when each, at its turn, is seen whole at once and shows the same bytes wherever it replaces earlier ones |
| InjectionLimits.PlaceableRunExists | src/augment.rs:22-105 | A capture in a file mapping and one in a gap meet all the conditions on a run, and it succeeds |
| InjectionLimits.SharedPageLosesBytes | src/augment.rs:57-59 | Two captures on one page: the byte of the first reads zero |
| InjectionLimits.PastItsMapping | src/augment.rs:28-61 | An input: a capture that runs past its mapping leaves more bytes than addresses |
| InjectionLimits.InTheMiddle | src/augment.rs:39-61 | An input: after a split in the middle of a mapping full of bytes, the part below has more bytes than addresses and the part above has lost them |
| InjectionLimits.IntoTheNext | src/augment.rs:63-74 | An input: a capture in a gap runs into the next mapping and the table overlaps |
| InjectionLimits.ShortenedByFailure | src/augment.rs:45-54 | An input: the offset overflows, and the mapping has already lost its end |
| Ingestion.InsertMappingIfAbsent | src/model.rs:379-384 | The table with the mapping, unless one begins there |
| Ingestion.InsertionPreservesWhen | src/model.rs:373-384 | Insertion preserves every entry exactly when nothing else began at that address; insertion if absent always does |
| Ingestion.InsertionReplaces | src/model.rs:373-378 | An input: the existing entry is replaced |
| Ingestion.IngestModules | src/rust_minidump.rs:387-407 | Table and names after the module loop; stops exactly when the end of a module does not fit 64 bits |
| Ingestion.MapsArePreferred | src/rust_minidump.rs:393-404 | No existing mapping changes; at any other address the first module with bytes gets its mapping, and there are no further ones |
| Ingestion.IngestedWellFormedWhen | src/rust_minidump.rs:387-407 | The table is page-aligned and disjoint exactly when it was before, every added module fills whole pages, and none overlaps a mapping or another added module |
| IngestedCore.IngestedMapsFiles | src/rust_minidump.rs:398-404 | File offsets stay page multiples and names NUL-free exactly when the maps have this and the names of the added modules are NUL-free |
| IngestedCore.IngestedBacking | src/rust_minidump.rs:398-404 | What backs every address after ingestion: the maps as before, and each added module from its base on |
| IngestedCore.IngestedCoreConforms | src/core_writer.rs:50-122 | From maps without bytes and modules that fit, after any run of page-disjoint captures that fit, every PT_LOAD conforms and they are sorted |
| IngestedCore.IngestedFilesAreWritten | src/notes.rs:177-221 | NT_FILE, as read from the written file, gives an address in an added module its name and distance from the base, and any other address what the maps give it |
| Ingestion.LastNameWins | src/rust_minidump.rs:406-406 | A base is known by the name of its last module |
| Ingestion.OtherNamesStay | src/rust_minidump.rs:406-406 | The names of other bases stay |
| Ingestion.ModulesMayOverlap | src/rust_minidump.rs:398-404 | An input where this fails: two modules give an unaligned, overlapping table |
| LinkMap.NextRecord | src/augment.rs:241-268 | The pointers computed from the running length are the addresses of the neighbouring records and of the name |
| LinkMap.PushRecord | src/augment.rs:270-280 | Five words, the name and at least one NUL up to a multiple of eight; rejected exactly when a word does not fit |
| LinkMap.PushHeader | src/augment.rs:221-238 | The r_debug structure; rejected exactly when a word does not fit |
| LinkMap.BuildLinkMapBlob | src/augment.rs:216-284 | The whole blob; fails exactly when some word does not fit the target |
| LinkMap.HeaderReads | src/augment.rs:227-237 | A debugger reads back version, r_map, r_brk, a zero r_state and r_ldbase |
| LinkMap.BlobIsLinked | src/augment.rs:240-281 | A memory that holds the blob holds a null-ended doubly linked list of readable records |
| LinkMap.WalkRecoversLinkMap | src/augment.rs:216-303 | From r_map, l_next visits all records in order and ends at null; l_prev from the last visits them in reverse |
| LinkMap.VisitedIsEntry | src/augment.rs:242-245 | Each visited record carries the entry's address and dynamic section, and the name that the signatures give its address, or else its own, up to a NUL |
| LinkMap.NameBlockIs | src/augment.rs:276-280 | A name is followed by one to eight NULs, up to a multiple of eight |
| LinkMap.BlobFitsExactlyWhen | src/augment.rs:318-327 | If the blob ends inside the address space of the target, it can be encoded exactly when brk, ldbase and every address fit a word |
| DynamicSection.DebugEntry | src/augment.rs:171-189 | The first DT_DEBUG that no DT_NULL precedes, or none |
| DynamicSection.ReadTag | src/augment.rs:192-202 | The tag of the entry at an offset |
| DynamicSection.WriteWord | src/augment.rs:204-213 | Writes one word in place; rejected exactly when the value does not fit |
| DynamicSection.PatchDtDebug | src/augment.rs:165-190 | The loop ends, keeps the length and leaves the patched array; on failure nothing changes |
| DynamicSection.PatchedEntries | src/augment.rs:163-190 | A reader sees the same entries but for the value of that DT_DEBUG entry |
| DynamicSection.PatchedElsewhere | src/augment.rs:163-190 | Exactly the second word of that DT_DEBUG entry is replaced; without such an entry nothing changes |
| DynamicSection.DebuggerFindsPatch | src/augment.rs:157-164 | A debugger that scans the patched array in memory finds the new address |
| Augment.InjectStacks | src/augment.rs:89-105 | The stack loop leaves the table of the run over the non-empty stacks |
| Augment.CapturesAre | src/augment.rs:95-142 | The captures in the fields of the process: the stack of every thread that has one, at its address and in thread order; the blob at 4096 if anything of the link map was captured; the patched dynamic section if it was captured and has an address |
| Augment.StackIsCaptured | src/augment.rs:95-105 | Every stack of every thread is among the captures |
| Augment.InjectDso | src/augment.rs:107-142 | The blob and the patched dynamic section are injected, in that order |
| Augment.AugmentProcess | src/augment.rs:86-155 | Succeeds exactly when the blob can be encoded and the whole run succeeds; the table is then that of the run |
| Augment.StacksFirst | src/augment.rs:86-142 | The pass is the run over the stacks followed by the run over blob and dynamic section, and what can be placed at once can be placed after the stacks |
| Augment.DebuggerWalksTable | src/augment.rs:86-155 | If blob and dynamic section can be placed in the table that the stacks leave, a debugger that reads memory through the augmented table reads r_debug, finds the dynamic section with DT_DEBUG at 4096, and walks the link map both ways, with every address and name |
| Elf.ElfHeader.Write | src/elf.rs:77-111 | Appends the header image of the class |
| Elf.ProgramHeader.Write | src/elf.rs:142-163 | Appends the entry; fails exactly when an ELF32 field cannot hold its value |
| Elf.WriteElf32Word | src/elf.rs:166-168 | Rejects exactly the values beyond 32 bits |
| Elf.HeaderReads | src/rust_minidump.rs:680-692 | The header scan recovers e_phoff, e_phentsize and e_phnum as they were written, in both classes |
| Elf.HeaderIdentifies | src/elf.rs:77-86 | Magic, class, byte order, type, machine and version are where a reader looks for them |
| Elf.HeaderFields | src/elf.rs:87-111 | So is every other field: no entry point and no sections, program headers right behind, and the sizes of the class |
| Elf.ReaderUndoesWriter | src/rust_minidump.rs:697-712 | At the offsets the scan computes, every field of every entry reads as it was written |
| Elf.ReadsBackPhdrs | src/rust_minidump.rs:680-712 | Reading a file that begins with a written header and table returns exactly that table |
| Notes.PadTo | src/notes.rs:68-73 | Zeros up to the next multiple of the alignment |
| Notes.Build | src/notes.rs:33-55 | The note image with a terminated name; sizes beyond 32 bits stop the program |
| Notes.ImageAligned | src/notes.rs:1-5 | Every note image is a multiple of four |
| Notes.NoteReads | src/elf.rs:187-192 | A note reader finds name, type and descriptor, and where the next note begins |
| Notes.NotesRoundTrip | src/core_writer.rs:149-190 | Walking the bytes of any sequence of notes recovers exactly that sequence |
| NtFile.CollectFileBacked | src/notes.rs:182-190 | The mappings with a file, in table order |
| NtFile.BuildNtFilePayload | src/notes.rs:177-221 | The payload; fails exactly when a field does not fit the width of the target |
| NtFile.NtFileRoundTrip | src/notes.rs:160-171 | For NUL-free names, a reader gets every range with its addresses, path and file offset rounded down to a page |
| NtFile.PayloadBegins | src/notes.rs:198-201 | The payload begins with the number of ranges and 4096 |
| NtFile.FileBackedKeepsOrder | src/notes.rs:182-190 | The list holds exactly the file-backed mappings, in ascending order |
| FileMeaning.RangesLocate | src/notes.rs:203-215 | Looking up an address in NT_FILE gives the file and position that back it, and none to any other address |
| FileMeaning.NtFileSurvivesAugmentation | src/augment.rs:39-61 | After any run whose captures land, on shared pages or not, NT_FILE gives every address the place that backed it before the run |
| ThreadNotes.BuildPrstatus | src/notes.rs:113-158 | The status descriptor |
| ThreadNotes.PrstatusReads | src/notes.rs:113-158 | A reader finds signal, current signal (0x7fff if it does not fit 16 bits), thread id, registers and floating-point flag; the size is a multiple of the word |
| ThreadNotes.PrstatusRest | src/notes.rs:113-158 | All other bytes of a status are zero |
| ThreadNotes.OrderThreads | src/core_writer.rs:165-177 | Builds the order of the threads |
| ThreadNotes.OrderIs | src/core_writer.rs:165-177 | The order is the first thread of the crashing id and then every thread of another id in the original order |
| ThreadNotes.CrashingFirst | src/core_writer.rs:165-177 | With one crashing thread, it is first and the rest keep their order |
| ThreadNotes.OrderIsPermutation | src/core_writer.rs:165-177 | No thread is lost or repeated exactly when at most one has the crashing id |
| ThreadNotes.StatusPerThread | src/core_writer.rs:179-187 | NT_PRSTATUS notes match one to one, in order, the threads that have a context; only the first has the fatal signal and exception context |
| NoteSegment.WriteThreadNotes | src/core_writer.rs:192-215 | Appends the notes of one thread; fails exactly on a foreign context or an oversized note |
| NoteSegment.BuildNoteSegment | src/core_writer.rs:149-190 | Process info, auxv, NT_FILE, then the threads; succeeds exactly when every note can be built |
| NoteSegment.SegmentReadsBack | src/core_writer.rs:149-190 | A note reader recovers from the segment exactly the notes called for |
| Registers.SegmentShowsThreads | src/core_writer.rs:192-215 | A reader that opens a thread at each status recovers, in order, every thread with a context: id, registers, floating-point and extended registers if any, from the context that counts; the flag says whether floating-point registers follow |
| CrashingThread.ThreadNotesShowCrash | src/core_writer.rs:179-202 | Every status is readable; the fatal signal is in one exactly when the first thread of the order has a context; it is the crashing thread's, and the crashing thread has the first status, exactly when some thread has its id and the first that has it has a context |
| CrashingThread.SegmentShowsCrash | src/core_writer.rs:149-190 | The same, as a note reader sees it in the bytes of the segment |
| CrashingThread.ContextlessCrash | src/core_writer.rs:199-202 | An input: the crashing thread has no context and the signal is lost |
| CrashingThread.AbsentCrash | src/core_writer.rs:165-187 | An input: no thread has the crashing id and another thread has the signal |
| CrashingThread.DuplicateCrash | src/core_writer.rs:165-177 | An input: of two threads with the crashing id one is dropped |
| CoreWriter.SegmentFlags | src/core_writer.rs:102-110 | Flag bits mean execute, write and read; no permissions at all read as readable |
| CoreWriter.ComputeLayout | src/core_writer.rs:32-72 | The file offsets, computed before anything is written |
| CoreWriter.WriteLoadPhdrs | src/core_writer.rs:90-122 | One PT_LOAD per mapping with a running offset; fails exactly when a field does not fit |
| CoreWriter.WriteDatas | src/core_writer.rs:135-140 | The captured bytes in table order |
| CoreWriter.WriteCore | src/core_writer.rs:26-143 | Succeeds exactly when notes, counts, offsets and fields are representable, and then appends the whole file |
| CoreFormat.CanWriteExactlyWhen | src/core_writer.rs:26-143 | Writing succeeds exactly when file ranges, contexts, note sizes, header count, offsets and, on 32 bits, all fields fit |
| CoreFormat.WrittenSaysItIs | src/core_writer.rs:37-41 | The file has class, byte order, type and machine number of the architecture of the process, and its notes have words of that class |
| CoreFormat.WrittenHasHeaders | src/core_writer.rs:43-122 | Every field of every program header, notes right behind the table, zeros up to the next page, then the captured bytes of each mapping in turn |
| CoreFormat.WrittenOn32Bits | src/elf.rs:151-168 | On 32 bits start, size, captured bytes and file offset of every mapping of a written file fit 32 bits |
| CoreReader.FileLoadsBack | src/core_writer.rs:26-143 | A loader gets one segment per mapping in table order with address, size, flags and bytes, and exactly the notes |
| CoreReader.FileRangeInside | src/core_writer.rs:45-100 | The range of every mapping lies behind headers and notes and inside the file; one without bytes is empty and points to the end |
| CoreReader.FileRangesApart | src/core_writer.rs:92-100 | The ranges of any two mappings do not overlap and follow the order of the table |
| CoreNotes.FixedAreWritten | src/core_writer.rs:149-163 | In the written file process information, auxiliary vector and NT_FILE come first, and are found by their type numbers |
| CoreNotes.CrashIsWritten | src/core_writer.rs:149-190 | In the written file a reader sees the crash |
| CoreNotes.ThreadsAreWritten | src/core_writer.rs:192-215 | In the written file a reader recovers the registers of every thread with a context |
| CoreNotes.FilesAreWritten | src/augment.rs:39-61 | NT_FILE, as read from the written file, gives every address what backed it before augmentation |
| Pipeline.ConformsExactlyWhen | src/core_writer.rs:50-122 | After any run over whole pages of bytes the PT_LOADs are sorted, and all conform exactly when the bytes of every mapping end before the captures that split it, or it is replaced from its start |
| Pipeline.AugmentedCoreConforms | src/core_writer.rs:50-122 | From mappings without bytes, after any run, every PT_LOAD has no more file bytes than memory, offset and address agree modulo the alignment, and they are sorted |
| Pipeline.CoreShowsTable | src/core_writer.rs:26-143 | The written file, read as a memory, shows at every address what the table shows |
| CoreAccess.CoreShowsAccess | src/core_writer.rs:102-110 | A loader maps every address of the table, and no other, with the flags of its permissions |
| CoreAccess.AugmentedAccess | src/augment.rs:63-73 | Augmentation keeps the flags of every address; what fills a gap has flags 6 |
| CoreAccess.IngestedAccess | src/rust_minidump.rs:399-399 | The addresses of ingested modules have flags 4 |
| Pipeline.CoreShowsCaptures | src/augment.rs:90-105 | Every byte of every capture that lasts is in the core file at its own address |
| Pipeline.DebuggerWalksCore | src/augment.rs:86-155 | Under the same condition a debugger finds DT_DEBUG in the written core file and recovers the link map both ways |
| Pipeline.PlaceableSuffices | src/augment.rs:86-155 | Page-disjoint captures that fit meet every condition that the results on the written file ask for |
| Pipeline.WrittenHoldsStacks | src/augment.rs:95-105 | If the captures share no page and fit, the stack of every thread that has one is in the file, at its address |
| Pipeline.WrittenIsFaithful | src/main.rs:75-88 | From the written file a debugger gets class and machine, notes, crash and registers always; every lasting capture and the file behind every address if the captures land; every stack if they share no page and fit; the link map if blob and dynamic section can be placed |
| Pipeline.Convert | src/main.rs:75-88 | Succeeds exactly when augmentation and writing can; the bytes are then the whole file, and faithful in that sense |
| ElfScan.ElfDynamicRuntimeAddr | src/rust_minidump.rs:617-658 | The scan loop computes the address from the first PT_LOAD and the last PT_DYNAMIC, with every failure |
| ElfScan.ReadExecutableDynamic | src/rust_minidump.rs:672-735 | The second scan computes the dynamic bytes, the address and the bias |
| ElfScan.ScansAgree | src/rust_minidump.rs:617-736 | The second scan succeeds exactly when the first does and offsets, sizes and the file range are readable; the addresses are equal |
| ScanMeaning.RuntimeAddressNeeds | src/rust_minidump.rs:617-658 | The first scan succeeds only on a file of the class with readable entries, a PT_LOAD and a PT_DYNAMIC |
| ScanMeaning.RuntimeAddressIs | src/rust_minidump.rs:639-658 | It then gives load base minus the address of the first PT_LOAD plus that of the last PT_DYNAMIC, unless a step leaves 64 bits |
| ScanMeaning.ExecutableDynamicNeeds | src/rust_minidump.rs:672-716 | The second scan needs file offsets and sizes of all entries as well |
| ScanMeaning.ExecutableDynamicIs | src/rust_minidump.rs:717-735 | It then gives the file bytes of the last PT_DYNAMIC, its run-time address and the bias, exactly if they are in range |
| ElfScan.BuildSyntheticAuxv | src/rust_minidump.rs:782-856 | The third scan computes the auxiliary vector, with every failure |
| ElfScan.AuxvReads | src/rust_minidump.rs:829-856 | A reader finds AT_PHDR, AT_ENTRY and the terminator, moved by the bias that moves the dynamic section |
| ScanMeaning.AuxvNeeds | src/rust_minidump.rs:782-838 | The third scan succeeds only on a file of the class with readable entries, a PT_LOAD and an entry point |
| ScanMeaning.AuxvIs | src/rust_minidump.rs:829-856 | It then gives 3 with the address of the last PT_PHDR, or e_phoff if there is none, and 9 with the entry point, both moved by the bias, then 0, exactly if they fit the word |
| SharedLib.LooksLikeSharedLib | src/rust_minidump.rs:471-493 | The loop ends, and accepts exactly the names of the form prefix, ".so", any number of dots each followed by digits |

## Left out

- Reading files, command line, verbose output and `std::io` errors: input and output only; bytes are passed in as sequences.
- Decoding of minidump streams (`minidump`, `minidump-common`, `procfs-core`, `scroll`): these crates are not part of this model, so the link-map array and MDString readers, which depend on their structures, are left out too.
- src/linux_maps.rs: parsing of maps text; a line parser that no other result rests on.
- src/regs.rs: a context is known only by the register payloads serialised from it, or by the error that it belongs to another architecture.
- `build_prpsinfo`, `signature_for`, `guid_from_module`, `architecture_from_cpu_os`, `apply_cmdline`, `apply_module_name_fallback`: field lists, formatting, tables and one-step updates. A module comes with the name that `signature_for` gives it. The process-info descriptor is an input.
- Choice of files on disk in the header scans: the scans are modelled from the bytes on.
- LinkMap.WalkRecoversLinkMap: takes it that the blob ends inside the 64-bit address space, which holds for every allocation, and proves it from success of the injection where the blob is injected.
- LinkMap.VisitedIsEntry: a name that contains a NUL is seen up to that NUL; equality with the whole name is stated for NUL-free names.
- NtFile.NtFileRoundTrip: stated for NUL-free names, because the format has no other terminator.
- Bytes.ReadLE: an offset whose end overflows 64 bits reads nothing; a build with overflow checks stops there.
- Notes.Build: the panic on sizes beyond 32 bits is an ordinary failure here.
- What a failed writer has already appended to its output is not described.
