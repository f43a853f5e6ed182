/** From captures to core file to debugger: what the whole pipeline preserves. */
module Pipeline {
  import opened Bytes
  import opened Model
  import opened Memory
  import Ascending
  import opened Mappings
  import opened InjectionStep
  import opened InjectionRun
  import opened InjectionSeen
  import opened InjectionRoom
  import opened LinkMap
  import opened DynamicSection
  import opened Process
  import opened Augment
  import opened Elf
  import NoteSegment
  import opened CoreWriter
  import opened CoreReader
  import opened Notes
  import opened FileMeaning
  import opened CrashingThread
  import opened Registers
  import ThreadNotes
  import opened CoreFormat
  import opened CoreNotes

  // ---------- whole pages of captured bytes ----------

  ghost predicate NoData(t: Table) {
    forall k :: k in t ==> t[k].data == []
  }

  ghost predicate WholePages(t: Table, page: nat)
    requires page > 0
  {
    forall k :: k in t ==> Aligned(|t[k].data|, page)
  }

  /** A table without captured bytes meets the conditions on bytes, whatever the captures. */
  lemma NoDataIsBounded(t: Table, cs: seq<Capture>, page: nat)
    requires page > 0 && NoData(t) && Placeable(t, cs, page)
    ensures AllBounded(t, cs, page) && WholePages(t, page)
  {
    forall k | k in t
      ensures Bounded(t, k, cs, page)
    {
      assert Placed(k, t[k], page);
    }
  }

  lemma StepWholePages(t: Table, c: Capture, page: u64)
    requires page > 0 && WellFormed(t, page) && WholePages(t, page) && c.data != []
    requires Inject(t, c, page).outcome.Ok?
    ensures WholePages(Inject(t, c, page).table, page)
  {
    hide Inject, WellFormed, PaddedCapture;
    var F, bytes := First(c, page), PaddedCapture(c, page);
    InjectShape(t, c, page);
    SpanFacts(c, page);
    AlignedSum(F, |bytes|, page);
    if Covered(t, c.address) {
      SplitData(t, Owner(t, c.address), F, bytes);
    }
  }

  lemma SplitData(t: Table, k: u64, at: u64, data: seq<byte>)
    requires k in t && Split(t, k, at, data).outcome.Ok?
    ensures var t' := Split(t, k, at, data).table;
            forall j :: j in t' ==> t'[j].data == data || (j in t && t'[j].data == t[j].data)
  {
  }

  lemma {:induction false} RunWholePages(t: Table, cs: seq<Capture>, page: u64)
    requires page > 0 && Placeable(t, cs, page) && WholePages(t, page)
    requires InjectAll(t, cs, page).outcome.Ok?
    ensures WholePages(InjectAll(t, cs, page).table, page)
    decreases |cs|
  {
    if cs == [] {
    } else {
      StepPlaceable(t, cs, page);
      StepWholePages(t, cs[0], page);
      RunWholePages(Inject(t, cs[0], page).table, cs[1..], page);
    }
  }

  // ---------- conformance of the program headers ----------

  /** gABI chapter 5, "Program Header": a segment has at most as many bytes in the file as in
      memory, and its offset and address agree modulo its alignment. */
  predicate Conforms(p: ProgramHeader) {
    p.filesz <= p.memsz && p.align > 0 && p.offset % p.align == p.vaddr % p.align
  }

  lemma LoadStartAligned(h: ElfHeader, notes: seq<byte>, ms: seq<Mapping>)
    ensures Aligned(LayoutOf(h, notes, ms).loadStart, DEFAULT_PAGE_SIZE)
  {
    hide Aligned, Flatten;
    var lay := LayoutOf(h, notes, ms);
    assert lay.loadStart % 4096 == 0;
    AlignedIsMultiple(lay.loadStart, DEFAULT_PAGE_SIZE);
  }

  lemma {:induction false} DataOffsetAligned(h: ElfHeader, notes: seq<byte>, ms: seq<Mapping>, i: nat)
    requires i <= |ms| && forall j :: 0 <= j < |ms| ==> Aligned(|ms[j].data|, DEFAULT_PAGE_SIZE)
    ensures Aligned(DataOffset(ms, LayoutOf(h, notes, ms), i), DEFAULT_PAGE_SIZE)
  {
    hide Aligned, Flatten, LayoutOf;
    if i == 0 {
      FlattenNone(Datas(ms));
      LoadStartAligned(h, notes, ms);
    } else {
      DataOffsetAligned(h, notes, ms, i - 1);
      FlattenNext(Datas(ms), i - 1);
      AlignedSum(|ms[i - 1].data|, DataOffset(ms, LayoutOf(h, notes, ms), i - 1), DEFAULT_PAGE_SIZE);
    }
  }

  lemma ValueFacts(t: Table, i: nat)
    requires i < |Values(t)| && WellFormed(t, DEFAULT_PAGE_SIZE) && WholePages(t, DEFAULT_PAGE_SIZE)
    ensures var m := Values(t)[i];
            && m.start in t && t[m.start] == m && m.start < m.end
            && Aligned(m.start, DEFAULT_PAGE_SIZE) && Aligned(|m.data|, DEFAULT_PAGE_SIZE)
  {
    hide Aligned, Values;
    var k := Ascending.Keys(t.Keys)[i];
    assert Placed(k, t[k], DEFAULT_PAGE_SIZE);
  }

  /** The PT_LOAD of a mapping in a well-formed table whose captured bytes are whole pages
      conforms exactly when the mapping holds no more bytes than addresses. */
  lemma LoadConforms(h: ElfHeader, notes: seq<byte>, t: Table, i: nat)
    requires WellFormed(t, DEFAULT_PAGE_SIZE) && WholePages(t, DEFAULT_PAGE_SIZE)
    requires Writable(h, notes, Values(t)) && i < |Values(t)|
    ensures Conforms(LoadPhdrs(h, notes, Values(t))[i]) <==>
            |Values(t)[i].data| <= Values(t)[i].end - Values(t)[i].start
  {
    hide Aligned, Flatten, LayoutOf, Writable, Values, WellFormed, LoadPhdrs;
    var ms, lay := Values(t), LayoutOf(h, notes, Values(t));
    forall j | 0 <= j < |ms|
      ensures Aligned(|ms[j].data|, DEFAULT_PAGE_SIZE)
    {
      ValueFacts(t, j);
    }
    ValueFacts(t, i);
    LoadAt(h, notes, ms, i);
    DataOffsetAligned(h, notes, ms, i);
    DataOffsetAligned(h, notes, ms, |ms|);
    FlattenAll(Datas(ms));
    FileEndIs(h, notes, ms);
    AlignedIsMultiple(DataOffset(ms, lay, i), DEFAULT_PAGE_SIZE);
    AlignedIsMultiple(lay.fileEnd, DEFAULT_PAGE_SIZE);
    AlignedIsMultiple(ms[i].start, DEFAULT_PAGE_SIZE);
  }

  ghost predicate AllConform(h: ElfHeader, notes: seq<byte>, ms: seq<Mapping>)
    requires Writable(h, notes, ms)
  {
    forall i :: 0 <= i < |ms| ==> Conforms(LoadPhdrs(h, notes, ms)[i])
  }

  ghost predicate ListedInside(ms: seq<Mapping>) {
    forall i :: 0 <= i < |ms| ==> |ms[i].data| <= ms[i].end - ms[i].start
  }

  /** The table and its listing agree on who has too many bytes. */
  lemma ListingAgrees(t: Table)
    ensures DataInside(t) <==> ListedInside(Values(t))
  {
    hide Values;
    if ListedInside(Values(t)) {
      forall k | k in t
        ensures |t[k].data| <= t[k].end - t[k].start
      {
        TableIsListed(t, k);
      }
    }
  }

  lemma TableConforms(h: ElfHeader, notes: seq<byte>, t: Table)
    requires WellFormed(t, DEFAULT_PAGE_SIZE) && WholePages(t, DEFAULT_PAGE_SIZE) && Writable(h, notes, Values(t))
    ensures AllConform(h, notes, Values(t)) <==> DataInside(t)
  {
    hide Writable, Values, WellFormed, LoadPhdrs, Conforms, DataInside, Ascending.Keys;
    ListingAgrees(t);
    forall i | 0 <= i < |Values(t)|
      ensures Conforms(LoadPhdrs(h, notes, Values(t))[i]) <==>
              |Values(t)[i].data| <= Values(t)[i].end - Values(t)[i].start
    {
      LoadConforms(h, notes, t, i);
    }
  }

  lemma FileEndIs(h: ElfHeader, notes: seq<byte>, ms: seq<Mapping>)
    ensures var lay := LayoutOf(h, notes, ms); lay.fileEnd == DataOffset(ms, lay, |ms|)
  {
    hide Flatten;
    FlattenAll(Datas(ms));
  }

  lemma LoadsAscend(h: ElfHeader, notes: seq<byte>, t: Table, i: nat, j: nat)
    requires WellFormed(t, DEFAULT_PAGE_SIZE) && Writable(h, notes, Values(t)) && i < j < |Values(t)|
    ensures LoadPhdrs(h, notes, Values(t))[i].vaddr < LoadPhdrs(h, notes, Values(t))[j].vaddr
  {
    hide Aligned, Flatten, LayoutOf, Writable, LoadPhdrs;
    var keys := Ascending.Keys(t.Keys);
    assert Placed(keys[i], t[keys[i]], DEFAULT_PAGE_SIZE) && Placed(keys[j], t[keys[j]], DEFAULT_PAGE_SIZE);
    LoadAt(h, notes, Values(t), i);
    LoadAt(h, notes, Values(t), j);
  }

  /** After a run over a table whose captured bytes are whole pages, the PT_LOADs are sorted by
      address, and they all conform exactly when the bytes of every mapping end before the
      captures that split it, or the mapping is replaced from its start. */
  lemma ConformsExactlyWhen(t: Table, cs: seq<Capture>, h: ElfHeader, notes: seq<byte>)
    requires WholePages(t, DEFAULT_PAGE_SIZE) && Placeable(t, cs, DEFAULT_PAGE_SIZE)
    requires InjectAll(t, cs, DEFAULT_PAGE_SIZE).outcome.Ok?
    requires Writable(h, notes, Values(InjectAll(t, cs, DEFAULT_PAGE_SIZE).table))
    ensures var ms := Values(InjectAll(t, cs, DEFAULT_PAGE_SIZE).table);
            && (AllConform(h, notes, ms) <==> AllBounded(t, cs, DEFAULT_PAGE_SIZE))
            && forall i, j :: 0 <= i < j < |ms| ==>
                 LoadPhdrs(h, notes, ms)[i].vaddr < LoadPhdrs(h, notes, ms)[j].vaddr
  {
    hide InjectAll, Placeable, Reaches, Writable, Values, WellFormed, LoadPhdrs, AllConform, AllBounded;
    var t' := InjectAll(t, cs, DEFAULT_PAGE_SIZE).table;
    PlaceableReaches(t, cs, DEFAULT_PAGE_SIZE);
    RunKeepsTable(t, cs, DEFAULT_PAGE_SIZE);
    RunKeepsDataInside(t, cs, DEFAULT_PAGE_SIZE);
    RunWholePages(t, cs, DEFAULT_PAGE_SIZE);
    TableConforms(h, notes, t');
    forall i, j | 0 <= i < j < |Values(t')|
      ensures LoadPhdrs(h, notes, Values(t'))[i].vaddr < LoadPhdrs(h, notes, Values(t'))[j].vaddr
    {
      LoadsAscend(h, notes, t', i, j);
    }
  }

  /** From mappings without captured bytes, after any successful run of page-disjoint captures
      that fit, every PT_LOAD conforms, and they are sorted by address. */
  lemma AugmentedCoreConforms(t: Table, cs: seq<Capture>, h: ElfHeader, notes: seq<byte>)
    requires NoData(t) && Placeable(t, cs, DEFAULT_PAGE_SIZE) && InjectAll(t, cs, DEFAULT_PAGE_SIZE).outcome.Ok?
    requires Writable(h, notes, Values(InjectAll(t, cs, DEFAULT_PAGE_SIZE).table))
    ensures var ms := Values(InjectAll(t, cs, DEFAULT_PAGE_SIZE).table);
            && AllConform(h, notes, ms)
            && forall i, j :: 0 <= i < j < |ms| ==>
                 LoadPhdrs(h, notes, ms)[i].vaddr < LoadPhdrs(h, notes, ms)[j].vaddr
  {
    hide InjectAll, Placeable, Writable, Values, AllConform, AllBounded;
    NoDataIsBounded(t, cs, DEFAULT_PAGE_SIZE);
    ConformsExactlyWhen(t, cs, h, notes);
  }

  // ---------- the memory in a core file ----------

  /** The byte at `a` in the first segment that holds it. */
  function SegmentByte(segments: seq<Segment>, a: int): Option<byte> {
    if segments == [] then None
    else if segments[0].Contains(a) then
      (if a - segments[0].start < |segments[0].data| then Some(segments[0].data[a - segments[0].start]) else None)
    else SegmentByte(segments[1..], a)
  }

  /** A core file as a memory. */
  function CoreView(bytes: seq<byte>): View {
    match Load(bytes)
    case None => _ => None
    case Some(segments) => a => SegmentByte(segments, a)
  }

  lemma {:induction false} FirstHit(segments: seq<Segment>, a: int, j: nat)
    requires j < |segments| && segments[j].Contains(a)
    requires forall i :: 0 <= i < j ==> !segments[i].Contains(a)
    ensures SegmentByte(segments, a) == SegmentByte([segments[j]], a)
    decreases j
  {
    if j == 0 {
    } else {
      FirstHit(segments[1..], a, j - 1);
    }
  }

  lemma {:induction false} NoHit(segments: seq<Segment>, a: int)
    requires forall i :: 0 <= i < |segments| ==> !segments[i].Contains(a)
    ensures SegmentByte(segments, a) == None
    decreases |segments|
  {
    if segments == [] {
    } else {
      NoHit(segments[1..], a);
    }
  }

  lemma WellFormedIsProper(t: Table)
    requires WellFormed(t, DEFAULT_PAGE_SIZE)
    ensures RangesProper(Values(t))
  {
    hide Aligned;
    forall i | 0 <= i < |Values(t)|
      ensures Values(t)[i].start <= Values(t)[i].end
    {
      var k := Ascending.Keys(t.Keys)[i];
      assert Placed(k, t[k], DEFAULT_PAGE_SIZE);
    }
  }

  lemma SegmentIsMapping(t: Table, i: nat, a: int)
    requires WellFormed(t, DEFAULT_PAGE_SIZE) && RangesProper(Values(t)) && i < |Values(t)|
    ensures var segment, k := SegmentsFor(Values(t))[i], Ascending.Keys(t.Keys)[i];
            if t[k].Contains(a) then
              && Covered(t, a) && Owner(t, a) == k && segment.Contains(a)
              && SegmentByte([segment], a) == ByteAt(t, a)
            else
              !segment.Contains(a)
  {
    hide Aligned, Ascending.Keys, Values;
    var k := Ascending.Keys(t.Keys)[i];
    assert Placed(k, t[k], DEFAULT_PAGE_SIZE);
    if t[k].Contains(a) { OwnerIs(t, k, a, DEFAULT_PAGE_SIZE); }
  }

  /** The segments of a well-formed table show the same memory as the table. */
  lemma SegmentsShowTable(t: Table, a: int)
    requires WellFormed(t, DEFAULT_PAGE_SIZE) && RangesProper(Values(t))
    ensures SegmentByte(SegmentsFor(Values(t)), a) == ByteAt(t, a)
  {
    hide Ascending.Keys, Values, WellFormed, RangesProper, SegmentsFor, SegmentByte;
    var keys, segments := Ascending.Keys(t.Keys), SegmentsFor(Values(t));
    forall i | 0 <= i < |keys|
      ensures segments[i].Contains(a) <==> t[keys[i]].Contains(a)
      ensures t[keys[i]].Contains(a) ==> Covered(t, a) && Owner(t, a) == keys[i]
    {
      SegmentIsMapping(t, i, a);
    }
    if Covered(t, a) {
      assert Owner(t, a) in keys;
      var j :| 0 <= j < |keys| && keys[j] == Owner(t, a);
      SegmentIsMapping(t, j, a);
      FirstHit(segments, a, j);
    } else {
      NoHit(segments, a);
    }
  }

  /** The written file, read as a memory, is the memory of the table. */
  lemma CoreShowsTable(arch: Architecture, s: NoteSegment.Source, t: Table, a: int)
    requires WellFormed(t, DEFAULT_PAGE_SIZE) && CanWrite(arch, s, t)
    ensures CoreView(Written(arch, s, t))(a) == ByteAt(t, a)
  {
    hide WellFormed, Values, Load, CoreFile, SegmentByte, NoteSegment.SegmentNotes, LayoutOf, Writable;
    WellFormedIsProper(t);
    FileLoadsBack(Header(arch, s, t), NoteBytes(arch, s, t), Values(t));
    SegmentsShowTable(t, a);
  }

  // ---------- the debugger on the core file ----------

  lemma HoldsInCore(arch: Architecture, s: NoteSegment.Source, t: Table, base: int, bytes: seq<byte>)
    requires WellFormed(t, DEFAULT_PAGE_SIZE) && CanWrite(arch, s, t)
    requires Holds(TableView(t), base, bytes)
    ensures Holds(CoreView(Written(arch, s, t)), base, bytes)
  {
    hide WellFormed, CanWrite, CoreView, Written;
    forall i | 0 <= i < |bytes|
      ensures CoreView(Written(arch, s, t))(base + i) == Some(bytes[i])
    {
      assert TableView(t)(base + i) == Some(bytes[i]);
      CoreShowsTable(arch, s, t, base + i);
    }
  }

  /** The whole pipeline: after a successful augmentation, as long as blob and dynamic section
      can be placed in the table that the stacks leave, a debugger that opens the written core
      file finds DT_DEBUG, walks the link map both ways and recovers every entry. */
  lemma DebuggerWalksCore(arch: Architecture, t: Table, ts: seq<ThreadSnapshot>, dso: DsoDebug, sigs: Signatures,
                          s: NoteSegment.Source)
    requires InjectAll(t, AllCaptures(arch, ts, dso, sigs), DEFAULT_PAGE_SIZE).outcome.Ok?
    requires CanWrite(arch, s, InjectAll(t, AllCaptures(arch, ts, dso, sigs), DEFAULT_PAGE_SIZE).table)
    requires Placeable(Stacked(t, ts), DsoCaptures(arch, dso, sigs), DEFAULT_PAGE_SIZE)
    requires dso.version != 0 || dso.linkMap != [] || dso.dynamicData != []
    requires BlobFits(dso, sigs, arch.LongSize())
    ensures var t' := InjectAll(t, AllCaptures(arch, ts, dso, sigs), DEFAULT_PAGE_SIZE).table;
            DebuggerRecovers(CoreView(Written(arch, s, t')), dso, sigs, arch.LongSize())
  {
    hide InjectAll, Placeable, AllCaptures, DsoCaptures, Stacked, WellFormed, Blob, BlobFits, Patched, Holds;
    hide DebuggerRecovers, CanWrite, Written, CoreView;
    var t' := InjectAll(t, AllCaptures(arch, ts, dso, sigs), DEFAULT_PAGE_SIZE).table;
    StacksFirst(arch, t, ts, dso, sigs);
    DsoHeld(arch, Stacked(t, ts), dso, sigs);
    HoldsInCore(arch, s, t', LINK_MAP_ADDR, Blob(dso, sigs, arch.LongSize()));
    if HasDynamic(dso) {
      HoldsInCore(arch, s, t', dso.dynamic, Patched(dso.dynamicData, arch.LongSize(), LINK_MAP_ADDR));
    }
    HeldIsRecovered(CoreView(Written(arch, s, t')), dso, sigs, arch.LongSize());
  }

  /** And every byte of every capture that lasts is in the core file at its own address. */
  lemma CoreShowsCaptures(arch: Architecture, t: Table, cs: seq<Capture>, s: NoteSegment.Source, i: nat)
    requires WellFormed(t, DEFAULT_PAGE_SIZE) && Reaches(t, cs, DEFAULT_PAGE_SIZE)
    requires InjectAll(t, cs, DEFAULT_PAGE_SIZE).outcome.Ok? && i < |cs| && Lasts(t, cs, i, DEFAULT_PAGE_SIZE)
    requires CanWrite(arch, s, InjectAll(t, cs, DEFAULT_PAGE_SIZE).table)
    ensures Holds(CoreView(Written(arch, s, InjectAll(t, cs, DEFAULT_PAGE_SIZE).table)), cs[i].address, cs[i].data)
  {
    hide InjectAll, WellFormed, Reaches, Lasts, Holds, CanWrite, Written, CoreView;
    RunKeepsTable(t, cs, DEFAULT_PAGE_SIZE);
    CaptureHeld(t, cs, i);
    HoldsInCore(arch, s, InjectAll(t, cs, DEFAULT_PAGE_SIZE).table, cs[i].address, cs[i].data);
  }

  // ---------- the whole conversion ----------

  /** Every capture that lasts is in memory at its own address. */
  ghost predicate HoldsLasting(m: View, t: Table, cs: seq<Capture>) {
    forall i :: 0 <= i < |cs| && Lasts(t, cs, i, DEFAULT_PAGE_SIZE) ==> Holds(m, cs[i].address, cs[i].data)
  }

  /** NT_FILE gives every address what backed it in a table. */
  ghost predicate LocatesFiles(bytes: seq<byte>, t: Table, word: WordSize) {
    var files := FilesOfCore(bytes, word);
    files.Some? && forall a :: LookUp(files.value, a) == PlaceOf(BackingAt(t, a))
  }

  /** The file is a core file of the architecture, and its notes give process information (3),
      auxiliary vector (6), the crash, and the registers of every thread with a context. */
  ghost predicate DescribesProcess(bytes: seq<byte>, arch: Architecture, s: NoteSegment.Source) {
    var ns := NotesOfCore(bytes);
    && SaysItIs(bytes, arch) && ns.Some?
    && Described(ns.value, 3) == Some(s.prpsinfo) && Described(ns.value, 6) == Some(s.auxv)
    && ShowsCrash(Statuses(ns.value, arch.LongSize()), s)
    && ShowsThreads(OpenThreads(ns.value), WithContext(ThreadNotes.Ordered(s.threads, s.crashing), s.exception),
                    arch.LongSize())
  }

  /** The stack of every thread that has one is in memory, at its address. */
  ghost predicate HoldsStacks(m: View, ts: seq<ThreadSnapshot>) {
    forall i :: 0 <= i < |ts| && ts[i].stack != [] ==> Holds(m, ts[i].stackAddress, ts[i].stack)
  }

  /** What a debugger learns from a core file made of the table `t` and the captures of a
      process, each part under the condition that it needs. */
  ghost predicate Faithful(bytes: seq<byte>, t: Table, arch: Architecture, s: NoteSegment.Source, dso: DsoDebug,
                           sigs: Signatures)
  {
    var cs := AllCaptures(arch, s.threads, dso, sigs);
    && DescribesProcess(bytes, arch, s)
    && (WellFormed(t, DEFAULT_PAGE_SIZE) && Reaches(t, cs, DEFAULT_PAGE_SIZE) ==>
          && HoldsLasting(CoreView(bytes), t, cs)
          && (MapsFiles(t) ==> LocatesFiles(bytes, t, arch.LongSize())))
    && (Placeable(t, cs, DEFAULT_PAGE_SIZE) ==> HoldsStacks(CoreView(bytes), s.threads))
    && ((dso.version != 0 || dso.linkMap != [] || dso.dynamicData != [])
        && Placeable(Stacked(t, s.threads), DsoCaptures(arch, dso, sigs), DEFAULT_PAGE_SIZE) ==>
          DebuggerRecovers(CoreView(bytes), dso, sigs, arch.LongSize()))
  }

  /** Page-disjoint captures that fit meet all these conditions. */
  lemma PlaceableSuffices(arch: Architecture, t: Table, ts: seq<ThreadSnapshot>, dso: DsoDebug, sigs: Signatures)
    requires var cs := AllCaptures(arch, ts, dso, sigs);
             Placeable(t, cs, DEFAULT_PAGE_SIZE) && InjectAll(t, cs, DEFAULT_PAGE_SIZE).outcome.Ok?
    ensures var cs := AllCaptures(arch, ts, dso, sigs);
            && WellFormed(t, DEFAULT_PAGE_SIZE) && Reaches(t, cs, DEFAULT_PAGE_SIZE)
            && (forall i :: 0 <= i < |cs| ==> Lasts(t, cs, i, DEFAULT_PAGE_SIZE))
            && Placeable(Stacked(t, ts), DsoCaptures(arch, dso, sigs), DEFAULT_PAGE_SIZE)
  {
    hide InjectAll, Placeable, AllCaptures, DsoCaptures, Stacked, WellFormed, Reaches, Lasts;
    var cs := AllCaptures(arch, ts, dso, sigs);
    PlaceableReaches(t, cs, DEFAULT_PAGE_SIZE);
    forall i | 0 <= i < |cs|
      ensures Lasts(t, cs, i, DEFAULT_PAGE_SIZE)
    {
      PlaceableLasts(t, cs, i, DEFAULT_PAGE_SIZE);
    }
    StacksFirst(arch, t, ts, dso, sigs);
  }

  lemma WrittenDescribes(arch: Architecture, s: NoteSegment.Source, t: Table)
    requires CanWrite(arch, s, t)
    ensures DescribesProcess(Written(arch, s, t), arch, s)
  {
    hide CanWrite, Written, NotesOfCore, Described, ShowsCrash, Statuses, SaysItIs, ShowsThreads, OpenThreads, WithContext;
    WrittenSaysItIs(arch, s, t);
    FixedAreWritten(arch, s, t);
    CrashIsWritten(arch, s, t);
    ThreadsAreWritten(arch, s, t);
  }

  lemma WrittenHoldsStacks(arch: Architecture, s: NoteSegment.Source, t: Table, dso: DsoDebug, sigs: Signatures)
    requires var cs := AllCaptures(arch, s.threads, dso, sigs);
             && Placeable(t, cs, DEFAULT_PAGE_SIZE) && InjectAll(t, cs, DEFAULT_PAGE_SIZE).outcome.Ok?
             && CanWrite(arch, s, InjectAll(t, cs, DEFAULT_PAGE_SIZE).table)
    ensures var run := InjectAll(t, AllCaptures(arch, s.threads, dso, sigs), DEFAULT_PAGE_SIZE);
            HoldsStacks(CoreView(Written(arch, s, run.table)), s.threads)
  {
    hide InjectAll, WellFormed, Placeable, Reaches, Lasts, CanWrite, Written, CoreView, Holds, AllCaptures;
    var ts, cs := s.threads, AllCaptures(arch, s.threads, dso, sigs);
    PlaceableReaches(t, cs, DEFAULT_PAGE_SIZE);
    forall i | 0 <= i < |ts| && ts[i].stack != []
      ensures Holds(CoreView(Written(arch, s, InjectAll(t, cs, DEFAULT_PAGE_SIZE).table)), ts[i].stackAddress, ts[i].stack)
    {
      var k := StackIsCaptured(arch, ts, dso, sigs, i);
      PlaceableLasts(t, cs, k, DEFAULT_PAGE_SIZE);
      CoreShowsCaptures(arch, t, cs, s, k);
    }
  }

  lemma WrittenHoldsLasting(arch: Architecture, s: NoteSegment.Source, t: Table, cs: seq<Capture>)
    requires WellFormed(t, DEFAULT_PAGE_SIZE) && Reaches(t, cs, DEFAULT_PAGE_SIZE)
    requires InjectAll(t, cs, DEFAULT_PAGE_SIZE).outcome.Ok?
    requires CanWrite(arch, s, InjectAll(t, cs, DEFAULT_PAGE_SIZE).table)
    ensures HoldsLasting(CoreView(Written(arch, s, InjectAll(t, cs, DEFAULT_PAGE_SIZE).table)), t, cs)
  {
    hide InjectAll, WellFormed, Reaches, Lasts, CanWrite, Written, CoreView, Holds;
    forall i | 0 <= i < |cs| && Lasts(t, cs, i, DEFAULT_PAGE_SIZE)
      ensures Holds(CoreView(Written(arch, s, InjectAll(t, cs, DEFAULT_PAGE_SIZE).table)), cs[i].address, cs[i].data)
    {
      CoreShowsCaptures(arch, t, cs, s, i);
    }
  }

  lemma WrittenIsFaithful(arch: Architecture, t: Table, s: NoteSegment.Source, dso: DsoDebug, sigs: Signatures)
    requires var run := InjectAll(t, AllCaptures(arch, s.threads, dso, sigs), DEFAULT_PAGE_SIZE);
             run.outcome.Ok? && CanWrite(arch, s, run.table)
    requires dso.version != 0 || dso.linkMap != [] || dso.dynamicData != [] ==> BlobFits(dso, sigs, arch.LongSize())
    ensures var run := InjectAll(t, AllCaptures(arch, s.threads, dso, sigs), DEFAULT_PAGE_SIZE);
            Faithful(Written(arch, s, run.table), t, arch, s, dso, sigs)
  {
    hide InjectAll, Placeable, AllCaptures, DsoCaptures, Stacked, WellFormed, Reaches, BlobFits, MapsFiles;
    hide DebuggerRecovers, CanWrite, Written, CoreView, LocatesFiles, DescribesProcess, HoldsLasting, HoldsStacks;
    var cs := AllCaptures(arch, s.threads, dso, sigs);
    var t' := InjectAll(t, cs, DEFAULT_PAGE_SIZE).table;
    WrittenDescribes(arch, s, t');
    if WellFormed(t, DEFAULT_PAGE_SIZE) && Reaches(t, cs, DEFAULT_PAGE_SIZE) {
      WrittenHoldsLasting(arch, s, t, cs);
      if MapsFiles(t) {
        WrittenLocatesFiles(arch, s, t, cs);
      }
    }
    if Placeable(t, cs, DEFAULT_PAGE_SIZE) {
      WrittenHoldsStacks(arch, s, t, dso, sigs);
    }
    if (dso.version != 0 || dso.linkMap != [] || dso.dynamicData != [])
       && Placeable(Stacked(t, s.threads), DsoCaptures(arch, dso, sigs), DEFAULT_PAGE_SIZE) {
      DebuggerWalksCore(arch, t, s.threads, dso, sigs, s);
    }
  }

  lemma WrittenLocatesFiles(arch: Architecture, s: NoteSegment.Source, t: Table, cs: seq<Capture>)
    requires WellFormed(t, DEFAULT_PAGE_SIZE) && Reaches(t, cs, DEFAULT_PAGE_SIZE) && MapsFiles(t)
    requires InjectAll(t, cs, DEFAULT_PAGE_SIZE).outcome.Ok?
    requires CanWrite(arch, s, InjectAll(t, cs, DEFAULT_PAGE_SIZE).table)
    ensures LocatesFiles(Written(arch, s, InjectAll(t, cs, DEFAULT_PAGE_SIZE).table), t, arch.LongSize())
  {
    hide InjectAll, WellFormed, Reaches, CanWrite, Written, MapsFiles, LookUp, PlaceOf, BackingAt, FilesOfCore;
    var bytes := Written(arch, s, InjectAll(t, cs, DEFAULT_PAGE_SIZE).table);
    FilesAreWritten(arch, s, t, cs, 0);
    forall a: int
      ensures LookUp(FilesOfCore(bytes, arch.LongSize()).value, a) == PlaceOf(BackingAt(t, a))
    {
      FilesAreWritten(arch, s, t, cs, a);
    }
  }

  /** The program: augment the process, then write the core file.  It succeeds exactly when the
      blob can be encoded, the run of injections succeeds and the file can be written; what it
      writes is then faithful to the process. */
  method Convert(process: CrashedProcess) returns (r: Result<seq<byte>>)
    modifies process.mappings
    ensures var arch, dso, sigs := process.architecture, process.dsoDebug, process.signatures;
            var s := NoteSegment.Source(process.prpsinfo, process.auxv, process.threads, process.crashingTid,
                                 process.fatalSignal, process.exceptionContext);
            var cs := AllCaptures(arch, process.threads, dso, sigs);
            var run := InjectAll(old(process.mappings.entries), cs, DEFAULT_PAGE_SIZE);
            && (r.Ok? <==>
                  && run.outcome.Ok? && (dso.version != 0 || dso.linkMap != [] || dso.dynamicData != [] ==> BlobFits(dso, sigs, arch.LongSize()))
                  && CanWrite(arch, s, run.table))
            && (r.Ok? ==>
                  && process.mappings.entries == run.table && r.value == Written(arch, s, run.table)
                  && Faithful(r.value, old(process.mappings.entries), arch, s, dso, sigs))
  {
    hide InjectAll, AllCaptures, BlobFits, CanWrite, Written, Faithful;
    var arch, dso, sigs := process.architecture, process.dsoDebug, process.signatures;
    ghost var was := process.mappings.entries;
    var augmented := AugmentProcess(process);
    if augmented.Err? {
      return Err(augmented.error);
    }
    var out := new Sink();
    var written := WriteCore(process, out);
    if written.Err? {
      return Err(written.error);
    }
    ghost var s := NoteSegment.Source(process.prpsinfo, process.auxv, process.threads, process.crashingTid,
                                      process.fatalSignal, process.exceptionContext);
    WrittenIsFaithful(arch, was, s, dso, sigs);
    assert out.bytes == Written(arch, s, process.mappings.entries);
    return Ok(out.bytes);
  }
}
