/** The augmentation pass (src/augment.rs) and the debugger that reads its result. */
module Augment {
  import opened Bytes
  import opened Model
  import opened Memory
  import opened Mappings
  import opened InjectionStep
  import opened InjectionRun
  import opened InjectionSeen
  import opened LinkMap
  import opened DynamicSection
  import opened Process

  // ---------- what is injected ----------

  function StackCapture(t: ThreadSnapshot): seq<Capture> {
    if t.stack == [] then [] else [Capture(t.stackAddress, t.stack)]
  }

  /** The captured stacks, in thread order; a thread without one contributes nothing. */
  function StackCaptures(ts: seq<ThreadSnapshot>): seq<Capture> {
    if ts == [] then [] else StackCaptures(ts[..|ts| - 1]) + StackCapture(ts[|ts| - 1])
  }

  predicate HasDso(dso: DsoDebug) {
    dso.version != 0 || dso.linkMap != [] || dso.dynamicData != []
  }

  predicate HasDynamic(dso: DsoDebug) {
    dso.dynamicData != [] && dso.dynamic != 0
  }

  function BlobCapture(arch: Architecture, dso: DsoDebug, sigs: Signatures): Capture {
    Capture(LINK_MAP_ADDR, Blob(dso, sigs, arch.LongSize()))
  }

  function DynamicCapture(arch: Architecture, dso: DsoDebug): Capture {
    Capture(dso.dynamic, Patched(dso.dynamicData, arch.LongSize(), LINK_MAP_ADDR))
  }

  function DsoCaptures(arch: Architecture, dso: DsoDebug, sigs: Signatures): seq<Capture> {
    if !HasDso(dso) then []
    else [BlobCapture(arch, dso, sigs)] + (if HasDynamic(dso) then [DynamicCapture(arch, dso)] else [])
  }

  function AllCaptures(arch: Architecture, ts: seq<ThreadSnapshot>, dso: DsoDebug, sigs: Signatures): seq<Capture> {
    StackCaptures(ts) + DsoCaptures(arch, dso, sigs)
  }

  // ---------- the captures in the fields of the process ----------

  /** The threads that have a stack, by index. */
  function StackThreads(ts: seq<ThreadSnapshot>): (r: seq<nat>)
    ensures forall k :: 0 <= k < |r| ==> r[k] < |ts| && ts[r[k]].stack != []
    ensures forall k, l :: 0 <= k < l < |r| ==> r[k] < r[l]
    ensures forall i: nat :: i < |ts| && ts[i].stack != [] ==> i in r
  {
    if ts == [] then []
    else StackThreads(ts[..|ts| - 1]) + (if ts[|ts| - 1].stack == [] then [] else [|ts| - 1])
  }

  lemma {:induction false} StackCapturesAre(ts: seq<ThreadSnapshot>)
    ensures |StackCaptures(ts)| == |StackThreads(ts)|
    ensures forall k :: 0 <= k < |StackThreads(ts)| ==>
      StackCaptures(ts)[k] == Capture(ts[StackThreads(ts)[k]].stackAddress, ts[StackThreads(ts)[k]].stack)
    decreases |ts|
  {
    if ts == [] {
    } else {
      StackCapturesAre(ts[..|ts| - 1]);
    }
  }

  /** The captures are, in this order: the stack of every thread that has one, in thread order,
      at its own address; if anything of the link map was captured, the blob at 4096; and if
      moreover the dynamic section was captured and has an address, that section, patched. */
  lemma CapturesAre(arch: Architecture, ts: seq<ThreadSnapshot>, dso: DsoDebug, sigs: Signatures)
    ensures var cs, threads, n := AllCaptures(arch, ts, dso, sigs), StackThreads(ts), |StackThreads(ts)|;
            && n <= |cs|
            && (forall k :: 0 <= k < n ==> cs[k] == Capture(ts[threads[k]].stackAddress, ts[threads[k]].stack))
            && (dso.version == 0 && dso.linkMap == [] && dso.dynamicData == [] ==> |cs| == n)
            && (dso.version != 0 || dso.linkMap != [] || dso.dynamicData != [] ==>
                  && |cs| == n + (if dso.dynamicData != [] && dso.dynamic != 0 then 2 else 1)
                  && cs[n] == Capture(4096, Blob(dso, sigs, arch.LongSize()))
                  && (dso.dynamicData != [] && dso.dynamic != 0 ==>
                        cs[n + 1] == Capture(dso.dynamic, Patched(dso.dynamicData, arch.LongSize(), 4096))))
  {
    hide Blob, Patched;
    StackCapturesAre(ts);
  }

  /** Every stack is among the captures. */
  lemma StackIsCaptured(arch: Architecture, ts: seq<ThreadSnapshot>, dso: DsoDebug, sigs: Signatures, i: nat)
    returns (k: nat)
    requires i < |ts| && ts[i].stack != []
    ensures k < |AllCaptures(arch, ts, dso, sigs)|
    ensures AllCaptures(arch, ts, dso, sigs)[k] == Capture(ts[i].stackAddress, ts[i].stack)
  {
    hide AllCaptures;
    CapturesAre(arch, ts, dso, sigs);
    k :| 0 <= k < |StackThreads(ts)| && StackThreads(ts)[k] == i;
  }

  // ---------- the pass ----------

  lemma OkUnit(r: Result<()>)
    ensures r.Ok? ==> r == Ok(())
  {
    assert r.Ok? ==> r.value == ();
  }

  lemma RunOne(t: Table, c: Capture)
    ensures InjectAll(t, [c], DEFAULT_PAGE_SIZE).outcome == Inject(t, c, DEFAULT_PAGE_SIZE).outcome
    ensures InjectAll(t, [c], DEFAULT_PAGE_SIZE).table == Inject(t, c, DEFAULT_PAGE_SIZE).table
  {
    hide Inject;
    var s := Inject(t, c, DEFAULT_PAGE_SIZE);
    OkUnit(s.outcome);
    assert [c][1..] == [] && (s.outcome.Ok? ==> InjectAll(s.table, [], DEFAULT_PAGE_SIZE) == s);
  }

  /** Extends a successful run by one capture. */
  lemma RunSnoc(t: Table, cs: seq<Capture>, c: Capture, was: Table)
    requires InjectAll(was, cs, DEFAULT_PAGE_SIZE) == Injection(t, Ok(()))
    ensures InjectAll(was, cs + [c], DEFAULT_PAGE_SIZE) == Inject(t, c, DEFAULT_PAGE_SIZE)
  {
    hide Inject, InjectAll;
    RunInTwo(was, cs, [c], DEFAULT_PAGE_SIZE);
    RunOne(t, c);
  }

  /** A run fails when a first part of it fails. */
  lemma RunFailsEarly(t: Table, xs: seq<Capture>, ys: seq<Capture>)
    requires InjectAll(t, xs, DEFAULT_PAGE_SIZE).outcome.Err?
    ensures InjectAll(t, xs + ys, DEFAULT_PAGE_SIZE).outcome.Err?
  {
    RunInTwo(t, xs, ys, DEFAULT_PAGE_SIZE);
  }

  method InjectStacks(mappings: MappingTable, ts: seq<ThreadSnapshot>) returns (r: Result<()>)
    modifies mappings
    ensures r.Ok? <==> InjectAll(old(mappings.entries), StackCaptures(ts), DEFAULT_PAGE_SIZE).outcome.Ok?
    ensures r.Ok? ==> mappings.entries == InjectAll(old(mappings.entries), StackCaptures(ts), DEFAULT_PAGE_SIZE).table
  {
    hide Inject, InjectAll;
    ghost var was := mappings.entries;
    var i := 0;
    NothingRun(was);
    while i < |ts|
      invariant 0 <= i <= |ts|
      invariant InjectAll(was, StackCaptures(ts[..i]), DEFAULT_PAGE_SIZE) == Injection(mappings.entries, Ok(()))
    {
      StackStep(ts, i);
      if |ts[i].stack| != 0 {
        RunSnoc(mappings.entries, StackCaptures(ts[..i]), Capture(ts[i].stackAddress, ts[i].stack), was);
        r := mappings.AddData(ts[i].stack, ts[i].stackAddress, DEFAULT_PAGE_SIZE);
        OkUnit(r);
        if r.Err? {
          StackPrefix(ts, i + 1, was);
          return;
        }
      }
      i := i + 1;
    }
    assert ts[..i] == ts;
    return Ok(());
  }

  lemma NothingRun(t: Table)
    ensures InjectAll(t, StackCaptures([]), DEFAULT_PAGE_SIZE) == Injection(t, Ok(()))
  {
  }

  lemma StackStep(ts: seq<ThreadSnapshot>, i: nat)
    requires i < |ts|
    ensures StackCaptures(ts[..i + 1]) == StackCaptures(ts[..i]) + StackCapture(ts[i])
    ensures StackCaptures(ts[..i]) + [] == StackCaptures(ts[..i])
  {
    assert ts[..i + 1][..i] == ts[..i];
  }

  /** A failure on the first threads fails the run. */
  lemma {:induction false} StackPrefix(ts: seq<ThreadSnapshot>, i: nat, was: Table)
    requires i <= |ts|
    requires InjectAll(was, StackCaptures(ts[..i]), DEFAULT_PAGE_SIZE).outcome.Err?
    ensures InjectAll(was, StackCaptures(ts), DEFAULT_PAGE_SIZE).outcome.Err?
    decreases |ts| - i
  {
    hide InjectAll;
    if i == |ts| {
      assert ts[..i] == ts;
    } else {
      StackStep(ts, i);
      RunFailsEarly(was, StackCaptures(ts[..i]), StackCapture(ts[i]));
      StackPrefix(ts, i + 1, was);
    }
  }

  /** Copies the captured `_DYNAMIC` bytes and patches the copy; the address of the link map
      fits the words of every target, so the patch always succeeds. */
  method PatchedCopy(arch: Architecture, data: seq<byte>) returns (r: seq<byte>)
    ensures r == Patched(data, arch.LongSize(), LINK_MAP_ADDR)
  {
    var copy := new byte[|data|](i requires 0 <= i < |data| => data[i]);
    assert copy[..] == data;
    var patched := PatchDtDebug(arch, copy, LINK_MAP_ADDR);
    assert patched.Ok?;
    return copy[..];
  }

  method InjectDso(arch: Architecture, mappings: MappingTable, dso: DsoDebug, sigs: Signatures) returns (r: Result<()>)
    requires HasDso(dso)
    modifies mappings
    ensures r.Ok? <==>
      && BlobFits(dso, sigs, arch.LongSize())
      && InjectAll(old(mappings.entries), DsoCaptures(arch, dso, sigs), DEFAULT_PAGE_SIZE).outcome.Ok?
    ensures r.Ok? ==>
      mappings.entries == InjectAll(old(mappings.entries), DsoCaptures(arch, dso, sigs), DEFAULT_PAGE_SIZE).table
  {
    hide Inject, InjectAll, Blob, BlobFits, Patched;
    ghost var was := mappings.entries;
    var blob :- BuildLinkMapBlob(arch, dso, sigs);
    ghost var first := BlobCapture(arch, dso, sigs);
    RunOne(was, first);
    if HasDynamic(dso) { RunInTwo(was, [first], [DynamicCapture(arch, dso)], DEFAULT_PAGE_SIZE); }
    assert [first] + [] == [first];
    r := mappings.AddData(blob, LINK_MAP_ADDR, DEFAULT_PAGE_SIZE);
    if r.Err? {
      return;
    }
    if |dso.dynamicData| != 0 && dso.dynamic != 0 {
      var dynData := PatchedCopy(arch, dso.dynamicData);
      RunOne(mappings.entries, DynamicCapture(arch, dso));
      r := mappings.AddData(dynData, dso.dynamic, DEFAULT_PAGE_SIZE);
    }
  }

  /** Succeeds exactly when the blob can be encoded and every injection succeeds; the table is
      then the result of the whole run, and nothing else of the process changes. */
  method AugmentProcess(process: CrashedProcess) returns (r: Result<()>)
    modifies process.mappings
    ensures var arch, dso, sigs := process.architecture, process.dsoDebug, process.signatures;
            var run := InjectAll(old(process.mappings.entries), AllCaptures(arch, process.threads, dso, sigs), DEFAULT_PAGE_SIZE);
            && (r.Ok? <==> run.outcome.Ok? && (dso.version != 0 || dso.linkMap != [] || dso.dynamicData != [] ==> BlobFits(dso, sigs, arch.LongSize())))
            && (r.Ok? ==> process.mappings.entries == run.table)
  {
    hide Inject, InjectAll, BlobFits;
    var arch, dso, sigs := process.architecture, process.dsoDebug, process.signatures;
    ghost var was := process.mappings.entries;
    RunInTwo(was, StackCaptures(process.threads), DsoCaptures(arch, dso, sigs), DEFAULT_PAGE_SIZE);
    r := InjectStacks(process.mappings, process.threads);
    if r.Err? {
      return;
    }
    if dso.version != 0 || |dso.linkMap| != 0 || |dso.dynamicData| != 0 {
      r := InjectDso(arch, process.mappings, dso, sigs);
    } else {
      NothingRun(process.mappings.entries);
    }
  }

  // ---------- the debugger ----------

  /** The memory of a process as its mapping table shows it. */
  ghost function TableView(t: Table): View {
    a => ByteAt(t, a)
  }

  /** A run leaves every capture that lasts readable, and inside the address space. */
  lemma CaptureHeld(t: Table, cs: seq<Capture>, i: nat)
    requires WellFormed(t, DEFAULT_PAGE_SIZE) && Reaches(t, cs, DEFAULT_PAGE_SIZE)
    requires InjectAll(t, cs, DEFAULT_PAGE_SIZE).outcome.Ok? && i < |cs| && Lasts(t, cs, i, DEFAULT_PAGE_SIZE)
    ensures Holds(TableView(InjectAll(t, cs, DEFAULT_PAGE_SIZE).table), cs[i].address, cs[i].data)
    ensures cs[i].address + |cs[i].data| <= U64_LIMIT
  {
    hide InjectAll, WellFormed, Reaches, Lasts;
    var t' := InjectAll(t, cs, DEFAULT_PAGE_SIZE).table;
    forall j | 0 <= j < |cs[i].data|
      ensures TableView(t')(cs[i].address + j) == Some(cs[i].data[j])
    {
      CaptureReadsBack(t, cs, DEFAULT_PAGE_SIZE, i, j);
    }
    if cs[i].data != [] {
      assert Covered(t', cs[i].address + |cs[i].data| - 1) by {
        CaptureReadsBack(t, cs, DEFAULT_PAGE_SIZE, i, |cs[i].data| - 1);
      }
    }
  }

  /** The blob and the patched dynamic section are in memory, at their addresses. */
  ghost predicate HoldsDso(m: View, arch: Architecture, dso: DsoDebug, sigs: Signatures) {
    && Holds(m, LINK_MAP_ADDR, Blob(dso, sigs, arch.LongSize()))
    && (HasDynamic(dso) ==> Holds(m, dso.dynamic, Patched(dso.dynamicData, arch.LongSize(), LINK_MAP_ADDR)))
  }

  lemma DsoHeld(arch: Architecture, t: Table, dso: DsoDebug, sigs: Signatures)
    requires HasDso(dso) && Placeable(t, DsoCaptures(arch, dso, sigs), DEFAULT_PAGE_SIZE)
    requires InjectAll(t, DsoCaptures(arch, dso, sigs), DEFAULT_PAGE_SIZE).outcome.Ok?
    ensures var t' := InjectAll(t, DsoCaptures(arch, dso, sigs), DEFAULT_PAGE_SIZE).table;
            WellFormed(t', DEFAULT_PAGE_SIZE) && HoldsDso(TableView(t'), arch, dso, sigs)
    ensures LINK_MAP_ADDR + |Blob(dso, sigs, arch.LongSize())| <= U64_LIMIT
  {
    hide InjectAll, Placeable, WellFormed, Reaches, Lasts, Blob, Patched, Holds;
    var cs := DsoCaptures(arch, dso, sigs);
    PlaceableReaches(t, cs, DEFAULT_PAGE_SIZE);
    RunKeepsTable(t, cs, DEFAULT_PAGE_SIZE);
    PlaceableLasts(t, cs, 0, DEFAULT_PAGE_SIZE);
    CaptureHeld(t, cs, 0);
    if HasDynamic(dso) {
      PlaceableLasts(t, cs, 1, DEFAULT_PAGE_SIZE);
      CaptureHeld(t, cs, 1);
    }
  }

  /** The visited records are the captured entries in order: address, dynamic section, and the
      name that the signatures give the address, or else the entry's own, up to a NUL. */
  ghost predicate IsLinkMap(visited: seq<Record>, es: seq<LinkMapEntry>, sigs: Signatures) {
    && |visited| == |es|
    && forall i :: 0 <= i < |es| ==>
         && visited[i].addr == es[i].addr && visited[i].ld == es[i].ld
         && visited[i].name == UpToNul(if es[i].addr in sigs then sigs[es[i].addr] else es[i].name)
  }

  /** What a debugger does with r_debug at 4096: it reads its words, follows r_map to the first
      record and l_next to the end, and l_prev back to the start. */
  ghost predicate WalksLinkMap(m: View, dso: DsoDebug, sigs: Signatures, word: WordSize) {
    var first := FetchWord(m, 4096 + word, word);
    && FetchWord(m, 4096, word) == Some(dso.version)
    && FetchWord(m, 4096 + 2 * word, word) == Some(dso.brk)
    && FetchWord(m, 4096 + 3 * word, word) == Some(0)
    && FetchWord(m, 4096 + 4 * word, word) == Some(dso.ldbase)
    && first.Some?
    && var walk := WalkNext(RecordReader(m, word), first.value, |dso.linkMap|);
       && walk.Some? && IsLinkMap(walk.value, dso.linkMap, sigs)
       && WalkPrev(RecordReader(m, word), if dso.linkMap == [] then 0 else walk.value[|dso.linkMap| - 1].at, |dso.linkMap|)
          == Some(Reversed(walk.value))
  }

  /** What it finds in the dynamic section, if that was captured: the same entries, but for
      DT_DEBUG, which is 4096. */
  ghost predicate FindsRDebug(m: View, dso: DsoDebug, word: WordSize) {
    dso.dynamicData != [] && dso.dynamic != 0 ==>
      var read, es := Fetch(m, dso.dynamic, |dso.dynamicData|), Entries(dso.dynamicData, word);
      && read.Some?
      && match DebugEntry(es)
         case None => read.value == dso.dynamicData
         case Some(k) =>
           && Entries(read.value, word) == es[k := Entry(21, 4096)]
           && FindDebug(m, dso.dynamic, word, |dso.dynamicData|) == Some(4096)
  }

  ghost predicate DebuggerRecovers(m: View, dso: DsoDebug, sigs: Signatures, word: WordSize) {
    FindsRDebug(m, dso, word) && WalksLinkMap(m, dso, sigs, word)
  }

  lemma VisitedIsLinkMap(dso: DsoDebug, sigs: Signatures, word: WordSize)
    ensures IsLinkMap(VisitedRecords(dso, sigs, word), dso.linkMap, sigs)
  {
    hide VisitedRecords;
    forall i | 0 <= i < |dso.linkMap|
      ensures var visited, e := VisitedRecords(dso, sigs, word), dso.linkMap[i];
              && |visited| == |dso.linkMap| && visited[i].addr == e.addr && visited[i].ld == e.ld
              && visited[i].name == UpToNul(if e.addr in sigs then sigs[e.addr] else e.name)
    {
      VisitedIsEntry(dso, sigs, word, i);
    }
    VisitedCount(dso, sigs, word);
  }

  lemma VisitedCount(dso: DsoDebug, sigs: Signatures, word: WordSize)
    ensures |VisitedRecords(dso, sigs, word)| == |dso.linkMap|
  {
  }

  lemma HeldIsWalked(m: View, dso: DsoDebug, sigs: Signatures, word: WordSize)
    requires BlobFits(dso, sigs, word) && Holds(m, LINK_MAP_ADDR, Blob(dso, sigs, word))
    requires LINK_MAP_ADDR + |Blob(dso, sigs, word)| <= U64_LIMIT
    ensures WalksLinkMap(m, dso, sigs, word)
  {
    hide Blob, BlobFits, FetchWord, Holds, VisitedRecords, IsLinkMap, RecordReader;
    WalkRecoversLinkMap(m, dso, sigs, word, |dso.linkMap|);
    HeaderReads(m, dso, sigs, word);
    VisitedIsLinkMap(dso, sigs, word);
    VisitedCount(dso, sigs, word);
  }

  lemma HeldIsFound(m: View, dso: DsoDebug, word: WordSize)
    requires HasDynamic(dso) ==> Holds(m, dso.dynamic, Patched(dso.dynamicData, word, LINK_MAP_ADDR))
    ensures FindsRDebug(m, dso, word)
  {
    hide Patched, FetchWord, Fetch, Holds, Entries, DebugEntry;
    if HasDynamic(dso) {
      FetchHeld(m, dso.dynamic, Patched(dso.dynamicData, word, LINK_MAP_ADDR));
      PatchedEntries(dso.dynamicData, word, LINK_MAP_ADDR);
      PatchedElsewhere(dso.dynamicData, word, LINK_MAP_ADDR);
      if DebugEntry(Entries(dso.dynamicData, word)).Some? {
        DebuggerFindsPatch(m, dso.dynamic, dso.dynamicData, word, LINK_MAP_ADDR, |dso.dynamicData|);
      }
    }
  }

  lemma HeldIsRecovered(m: View, dso: DsoDebug, sigs: Signatures, word: WordSize)
    requires BlobFits(dso, sigs, word) && Holds(m, LINK_MAP_ADDR, Blob(dso, sigs, word))
    requires LINK_MAP_ADDR + |Blob(dso, sigs, word)| <= U64_LIMIT
    requires HasDynamic(dso) ==> Holds(m, dso.dynamic, Patched(dso.dynamicData, word, LINK_MAP_ADDR))
    ensures DebuggerRecovers(m, dso, sigs, word)
  {
    hide Blob, BlobFits, Patched, Holds, FindsRDebug, WalksLinkMap;
    HeldIsWalked(m, dso, sigs, word);
    HeldIsFound(m, dso, word);
  }

  /** The table in which the stacks are in place. */
  function Stacked(t: Table, ts: seq<ThreadSnapshot>): Table {
    InjectAll(t, StackCaptures(ts), DEFAULT_PAGE_SIZE).table
  }

  lemma StacksFirst(arch: Architecture, t: Table, ts: seq<ThreadSnapshot>, dso: DsoDebug, sigs: Signatures)
    requires InjectAll(t, AllCaptures(arch, ts, dso, sigs), DEFAULT_PAGE_SIZE).outcome.Ok?
    ensures InjectAll(t, AllCaptures(arch, ts, dso, sigs), DEFAULT_PAGE_SIZE)
            == InjectAll(Stacked(t, ts), DsoCaptures(arch, dso, sigs), DEFAULT_PAGE_SIZE)
    ensures Placeable(t, AllCaptures(arch, ts, dso, sigs), DEFAULT_PAGE_SIZE) ==>
      Placeable(Stacked(t, ts), DsoCaptures(arch, dso, sigs), DEFAULT_PAGE_SIZE)
  {
    hide InjectAll, Placeable, DsoCaptures;
    var xs, ys := StackCaptures(ts), DsoCaptures(arch, dso, sigs);
    RunInTwo(t, xs, ys, DEFAULT_PAGE_SIZE);
    if Placeable(t, xs + ys, DEFAULT_PAGE_SIZE) { PlaceableRest(t, xs, ys, DEFAULT_PAGE_SIZE); }
  }

  /** After a successful pass, whatever the stacks did to the table as long as blob and dynamic
      section can then be placed in it, a debugger that reads memory through the table recovers
      the whole link map. */
  lemma DebuggerWalksTable(arch: Architecture, t: Table, ts: seq<ThreadSnapshot>, dso: DsoDebug, sigs: Signatures)
    requires InjectAll(t, AllCaptures(arch, ts, dso, sigs), DEFAULT_PAGE_SIZE).outcome.Ok?
    requires Placeable(Stacked(t, ts), DsoCaptures(arch, dso, sigs), DEFAULT_PAGE_SIZE)
    requires dso.version != 0 || dso.linkMap != [] || dso.dynamicData != []
    requires BlobFits(dso, sigs, arch.LongSize())
    ensures var t' := InjectAll(t, AllCaptures(arch, ts, dso, sigs), DEFAULT_PAGE_SIZE).table;
            DebuggerRecovers(TableView(t'), dso, sigs, arch.LongSize())
  {
    hide InjectAll, Placeable, AllCaptures, DsoCaptures, Stacked, WellFormed, Blob, BlobFits, Patched, Holds, DebuggerRecovers;
    StacksFirst(arch, t, ts, dso, sigs);
    DsoHeld(arch, Stacked(t, ts), dso, sigs);
    HeldIsRecovered(TableView(InjectAll(t, AllCaptures(arch, ts, dso, sigs), DEFAULT_PAGE_SIZE).table), dso, sigs, arch.LongSize());
  }
}
