/** From modules to core file: what ingestion gives the rest of the pipeline. */
module IngestedCore {
  import opened Bytes
  import opened Model
  import opened Mappings
  import opened InjectionStep
  import opened InjectionRun
  import opened Ingestion
  import opened FileMeaning
  import opened NoteSegment
  import opened Elf
  import opened CoreWriter
  import opened CoreNotes
  import opened Pipeline

  /** Address `a` lies in the mapping of module `i`. */
  ghost predicate InModule(t: Table, ms: seq<Module>, i: nat, a: int) {
    Added(t, ms, i) && ms[i].base <= a < ms[i].base + ms[i].size
  }

  ghost predicate NulFreeNames(t: Table, ms: seq<Module>) {
    forall i: nat :: Added(t, ms, i) ==> 0 !in ms[i].name
  }

  // ---------- the ingested table ----------

  lemma IngestedNoData(t: Table, ms: seq<Module>)
    requires AllAddressable(ms) && NoData(t)
    ensures NoData(WithModules(t, ms))
  {
    hide WithModules;
    forall k | k in WithModules(t, ms)
      ensures WithModules(t, ms)[k].data == []
    {
      EntryIs(t, ms, k);
    }
  }

  /** The table maps files as the kernel does exactly when the maps do and the names of the
      added modules are free of NULs. */
  lemma IngestedMapsFiles(t: Table, ms: seq<Module>)
    requires AllAddressable(ms)
    ensures MapsFiles(WithModules(t, ms)) <==> MapsFiles(t) && NulFreeNames(t, ms)
  {
    hide WithModules;
    var t' := WithModules(t, ms);
    forall k | k in t
      ensures k in t' && t'[k] == t[k]
    {
      EntryIs(t, ms, k);
    }
    forall i: nat | Added(t, ms, i)
      ensures ms[i].base in t' && t'[ms[i].base] == MappingOf(ms[i])
    {
      AddedIs(t, ms, i);
    }
    forall k | k in t' && k !in t
      ensures exists i: nat :: Added(t, ms, i) && t'[k] == MappingOf(ms[i])
    {
      EntryIs(t, ms, k);
    }
  }

  /** What backs an address: the maps, as before, and the added modules from their bases on. */
  lemma IngestedBacking(t: Table, ms: seq<Module>, a: int)
    requires AllAddressable(ms) && WellFormed(t, DEFAULT_PAGE_SIZE) && ModulesFit(t, ms, DEFAULT_PAGE_SIZE)
    ensures var t' := WithModules(t, ms);
            && (Covered(t, a) ==> BackingAt(t', a) == BackingAt(t, a))
            && (forall i: nat :: InModule(t, ms, i, a) ==>
                  BackingAt(t', a) == Some(InFile(ms[i].name, a - ms[i].base, READ_ONLY)))
            && (!Covered(t, a) && (forall i: nat :: !InModule(t, ms, i, a)) ==> BackingAt(t', a) == None)
  {
    hide WithModules, WellFormed, ModulesFit, FirstAt;
    var t' := WithModules(t, ms);
    FitIsWellFormed(t, ms, DEFAULT_PAGE_SIZE);
    if Covered(t, a) {
      EntryIs(t, ms, Owner(t, a));
      OwnerIs(t', Owner(t, a), a, DEFAULT_PAGE_SIZE);
    }
    forall i: nat | InModule(t, ms, i, a)
      ensures BackingAt(t', a) == Some(InFile(ms[i].name, a - ms[i].base, READ_ONLY))
    {
      AddedHasSize(t, ms, i);
      AddedIs(t, ms, i);
      OwnerIs(t', ms[i].base, a, DEFAULT_PAGE_SIZE);
    }
    if Covered(t', a) {
      OwnedByMapOrModule(t, ms, a);
    }
  }

  lemma OwnedByMapOrModule(t: Table, ms: seq<Module>, a: int)
    requires AllAddressable(ms) && Covered(WithModules(t, ms), a)
    ensures Covered(t, a) || exists i: nat :: InModule(t, ms, i, a)
  {
    hide WithModules;
    var k: u64 := Owner(WithModules(t, ms), a);
    EntryIs(t, ms, k);
    if k in t {
      assert t[k].Contains(a);
    } else {
      var i: nat :| Added(t, ms, i) && ms[i].base == k && WithModules(t, ms)[k] == MappingOf(ms[i]);
      assert InModule(t, ms, i, a);
    }
  }

  lemma AddedHasSize(t: Table, ms: seq<Module>, i: nat)
    requires Added(t, ms, i)
    ensures i < |ms| && ms[i].size > 0
  {
  }

  // ---------- the core file ----------

  /** From maps without captured bytes and modules that fit, every PT_LOAD conforms after any
      successful run of page-disjoint captures that fit, and they are sorted by address. */
  lemma IngestedCoreConforms(t: Table, ms: seq<Module>, cs: seq<Capture>, h: ElfHeader, notes: seq<byte>)
    requires AllAddressable(ms) && NoData(t)
    requires WellFormed(t, DEFAULT_PAGE_SIZE) && ModulesFit(t, ms, DEFAULT_PAGE_SIZE)
    requires AllApart(cs, DEFAULT_PAGE_SIZE)
    requires forall i :: 0 <= i < |cs| ==> cs[i].data != [] && Fits(WithModules(t, ms), cs[i], DEFAULT_PAGE_SIZE)
    requires InjectAll(WithModules(t, ms), cs, DEFAULT_PAGE_SIZE).outcome.Ok?
    requires Writable(h, notes, Values(InjectAll(WithModules(t, ms), cs, DEFAULT_PAGE_SIZE).table))
    ensures var vs := Values(InjectAll(WithModules(t, ms), cs, DEFAULT_PAGE_SIZE).table);
            && AllConform(h, notes, vs)
            && forall i, j :: 0 <= i < j < |vs| ==>
                 LoadPhdrs(h, notes, vs)[i].vaddr < LoadPhdrs(h, notes, vs)[j].vaddr
  {
    hide WithModules, WellFormed, ModulesFit, NoData, InjectAll, Writable, Values, AllConform, LoadPhdrs, AllApart, Fits;
    FitIsWellFormed(t, ms, DEFAULT_PAGE_SIZE);
    IngestedNoData(t, ms);
    AugmentedCoreConforms(WithModules(t, ms), cs, h, notes);
  }

  /** NT_FILE, as read from the written file, gives an address in an added module that module's
      name and its distance from the base, and any other address what the maps give it. */
  lemma IngestedFilesAreWritten(arch: Architecture, s: Source, t: Table, ms: seq<Module>, cs: seq<Capture>, a: int)
    requires AllAddressable(ms) && MapsFiles(t) && NulFreeNames(t, ms)
    requires WellFormed(t, DEFAULT_PAGE_SIZE) && ModulesFit(t, ms, DEFAULT_PAGE_SIZE)
    requires Reaches(WithModules(t, ms), cs, DEFAULT_PAGE_SIZE)
    requires InjectAll(WithModules(t, ms), cs, DEFAULT_PAGE_SIZE).outcome.Ok?
    requires CanWrite(arch, s, InjectAll(WithModules(t, ms), cs, DEFAULT_PAGE_SIZE).table)
    ensures var run := InjectAll(WithModules(t, ms), cs, DEFAULT_PAGE_SIZE);
            var files := FilesOfCore(Written(arch, s, run.table), arch.LongSize());
            && files.Some?
            && (forall i: nat :: InModule(t, ms, i, a) ==>
                  LookUp(files.value, a) == Some(Place(ms[i].name, a - ms[i].base)))
            && (Covered(t, a) || (forall i: nat :: !InModule(t, ms, i, a)) ==>
                  LookUp(files.value, a) == PlaceOf(BackingAt(t, a)))
  {
    hide WithModules, WellFormed, ModulesFit, MapsFiles, NulFreeNames, InjectAll, Reaches, CanWrite, Written;
    hide FilesOfCore, LookUp, Covered, InModule, Owner;
    FitIsWellFormed(t, ms, DEFAULT_PAGE_SIZE);
    IngestedMapsFiles(t, ms);
    IngestedBacking(t, ms, a);
    FilesAreWritten(arch, s, WithModules(t, ms), cs, a);
  }
}
