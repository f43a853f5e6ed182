/** How modules enter the mapping table (src/model.rs, src/rust_minidump.rs). */
module Ingestion {
  import opened Bytes
  import opened Model
  import opened Mappings
  import opened InjectionStep
  import opened LinkMap

  const READ_ONLY := Permissions(true, false, false)

  /** A loaded module: its base, its size, and the name that it is to be known by. */
  datatype Module = Module(base: u64, size: u32, name: seq<byte>) {
    predicate Addressable() { size > 0 ==> base + size < U64_LIMIT }
  }

  // ---------- insertion ----------

  method InsertMapping(table: MappingTable, mapping: Mapping)
    modifies table
    ensures table.entries == old(table.entries)[mapping.start := mapping]
  {
    table.entries := table.entries[mapping.start := mapping];
  }

  function IfAbsent(t: Table, m: Mapping): Table {
    if m.start in t then t else t[m.start := m]
  }

  method InsertMappingIfAbsent(table: MappingTable, mapping: Mapping)
    modifies table
    ensures table.entries == IfAbsent(old(table.entries), mapping)
  {
    if mapping.start !in table.entries {
      table.entries := table.entries[mapping.start := mapping];
    }
  }

  /** Every entry of a table is in another one. */
  predicate Preserves(t: Table, t': Table) {
    forall k :: k in t ==> k in t' && t'[k] == t[k]
  }

  /** Insertion preserves what was there exactly when nothing else began at that address. */
  lemma InsertionPreservesWhen(t: Table, m: Mapping)
    ensures Preserves(t, t[m.start := m]) <==> m.start !in t || t[m.start] == m
    ensures Preserves(t, IfAbsent(t, m))
  {
    if m.start in t && t[m.start] != m {
      assert t[m.start := m][m.start] == m;
    }
  }

  lemma InsertionReplaces(t: Table, m: Mapping)
    requires t == map[4096 := Synthetic(4096, 8192, [])] && m == Synthetic(4096, 12288, [])
    ensures !Preserves(t, t[m.start := m]) && Preserves(t, IfAbsent(t, m))
  {
    assert t[m.start := m][4096] == m;
  }

  // ---------- modules ----------

  function MappingOf(m: Module): Mapping
    requires m.size > 0 && m.Addressable()
  {
    Mapping(m.base, m.base + m.size, 0, READ_ONLY, Some(m.name), [])
  }

  ghost predicate AllAddressable(ms: seq<Module>) {
    forall i :: 0 <= i < |ms| ==> ms[i].Addressable()
  }

  function WithModule(t: Table, m: Module): Table
    requires m.Addressable()
  {
    if m.size == 0 then t else IfAbsent(t, MappingOf(m))
  }

  function WithModules(t: Table, ms: seq<Module>): Table
    requires AllAddressable(ms)
  {
    if ms == [] then t
    else
      assert AllAddressable(ms[..|ms| - 1]) && ms[|ms| - 1].Addressable();
      WithModule(WithModules(t, ms[..|ms| - 1]), ms[|ms| - 1])
  }

  function WithNames(sigs: Signatures, ms: seq<Module>): Signatures {
    if ms == [] then sigs else WithNames(sigs, ms[..|ms| - 1])[ms[|ms| - 1].base := ms[|ms| - 1].name]
  }

  /** Adds a mapping for every module that none begins at yet, and remembers its name. */
  method IngestModules(table: MappingTable, signatures: Signatures, modules: seq<Module>) returns (r: Result<Signatures>)
    modifies table
    ensures r.Ok? <==> forall i :: 0 <= i < |modules| && modules[i].size > 0 ==>
                         modules[i].base + modules[i].size < 0x1_0000_0000_0000_0000
    ensures r.Ok? ==> AllAddressable(modules)
    ensures r.Ok? ==> table.entries == WithModules(old(table.entries), modules) && r.value == WithNames(signatures, modules)
  {
    ghost var was := table.entries;
    var names := signatures;
    var i := 0;
    while i < |modules|
      invariant 0 <= i <= |modules|
      invariant AllAddressable(modules[..i])
      invariant table.entries == WithModules(was, modules[..i])
      invariant names == WithNames(signatures, modules[..i])
    {
      var m := modules[i];
      assert modules[..i + 1][..i] == modules[..i];
      if m.size > 0 {
        if m.base + m.size >= U64_LIMIT {
          return Err(ArithmeticPanic);
        }
        var mapping := NewMapping(m.base, m.base + m.size, READ_ONLY);
        if mapping.Ok? {
          InsertMappingIfAbsent(table, mapping.value.(filename := Some(m.name)));
        }
      }
      names := names[m.base := m.name];
      i := i + 1;
    }
    assert modules[..i] == modules;
    return Ok(names);
  }

  /** The first module with bytes at an address. */
  ghost predicate FirstAt(ms: seq<Module>, i: nat, k: u64) {
    && i < |ms| && ms[i].base == k && ms[i].size > 0
    && forall j :: 0 <= j < i ==> !(ms[j].base == k && ms[j].size > 0)
  }

  /** The maps that were there are preferred: none is changed.  At every other address the first
      module with bytes has its mapping, and there are no further mappings. */
  lemma {:induction false} MapsArePreferred(t: Table, ms: seq<Module>, k: u64)
    requires AllAddressable(ms)
    ensures k in t ==> k in WithModules(t, ms) && WithModules(t, ms)[k] == t[k]
    ensures k !in t ==>
      (k in WithModules(t, ms) <==> exists i: nat :: FirstAt(ms, i, k))
    ensures k !in t && k in WithModules(t, ms) ==>
      exists i: nat :: FirstAt(ms, i, k) && WithModules(t, ms)[k] == MappingOf(ms[i])
    decreases |ms|
  {
    if ms == [] {
      assert forall i: nat :: !FirstAt(ms, i, k);
    } else {
      var n := |ms| - 1;
      var init := ms[..n];
      MapsArePreferred(t, init, k);
      SameFirst(init, ms, k);
      if k !in t && k !in WithModules(t, init) {
        assert forall i: nat :: !FirstAt(init, i, k);
        NoneFirst(init, k);
        assert FirstAt(ms, n, k) <==> ms[n].base == k && ms[n].size > 0;
      }
    }
  }

  lemma SameFirst(init: seq<Module>, ms: seq<Module>, k: u64)
    requires ms != [] && init == ms[..|ms| - 1]
    ensures forall i: nat :: FirstAt(init, i, k) ==> FirstAt(ms, i, k)
    ensures forall i: nat :: FirstAt(ms, i, k) && i != |ms| - 1 ==> FirstAt(init, i, k)
  {
  }

  /** Unless there is a first one there is none. */
  lemma {:induction false} NoneFirst(ms: seq<Module>, k: u64)
    requires forall i: nat :: !FirstAt(ms, i, k)
    ensures forall i :: 0 <= i < |ms| ==> !(ms[i].base == k && ms[i].size > 0)
    decreases |ms|
  {
    if ms == [] {
    } else {
      var n := |ms| - 1;
      var init := ms[..n];
      SameFirst(init, ms, k);
      NoneFirst(init, k);
      assert forall i :: 0 <= i < n ==> init[i] == ms[i];
      assert !FirstAt(ms, n, k);
    }
  }

  /** A base is known by the name of its last module. */
  lemma {:induction false} LastNameWins(sigs: Signatures, ms: seq<Module>, i: nat)
    requires i < |ms| && forall j :: i < j < |ms| ==> ms[j].base != ms[i].base
    ensures ms[i].base in WithNames(sigs, ms) && WithNames(sigs, ms)[ms[i].base] == ms[i].name
    decreases |ms|
  {
    var n := |ms| - 1;
    if i == n {
    } else {
      assert ms[n].base != ms[i].base;
      LastNameWins(sigs, ms[..n], i);
    }
  }

  /** The names of other bases stay. */
  lemma {:induction false} OtherNamesStay(sigs: Signatures, ms: seq<Module>, k: u64)
    requires forall i :: 0 <= i < |ms| ==> ms[i].base != k
    ensures k in WithNames(sigs, ms) <==> k in sigs
    ensures k in sigs ==> WithNames(sigs, ms)[k] == sigs[k]
    decreases |ms|
  {
    if ms == [] {
    } else {
      assert ms[|ms| - 1].base != k;
      OtherNamesStay(sigs, ms[..|ms| - 1], k);
    }
  }

  // ---------- when the table is well formed ----------

  /** Module `i` gets a mapping: none began at its base before. */
  ghost predicate Added(t: Table, ms: seq<Module>, i: nat) {
    i < |ms| && ms[i].base !in t && FirstAt(ms, i, ms[i].base)
  }

  /** A module that gets a mapping fills whole pages and keeps clear of the maps. */
  ghost predicate ModuleFits(t: Table, m: Module, page: nat)
    requires page > 0
  {
    && Aligned(m.base, page) && Aligned(m.base + m.size, page)
    && forall k :: k in t ==> t[k].end <= m.base || m.base + m.size <= k
  }

  ghost predicate ModulesFit(t: Table, ms: seq<Module>, page: nat)
    requires page > 0
  {
    && (forall i: nat :: Added(t, ms, i) ==> ModuleFits(t, ms[i], page))
    && (forall i: nat, j: nat :: Added(t, ms, i) && Added(t, ms, j) && ms[i].base < ms[j].base ==>
          ms[i].base + ms[i].size <= ms[j].base)
  }

  /** The entries of the table: the maps, and the added modules at their bases. */
  lemma EntryIs(t: Table, ms: seq<Module>, k: u64)
    requires AllAddressable(ms)
    ensures k in t ==> k in WithModules(t, ms) && WithModules(t, ms)[k] == t[k]
    ensures k !in t && k in WithModules(t, ms) ==>
      exists i: nat :: Added(t, ms, i) && ms[i].base == k && WithModules(t, ms)[k] == MappingOf(ms[i])
  {
    MapsArePreferred(t, ms, k);
    if k !in t && k in WithModules(t, ms) {
      var i: nat :| FirstAt(ms, i, k) && WithModules(t, ms)[k] == MappingOf(ms[i]);
      assert Added(t, ms, i);
    }
  }

  lemma AddedIs(t: Table, ms: seq<Module>, i: nat)
    requires AllAddressable(ms) && Added(t, ms, i)
    ensures ms[i].base in WithModules(t, ms) && WithModules(t, ms)[ms[i].base] == MappingOf(ms[i])
  {
    var k := ms[i].base;
    MapsArePreferred(t, ms, k);
    var j: nat :| FirstAt(ms, j, k) && WithModules(t, ms)[k] == MappingOf(ms[j]);
    assert i == j;
  }

  lemma WellFormedNeedsFit(t: Table, ms: seq<Module>, page: nat)
    requires page > 0 && AllAddressable(ms) && WellFormed(WithModules(t, ms), page)
    ensures WellFormed(t, page) && ModulesFit(t, ms, page)
  {
    hide Aligned, WithModules;
    var t' := WithModules(t, ms);
    forall k | k in t
      ensures k in t' && t'[k] == t[k] && Placed(k, t[k], page)
    {
      EntryIs(t, ms, k);
      assert Placed(k, t'[k], page);
    }
    forall i: nat | Added(t, ms, i)
      ensures ms[i].base in t' && t'[ms[i].base] == MappingOf(ms[i]) && ModuleFits(t, ms[i], page)
    {
      AddedIs(t, ms, i);
      assert Placed(ms[i].base, t'[ms[i].base], page);
    }
  }

  lemma FitIsWellFormed(t: Table, ms: seq<Module>, page: nat)
    requires page > 0 && AllAddressable(ms) && WellFormed(t, page) && ModulesFit(t, ms, page)
    ensures WellFormed(WithModules(t, ms), page)
  {
    hide Aligned, WithModules;
    var t' := WithModules(t, ms);
    forall k | k in t'
      ensures Placed(k, t'[k], page)
    {
      EntryIs(t, ms, k);
      assert k in t ==> Placed(k, t[k], page);
    }
    forall j, k | j in t' && k in t' && j < k
      ensures t'[j].end <= k
    {
      EntryIs(t, ms, j);
      EntryIs(t, ms, k);
      assert (j in t ==> Placed(j, t[j], page)) && (k in t ==> Placed(k, t[k], page));
    }
  }

  /** Module ingestion leaves a page-aligned, disjoint table exactly when it starts from one,
      every module that it adds fills whole pages, and none of these overlaps a mapping or
      another of them. */
  lemma IngestedWellFormedWhen(t: Table, ms: seq<Module>, page: nat)
    requires page > 0 && AllAddressable(ms)
    ensures WellFormed(WithModules(t, ms), page) <==> WellFormed(t, page) && ModulesFit(t, ms, page)
  {
    hide WellFormed, ModulesFit;
    if WellFormed(WithModules(t, ms), page) { WellFormedNeedsFit(t, ms, page); }
    if WellFormed(t, page) && ModulesFit(t, ms, page) { FitIsWellFormed(t, ms, page); }
  }

  /** Module sizes and overlaps are not checked: two modules on one page, whose mappings are
      neither page-aligned nor disjoint. */
  lemma ModulesMayOverlap(ms: seq<Module>)
    requires ms == [Module(4096, 100, [47]), Module(4100, 8, [47])]
    ensures AllAddressable(ms) && !WellFormed(WithModules(map[], ms), 4096)
    ensures var t := WithModules(map[], ms); 4096 in t && 4100 in t && t[4096].end > 4100
  {
    hide Aligned;
    var t := WithModules(map[], ms);
    assert ms[..1] == [ms[0]] && ms[..1][..0] == [];
    assert WithModules(map[], ms[..1]) == map[4096 := MappingOf(ms[0])];
    assert t == map[4096 := MappingOf(ms[0])][4100 := MappingOf(ms[1])];
    assert 4096 in t && 4100 in t;
  }
}
