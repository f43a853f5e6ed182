/** What the three program-header scans compute, at the offsets of the ELF format. */
module ScanMeaning {
  import opened Bytes
  import opened Model
  import opened Elf
  import opened ElfScan
  import DynamicSection

  // ---------- the format ----------

  predicate Is64(arch: Architecture) { arch.X86_64? || arch.Aarch64? || arch.Mips64? }

  /** The header of an ELF file of the architecture's class, with e_phoff, e_phentsize and
      e_phnum where that class has them. */
  ghost predicate IsTable(arch: Architecture, bytes: seq<byte>, t: PhdrTable) {
    && |bytes| >= 5 && bytes[..4] == [0x7f, 0x45, 0x4c, 0x46]
    && t.is64 == Is64(arch) && (bytes[4] == 2 <==> t.is64)
    && ReadLE(bytes, if t.is64 then 32 else 28, if t.is64 then 8 else 4) == Some(t.phoff)
    && ReadLE(bytes, if t.is64 then 54 else 42, 2) == Some(t.phentsize)
    && ReadLE(bytes, if t.is64 then 56 else 44, 2) == Some(t.phnum)
  }

  /** Where program header `i` lies in the file. */
  function PhdrOffset(t: PhdrTable, i: nat): nat { t.phoff + i * t.phentsize }

  function PType(bytes: seq<byte>, t: PhdrTable, i: nat): Option<nat> {
    ReadLE(bytes, PhdrOffset(t, i), 4)
  }

  function POffset(bytes: seq<byte>, t: PhdrTable, i: nat): Option<nat> {
    var at := PhdrOffset(t, i);
    if t.is64 then ReadLE(bytes, at + 8, 8) else ReadLE(bytes, at + 4, 4)
  }

  function PVaddr(bytes: seq<byte>, t: PhdrTable, i: nat): Option<nat> {
    var at := PhdrOffset(t, i);
    if t.is64 then ReadLE(bytes, at + 16, 8) else ReadLE(bytes, at + 8, 4)
  }

  function PFilesz(bytes: seq<byte>, t: PhdrTable, i: nat): Option<nat> {
    var at := PhdrOffset(t, i);
    if t.is64 then ReadLE(bytes, at + 32, 8) else ReadLE(bytes, at + 16, 4)
  }

  /** Type and address of every entry can be read. */
  ghost predicate Scans(bytes: seq<byte>, t: PhdrTable) {
    forall i: nat :: i < t.phnum ==>
      PhdrOffset(t, i) < U64_LIMIT && PType(bytes, t, i).Some? && PVaddr(bytes, t, i).Some?
  }

  /** And file offset and file size. */
  ghost predicate ScansFully(bytes: seq<byte>, t: PhdrTable) {
    Scans(bytes, t) && forall i: nat :: i < t.phnum ==> POffset(bytes, t, i).Some? && PFilesz(bytes, t, i).Some?
  }

  ghost predicate IsFirst(bytes: seq<byte>, t: PhdrTable, ptype: u32, i: nat) {
    i < t.phnum && PType(bytes, t, i) == Some(ptype) && forall j: nat :: j < i ==> PType(bytes, t, j) != Some(ptype)
  }

  ghost predicate IsLast(bytes: seq<byte>, t: PhdrTable, ptype: u32, i: nat) {
    i < t.phnum && PType(bytes, t, i) == Some(ptype)
    && forall j: nat :: i < j < t.phnum ==> PType(bytes, t, j) != Some(ptype)
  }

  // ---------- the scans at these offsets ----------

  lemma TableIs(arch: Architecture, bytes: seq<byte>, t: PhdrTable)
    ensures TableFor(arch, bytes) == Some(t) <==> IsTable(arch, bytes, t)
  {
    hide ReadLE;
  }

  lemma EntryIs(bytes: seq<byte>, t: PhdrTable, i: nat)
    ensures EntryAt(t, i) == PhdrOffset(t, i)
    ensures TypeOf(bytes, t, i) == PType(bytes, t, i)
    ensures FieldOf(bytes, t, i, 0) == POffset(bytes, t, i)
    ensures FieldOf(bytes, t, i, 1) == PVaddr(bytes, t, i)
    ensures FieldOf(bytes, t, i, 3) == PFilesz(bytes, t, i)
  {
    hide ReadLE;
  }

  lemma ScansWhen(bytes: seq<byte>, t: PhdrTable)
    ensures AllReadable(bytes, t) <==> Scans(bytes, t)
    ensures AllFullyReadable(bytes, t) <==> ScansFully(bytes, t)
  {
    hide TypeOf, FieldOf, EntryAt, PhdrOffset, PType, PVaddr, POffset, PFilesz;
    forall i: nat
      ensures Readable(bytes, t, i) <==>
        PhdrOffset(t, i) < U64_LIMIT && PType(bytes, t, i).Some? && PVaddr(bytes, t, i).Some?
      ensures FullyReadable(bytes, t, i) <==>
        Readable(bytes, t, i) && POffset(bytes, t, i).Some? && PFilesz(bytes, t, i).Some?
    {
      EntryIs(bytes, t, i);
    }
    if AllReadable(bytes, t) {
      forall i: nat | i < t.phnum
        ensures PhdrOffset(t, i) < U64_LIMIT && PType(bytes, t, i).Some? && PVaddr(bytes, t, i).Some?
      {
        assert Readable(bytes, t, i);
      }
    }
    if AllFullyReadable(bytes, t) {
      forall i: nat | i < t.phnum
        ensures PhdrOffset(t, i) < U64_LIMIT && PType(bytes, t, i).Some? && PVaddr(bytes, t, i).Some?
        ensures POffset(bytes, t, i).Some? && PFilesz(bytes, t, i).Some?
      {
        assert FullyReadable(bytes, t, i);
      }
    }
  }

  lemma FirstIs(bytes: seq<byte>, t: PhdrTable, ptype: u32)
    ensures forall i: nat :: IsFirst(bytes, t, ptype, i) <==> FirstOf(bytes, t, ptype, t.phnum) == Some(i)
    ensures forall i: nat :: IsLast(bytes, t, ptype, i) <==> LastOf(bytes, t, ptype, t.phnum) == Some(i)
  {
    hide TypeOf, PType, FirstOf, LastOf;
    forall i: nat
      ensures TypeOf(bytes, t, i) == PType(bytes, t, i)
    {
      EntryIs(bytes, t, i);
    }
  }

  // ---------- elf_dynamic_runtime_addr ----------

  /** A file of the architecture whose entries can be scanned, its first PT_LOAD and its last
      PT_DYNAMIC. */
  ghost predicate Located(arch: Architecture, bytes: seq<byte>, t: PhdrTable, first: nat, last: nat) {
    IsTable(arch, bytes, t) && Scans(bytes, t) && IsFirst(bytes, t, 1, first) && IsLast(bytes, t, 2, last)
  }

  /** What such a file means to the scans. */
  lemma LocatedMeans(arch: Architecture, bytes: seq<byte>, t: PhdrTable, first: nat, last: nat)
    requires Located(arch, bytes, t, first, last)
    ensures TableFor(arch, bytes) == Some(t) && AllReadable(bytes, t)
    ensures FirstOf(bytes, t, PT_LOAD, t.phnum) == Some(first) && FieldOf(bytes, t, first, 1) == PVaddr(bytes, t, first)
    ensures LastOf(bytes, t, PT_DYNAMIC, t.phnum) == Some(last) && FieldOf(bytes, t, last, 1) == PVaddr(bytes, t, last)
    ensures PVaddr(bytes, t, first).Some? && PVaddr(bytes, t, last).Some?
  {
    hide TypeOf, FieldOf, EntryAt, TableFor, FirstOf, LastOf, AllReadable, IsTable, PhdrOffset, PVaddr, PType;
    TableIs(arch, bytes, t);
    ScansWhen(bytes, t);
    FirstIs(bytes, t, 1);
    FirstIs(bytes, t, 2);
    EntryIs(bytes, t, first);
    EntryIs(bytes, t, last);
  }

  /** The scan succeeds only on such a file. */
  lemma RuntimeAddressNeeds(arch: Architecture, bytes: seq<byte>, loadBase: u64)
    returns (t: PhdrTable, first: nat, last: nat)
    requires RuntimeAddress(arch, bytes, loadBase).Some?
    ensures Located(arch, bytes, t, first, last)
  {
    hide TypeOf, FieldOf, EntryAt, TableFor, FirstOf, LastOf, AllReadable, Scans, IsTable, IsFirst, IsLast;
    t := TableFor(arch, bytes).value;
    first, last := FirstOf(bytes, t, PT_LOAD, t.phnum).value, LastOf(bytes, t, PT_DYNAMIC, t.phnum).value;
    TableIs(arch, bytes, t);
    ScansWhen(bytes, t);
    FirstIs(bytes, t, 1);
    FirstIs(bytes, t, 2);
  }

  /** On such a file it gives the load base, minus the address of the first PT_LOAD, plus the
      address of the last PT_DYNAMIC, unless one of these steps leaves 64 bits. */
  lemma RuntimeAddressIs(arch: Architecture, bytes: seq<byte>, loadBase: u64, t: PhdrTable, first: nat, last: nat)
    requires Located(arch, bytes, t, first, last)
    ensures PVaddr(bytes, t, first).Some? && PVaddr(bytes, t, last).Some?
    ensures var x := loadBase - PVaddr(bytes, t, first).value + PVaddr(bytes, t, last).value;
            RuntimeAddress(arch, bytes, loadBase)
            == if PVaddr(bytes, t, first).value <= loadBase && x < U64_LIMIT then Some(x) else None
  {
    hide Located, FieldOf, TableFor, FirstOf, LastOf, AllReadable, PVaddr;
    LocatedMeans(arch, bytes, t, first, last);
  }

  // ---------- read_executable_dynamic ----------

  lemma ExecutableDynamicNeeds(arch: Architecture, bytes: seq<byte>, loadBase: u64)
    returns (t: PhdrTable, first: nat, last: nat)
    requires ExecutableDynamic(arch, bytes, loadBase).Some?
    ensures Located(arch, bytes, t, first, last) && ScansFully(bytes, t)
  {
    hide TypeOf, FieldOf, EntryAt, TableFor, FirstOf, LastOf, AllReadable, AllFullyReadable, Scans, IsTable, IsFirst, IsLast;
    t := TableFor(arch, bytes).value;
    first, last := FirstOf(bytes, t, PT_LOAD, t.phnum).value, LastOf(bytes, t, PT_DYNAMIC, t.phnum).value;
    TableIs(arch, bytes, t);
    ScansWhen(bytes, t);
    FirstIs(bytes, t, 1);
    FirstIs(bytes, t, 2);
  }

  lemma LastInside(arch: Architecture, bytes: seq<byte>, t: PhdrTable, first: nat, last: nat)
    requires Located(arch, bytes, t, first, last)
    ensures last < t.phnum
  {
  }

  lemma FullyMeans(bytes: seq<byte>, t: PhdrTable, i: nat)
    requires ScansFully(bytes, t)
    ensures AllFullyReadable(bytes, t)
    ensures FieldOf(bytes, t, i, 0) == POffset(bytes, t, i) && FieldOf(bytes, t, i, 3) == PFilesz(bytes, t, i)
    ensures i < t.phnum ==> POffset(bytes, t, i).Some? && PFilesz(bytes, t, i).Some?
  {
    hide TypeOf, FieldOf, EntryAt, PhdrOffset, PType, PVaddr, POffset, PFilesz, AllFullyReadable;
    ScansWhen(bytes, t);
    EntryIs(bytes, t, i);
  }

  /** The second scan gives the bytes of the last PT_DYNAMIC, from its file offset on and as
      many as its file size, its run-time address, and the bias: load base minus the address of
      the first PT_LOAD. */
  lemma ExecutableDynamicIs(arch: Architecture, bytes: seq<byte>, loadBase: u64, t: PhdrTable, first: nat, last: nat)
    requires Located(arch, bytes, t, first, last) && ScansFully(bytes, t)
    ensures PVaddr(bytes, t, first).Some? && PVaddr(bytes, t, last).Some?
    ensures POffset(bytes, t, last).Some? && PFilesz(bytes, t, last).Some?
    ensures var r, load := ExecutableDynamic(arch, bytes, loadBase), PVaddr(bytes, t, first).value;
            var offset, size := POffset(bytes, t, last).value, PFilesz(bytes, t, last).value;
            var address := PVaddr(bytes, t, last).value + (loadBase - load);
            && (r.Some? <==> load <= loadBase && address < U64_LIMIT && offset + size <= |bytes|)
            && (r.Some? ==>
                  && |r.value.data| == size && (forall j :: 0 <= j < size ==> r.value.data[j] == bytes[offset + j])
                  && r.value.address == address && r.value.bias == loadBase - load)
  {
    hide Located, FieldOf, TableFor, FirstOf, LastOf, AllReadable, AllFullyReadable, ScansFully;
    hide PVaddr, POffset, PFilesz, EntryAt, TypeOf;
    LocatedMeans(arch, bytes, t, first, last);
    FullyMeans(bytes, t, last);
    assert last < t.phnum by { LastInside(arch, bytes, t, first, last); }
  }

  // ---------- build_synthetic_auxv ----------

  ghost predicate HasEntryPoint(arch: Architecture, bytes: seq<byte>, t: PhdrTable, first: nat) {
    && IsTable(arch, bytes, t) && Scans(bytes, t) && IsFirst(bytes, t, 1, first)
    && ReadLE(bytes, 24, if t.is64 then 8 else 4).Some?
  }

  lemma AuxvNeeds(arch: Architecture, bytes: seq<byte>, loadBase: u64) returns (t: PhdrTable, first: nat)
    requires AuxvOf(arch, bytes, loadBase).Some?
    ensures HasEntryPoint(arch, bytes, t, first)
  {
    hide ReadLE, TypeOf, FieldOf, EntryAt, TableFor, FirstOf, LastOf, AllReadable, Scans, IsFirst, PhdrAddress;
    t := TableFor(arch, bytes).value;
    first := FirstOf(bytes, t, PT_LOAD, t.phnum).value;
    TableIs(arch, bytes, t);
    ScansWhen(bytes, t);
    FirstIs(bytes, t, 1);
  }

  /** Where the program headers are at link time: at the address of the last PT_PHDR, or at
      their file offset if there is none. */
  ghost predicate PhdrsAt(bytes: seq<byte>, t: PhdrTable, at: nat) {
    && (forall i: nat :: IsLast(bytes, t, 6, i) ==> PVaddr(bytes, t, i) == Some(at))
    && ((forall i: nat :: !IsLast(bytes, t, 6, i)) ==> at == t.phoff)
  }

  lemma PhdrAddressIs(bytes: seq<byte>, t: PhdrTable, at: nat)
    requires Scans(bytes, t) && PhdrsAt(bytes, t, at)
    ensures PhdrAddress(bytes, t) == at
  {
    hide TypeOf, FieldOf, EntryAt, LastOf, PVaddr, PType;
    FirstIs(bytes, t, 6);
    var last := LastOf(bytes, t, PT_PHDR, t.phnum);
    if last.Some? {
      assert IsLast(bytes, t, 6, last.value);
      EntryIs(bytes, t, last.value);
    }
  }

  lemma EntryPointMeans(arch: Architecture, bytes: seq<byte>, t: PhdrTable, first: nat)
    requires HasEntryPoint(arch, bytes, t, first)
    ensures TableFor(arch, bytes) == Some(t) && AllReadable(bytes, t) && Scans(bytes, t)
    ensures FirstOf(bytes, t, PT_LOAD, t.phnum) == Some(first) && FieldOf(bytes, t, first, 1) == PVaddr(bytes, t, first)
    ensures PVaddr(bytes, t, first).Some?
    ensures t.is64 == arch.Is64Bit() && ReadLE(bytes, 24, if t.is64 then 8 else 4).Some?
  {
    hide TypeOf, FieldOf, EntryAt, TableFor, FirstOf, LastOf, AllReadable, PhdrOffset, PVaddr, PType, ReadLE;
    TableIs(arch, bytes, t);
    ScansWhen(bytes, t);
    FirstIs(bytes, t, 1);
    EntryIs(bytes, t, first);
  }

  /** The third scan gives a vector of three pairs: 3 and the run-time address of the program
      headers, 9 and that of the entry point, 0 and 0; both moved by load base minus the
      address of the first PT_LOAD, unless one leaves the word of the class. */
  lemma AuxvIs(arch: Architecture, bytes: seq<byte>, loadBase: u64, t: PhdrTable, first: nat, at: nat)
    requires HasEntryPoint(arch, bytes, t, first) && PhdrsAt(bytes, t, at)
    ensures PVaddr(bytes, t, first).Some?
    ensures var a, word: WordSize, limit := AuxvOf(arch, bytes, loadBase), if t.is64 then 8 else 4,
                if t.is64 then U64_LIMIT else U32_LIMIT;
            var bias, entry := loadBase - PVaddr(bytes, t, first).value, ReadLE(bytes, 24, word).value;
            && word == arch.LongSize()
            && (a.Some? <==> bias >= 0 && bias + at < limit && bias + entry < limit)
            && (a.Some? ==>
                  DynamicSection.Entries(AuxvBytes(a.value, word), word)
                  == [DynamicSection.Entry(3, bias + at), DynamicSection.Entry(9, bias + entry), DynamicSection.Entry(0, 0)])
  {
    hide ReadLE, TypeOf, FieldOf, EntryAt, TableFor, FirstOf, LastOf, AllReadable, PVaddr, PhdrAddress, PhdrsAt;
    hide AuxvBytes, DynamicSection.Entries, HasEntryPoint;
    EntryPointMeans(arch, bytes, t, first);
    PhdrAddressIs(bytes, t, at);
    if AuxvOf(arch, bytes, loadBase).Some? { AuxvReads(arch, bytes, loadBase); }
  }
}
