/** The program-header scans of src/rust_minidump.rs on the bytes of an ELF file. */
module ElfScan {
  import opened Bytes
  import opened Model
  import opened Elf
  import DynamicSection

  const PT_DYNAMIC: u32 := 2
  const PT_PHDR: u32 := 6

  // ---------- entries ----------

  /** The header table of a file of the architecture's class. */
  function TableFor(arch: Architecture, bytes: seq<byte>): Option<PhdrTable> {
    match ReadHeader(bytes)
    case None => None
    case Some(t) => if t.is64 == arch.Is64Bit() then Some(t) else None
  }

  function EntryAt(t: PhdrTable, i: nat): nat { t.phoff + i * t.phentsize }

  function TypeOf(bytes: seq<byte>, t: PhdrTable, i: nat): Option<nat> {
    ReadLE(bytes, EntryAt(t, i), 4)
  }

  function FieldOf(bytes: seq<byte>, t: PhdrTable, i: nat, index: nat): Option<nat>
    requires index < 6
  {
    ReadField(bytes, t.is64, EntryAt(t, i), index)
  }

  /** The type and the address of entry `i` can be read. */
  predicate Readable(bytes: seq<byte>, t: PhdrTable, i: nat) {
    EntryAt(t, i) < U64_LIMIT && TypeOf(bytes, t, i).Some? && FieldOf(bytes, t, i, 1).Some?
  }

  /** So can its file offset and file size. */
  predicate FullyReadable(bytes: seq<byte>, t: PhdrTable, i: nat) {
    Readable(bytes, t, i) && FieldOf(bytes, t, i, 0).Some? && FieldOf(bytes, t, i, 3).Some?
  }

  predicate AllReadable(bytes: seq<byte>, t: PhdrTable) {
    forall i :: 0 <= i < t.phnum ==> Readable(bytes, t, i)
  }

  predicate AllFullyReadable(bytes: seq<byte>, t: PhdrTable) {
    forall i :: 0 <= i < t.phnum ==> FullyReadable(bytes, t, i)
  }

  /** The first of the first `n` entries of a type. */
  function FirstOf(bytes: seq<byte>, t: PhdrTable, ptype: u32, n: nat): (r: Option<nat>)
    ensures r.Some? ==> r.value < n && TypeOf(bytes, t, r.value) == Some(ptype)
    ensures forall i :: 0 <= i < (if r.Some? then r.value else n) ==> TypeOf(bytes, t, i) != Some(ptype)
  {
    if n == 0 then None
    else if FirstOf(bytes, t, ptype, n - 1).Some? then FirstOf(bytes, t, ptype, n - 1)
    else if TypeOf(bytes, t, n - 1) == Some(ptype) then Some(n - 1)
    else None
  }

  /** The last of the first `n` entries of a type. */
  function LastOf(bytes: seq<byte>, t: PhdrTable, ptype: u32, n: nat): (r: Option<nat>)
    ensures r.Some? ==> r.value < n && TypeOf(bytes, t, r.value) == Some(ptype)
    ensures forall i :: (if r.Some? then r.value + 1 else 0) <= i < n ==> TypeOf(bytes, t, i) != Some(ptype)
  {
    if n == 0 then None
    else if TypeOf(bytes, t, n - 1) == Some(ptype) then Some(n - 1)
    else LastOf(bytes, t, ptype, n - 1)
  }

  /** The address of an entry, if there is one. */
  function AddressOf(bytes: seq<byte>, t: PhdrTable, entry: Option<nat>): Option<nat> {
    match entry case None => None case Some(i) => FieldOf(bytes, t, i, 1)
  }

  // ---------- what the scans compute ----------

  /** How far a file is moved: its load base minus the address of its first PT_LOAD. */
  function LoadBias(bytes: seq<byte>, t: PhdrTable, loadBase: u64): Option<nat> {
    match AddressOf(bytes, t, FirstOf(bytes, t, PT_LOAD, t.phnum))
    case None => None
    case Some(first) => if loadBase < first then None else Some(loadBase - first)
  }

  function CheckedAdd(x: nat, y: nat): Option<nat> {
    if x + y < U64_LIMIT then Some(x + y) else None
  }

  function RuntimeAddress(arch: Architecture, bytes: seq<byte>, loadBase: u64): Option<nat> {
    match TableFor(arch, bytes)
    case None => None
    case Some(t) =>
      if !AllReadable(bytes, t) then None
      else
        match LoadBias(bytes, t, loadBase)
        case None => None
        case Some(bias) =>
          match AddressOf(bytes, t, LastOf(bytes, t, PT_DYNAMIC, t.phnum))
          case None => None
          case Some(dynamic) => CheckedAdd(bias, dynamic)
  }

  // ---------- the scan of elf_dynamic_runtime_addr ----------

  method ElfDynamicRuntimeAddr(arch: Architecture, bytes: seq<byte>, loadBase: u64) returns (r: Option<nat>)
    ensures r == RuntimeAddress(arch, bytes, loadBase)
  {
    hide ReadHeader, TypeOf, FieldOf, EntryAt;
    var table := TableFor(arch, bytes);
    if table.None? {
      return None;
    }
    var t := table.value;
    var firstLoad: Option<nat> := None;
    var dynamic: Option<nat> := None;
    for i := 0 to t.phnum
      invariant forall j :: 0 <= j < i ==> Readable(bytes, t, j)
      invariant firstLoad == AddressOf(bytes, t, FirstOf(bytes, t, PT_LOAD, i))
      invariant dynamic == AddressOf(bytes, t, LastOf(bytes, t, PT_DYNAMIC, i))
      invariant firstLoad.None? ==> FirstOf(bytes, t, PT_LOAD, i).None?
    {
      if EntryAt(t, i) >= U64_LIMIT {
        assert !Readable(bytes, t, i);
        return None;
      }
      var ptype, vaddr := TypeOf(bytes, t, i), FieldOf(bytes, t, i, 1);
      if ptype.None? || vaddr.None? {
        assert !Readable(bytes, t, i);
        return None;
      }
      if ptype.value == PT_LOAD && firstLoad.None? {
        firstLoad := vaddr;
      }
      if ptype.value == PT_DYNAMIC {
        dynamic := vaddr;
      }
    }
    if firstLoad.None? || loadBase < firstLoad.value || dynamic.None? {
      return None;
    }
    return CheckedAdd(loadBase - firstLoad.value, dynamic.value);
  }

  // ---------- the scan of read_executable_dynamic ----------

  /** The bytes of a dynamic section, its runtime address and the load bias. */
  datatype Dynamic = Dynamic(data: seq<byte>, address: nat, bias: nat)

  /** The file range of an entry, if it lies in the file. */
  function RangeOf(bytes: seq<byte>, t: PhdrTable, i: nat): Option<seq<byte>> {
    match FieldOf(bytes, t, i, 0)
    case None => None
    case Some(offset) =>
      match FieldOf(bytes, t, i, 3)
      case None => None
      case Some(size) => if offset + size <= |bytes| then Some(bytes[offset..offset + size]) else None
  }

  function DynamicAt(bytes: seq<byte>, t: PhdrTable, i: nat, bias: nat): Option<Dynamic> {
    match FieldOf(bytes, t, i, 1)
    case None => None
    case Some(vaddr) =>
      match CheckedAdd(vaddr, bias)
      case None => None
      case Some(address) =>
        match RangeOf(bytes, t, i)
        case None => None
        case Some(data) => Some(Dynamic(data, address, bias))
  }

  function ExecutableDynamic(arch: Architecture, bytes: seq<byte>, loadBase: u64): Option<Dynamic> {
    match TableFor(arch, bytes)
    case None => None
    case Some(t) =>
      if !AllFullyReadable(bytes, t) then None
      else
        match LoadBias(bytes, t, loadBase)
        case None => None
        case Some(bias) =>
          match LastOf(bytes, t, PT_DYNAMIC, t.phnum)
          case None => None
          case Some(i) => DynamicAt(bytes, t, i, bias)
  }

  /** File offset, address and file size of a dynamic section. */
  datatype DynamicInfo = DynamicInfo(offset: nat, vaddr: nat, size: nat)

  function InfoOf(bytes: seq<byte>, t: PhdrTable, i: nat): DynamicInfo
    requires FullyReadable(bytes, t, i)
  {
    DynamicInfo(FieldOf(bytes, t, i, 0).value, FieldOf(bytes, t, i, 1).value, FieldOf(bytes, t, i, 3).value)
  }

  method ReadExecutableDynamic(arch: Architecture, bytes: seq<byte>, loadBase: u64) returns (r: Option<Dynamic>)
    ensures r == ExecutableDynamic(arch, bytes, loadBase)
  {
    hide ReadHeader, TypeOf, FieldOf, EntryAt;
    var table := TableFor(arch, bytes);
    if table.None? {
      return None;
    }
    var t := table.value;
    var scanned := ScanFully(bytes, t);
    if scanned.None? {
      return None;
    }
    var (firstLoad, info) := scanned.value;
    ghost var last := LastOf(bytes, t, PT_DYNAMIC, t.phnum);
    assert last.Some? ==> FullyReadable(bytes, t, last.value);
    if firstLoad.None? || info.None? || loadBase < firstLoad.value {
      return None;
    }
    var bias := loadBase - firstLoad.value;
    var address := CheckedAdd(info.value.vaddr, bias);
    if address.None? {
      return None;
    }
    var end := info.value.offset + info.value.size;
    if end > |bytes| {
      return None;
    }
    return Some(Dynamic(bytes[info.value.offset..end], address.value, bias));
  }

  /** The loop: the address of the first PT_LOAD and the last PT_DYNAMIC. */
  method ScanFully(bytes: seq<byte>, t: PhdrTable) returns (r: Option<(Option<nat>, Option<DynamicInfo>)>)
    ensures r.Some? <==> AllFullyReadable(bytes, t)
    ensures r.Some? ==>
      && r.value.0 == AddressOf(bytes, t, FirstOf(bytes, t, PT_LOAD, t.phnum))
      && match LastOf(bytes, t, PT_DYNAMIC, t.phnum)
         case None => r.value.1.None?
         case Some(d) => r.value.1 == Some(InfoOf(bytes, t, d))
  {
    hide TypeOf, FieldOf, EntryAt;
    var firstLoad: Option<nat> := None;
    var info: Option<DynamicInfo> := None;
    for i := 0 to t.phnum
      invariant forall j :: 0 <= j < i ==> FullyReadable(bytes, t, j)
      invariant firstLoad == AddressOf(bytes, t, FirstOf(bytes, t, PT_LOAD, i))
      invariant firstLoad.None? ==> FirstOf(bytes, t, PT_LOAD, i).None?
      invariant match LastOf(bytes, t, PT_DYNAMIC, i)
                case None => info.None?
                case Some(d) => info == Some(InfoOf(bytes, t, d))
    {
      if EntryAt(t, i) >= U64_LIMIT {
        assert !FullyReadable(bytes, t, i);
        return None;
      }
      var ptype, offset := TypeOf(bytes, t, i), FieldOf(bytes, t, i, 0);
      var vaddr, size := FieldOf(bytes, t, i, 1), FieldOf(bytes, t, i, 3);
      if ptype.None? || offset.None? || vaddr.None? || size.None? {
        assert !FullyReadable(bytes, t, i);
        return None;
      }
      if ptype.value == PT_LOAD && firstLoad.None? {
        firstLoad := vaddr;
      }
      if ptype.value == PT_DYNAMIC {
        info := Some(DynamicInfo(offset.value, vaddr.value, size.value));
      }
    }
    return Some((firstLoad, info));
  }

  lemma FullyIsReadable(bytes: seq<byte>, t: PhdrTable)
    ensures AllFullyReadable(bytes, t) ==> AllReadable(bytes, t)
  {
    hide TypeOf, FieldOf, EntryAt;
    if AllFullyReadable(bytes, t) {
      forall i | 0 <= i < t.phnum
        ensures Readable(bytes, t, i)
      {
        assert FullyReadable(bytes, t, i);
      }
    }
  }

  /** The two scans agree: the second succeeds exactly when the first does and, moreover, every
      file offset and size can be read and the dynamic section lies in the file; the address is
      then the same. */
  lemma ScansAgree(arch: Architecture, bytes: seq<byte>, loadBase: u64)
    ensures ExecutableDynamic(arch, bytes, loadBase).Some? <==>
      && RuntimeAddress(arch, bytes, loadBase).Some?
      && var t := TableFor(arch, bytes).value;
         AllFullyReadable(bytes, t) && RangeOf(bytes, t, LastOf(bytes, t, PT_DYNAMIC, t.phnum).value).Some?
    ensures ExecutableDynamic(arch, bytes, loadBase).Some? ==>
      RuntimeAddress(arch, bytes, loadBase) == Some(ExecutableDynamic(arch, bytes, loadBase).value.address)
  {
    hide ReadHeader, TypeOf, FieldOf, EntryAt, LastOf, FirstOf, AllFullyReadable, AllReadable, RangeOf;
    if TableFor(arch, bytes).Some? {
      FullyIsReadable(bytes, TableFor(arch, bytes).value);
    }
  }

  // ---------- the scan of build_synthetic_auxv ----------

  const AT_PHDR := 3
  const AT_ENTRY := 9

  /** The run-time addresses of the program headers and of the entry point. */
  datatype Auxv = Auxv(phdr: nat, entry: nat)

  function EntryPoint(arch: Architecture, bytes: seq<byte>): Option<nat> {
    ReadLE(bytes, 24, arch.LongSize())
  }

  /** The link-time address of the program headers: PT_PHDR, or else their file offset. */
  function PhdrAddress(bytes: seq<byte>, t: PhdrTable): nat {
    match AddressOf(bytes, t, LastOf(bytes, t, PT_PHDR, t.phnum))
    case Some(vaddr) => vaddr
    case None => t.phoff
  }

  function AuxvOf(arch: Architecture, bytes: seq<byte>, loadBase: u64): Option<Auxv> {
    match TableFor(arch, bytes)
    case None => None
    case Some(t) =>
      if EntryPoint(arch, bytes).None? || !AllReadable(bytes, t) then None
      else
        match LoadBias(bytes, t, loadBase)
        case None => None
        case Some(bias) =>
          var phdr, entry := bias + PhdrAddress(bytes, t), bias + EntryPoint(arch, bytes).value;
          if FitsWord(phdr, arch.LongSize()) && FitsWord(entry, arch.LongSize()) then Some(Auxv(phdr, entry))
          else None
  }

  function AuxvBytes(a: Auxv, word: WordSize): seq<byte> {
    (LE(AT_PHDR, word) + LE(a.phdr, word)) + ((LE(AT_ENTRY, word) + LE(a.entry, word)) + (LE(0, word) + LE(0, word)))
  }

  method BuildSyntheticAuxv(arch: Architecture, bytes: seq<byte>, loadBase: u64) returns (r: Option<seq<byte>>)
    ensures match AuxvOf(arch, bytes, loadBase)
            case None => r.None?
            case Some(a) => r == Some(AuxvBytes(a, arch.LongSize()))
  {
    hide ReadHeader, TypeOf, FieldOf, EntryAt, LE, AuxvBytes, AllReadable, FirstOf, LastOf;
    var table := TableFor(arch, bytes);
    if table.None? {
      return None;
    }
    var t := table.value;
    var entryPoint := EntryPoint(arch, bytes);
    if entryPoint.None? {
      return None;
    }
    var scanned := ScanForPhdr(bytes, t);
    if scanned.None? {
      return None;
    }
    var (firstLoad, ptPhdr) := scanned.value;
    if firstLoad.None? || loadBase < firstLoad.value {
      return None;
    }
    var vaddr := if ptPhdr.Some? then ptPhdr.value else t.phoff;
    var moved := MoveBoth(arch, loadBase - firstLoad.value, vaddr, entryPoint.value);
    if moved.None? {
      return None;
    }
    return Some(AuxvBytes(moved.value, arch.LongSize()));
  }

  /** Adds the bias to both addresses, unless one would not fit a word of the target. */
  method MoveBoth(arch: Architecture, bias: nat, vaddr: nat, entryPoint: nat) returns (r: Option<Auxv>)
    ensures var word := arch.LongSize();
            r == if FitsWord(bias + vaddr, word) && FitsWord(bias + entryPoint, word)
                 then Some(Auxv(bias + vaddr, bias + entryPoint)) else None
  {
    var phdr, entry := CheckedAdd(bias, vaddr), CheckedAdd(bias, entryPoint);
    if phdr.None? || entry.None? {
      return None;
    }
    if !arch.Is64Bit() && (phdr.value >= U32_LIMIT || entry.value >= U32_LIMIT) {
      return None;
    }
    return Some(Auxv(phdr.value, entry.value));
  }

  /** The loop: the addresses of the first PT_LOAD and the last PT_PHDR. */
  method ScanForPhdr(bytes: seq<byte>, t: PhdrTable) returns (r: Option<(Option<nat>, Option<nat>)>)
    ensures r.Some? <==> AllReadable(bytes, t)
    ensures r.Some? ==>
      && r.value.0 == AddressOf(bytes, t, FirstOf(bytes, t, PT_LOAD, t.phnum))
      && r.value.1 == AddressOf(bytes, t, LastOf(bytes, t, PT_PHDR, t.phnum))
  {
    hide TypeOf, FieldOf, EntryAt;
    var firstLoad: Option<nat> := None;
    var ptPhdr: Option<nat> := None;
    for i := 0 to t.phnum
      invariant forall j :: 0 <= j < i ==> Readable(bytes, t, j)
      invariant firstLoad == AddressOf(bytes, t, FirstOf(bytes, t, PT_LOAD, i))
      invariant firstLoad.None? ==> FirstOf(bytes, t, PT_LOAD, i).None?
      invariant ptPhdr == AddressOf(bytes, t, LastOf(bytes, t, PT_PHDR, i))
    {
      if EntryAt(t, i) >= U64_LIMIT {
        assert !Readable(bytes, t, i);
        return None;
      }
      var ptype, vaddr := TypeOf(bytes, t, i), FieldOf(bytes, t, i, 1);
      if ptype.None? || vaddr.None? {
        assert !Readable(bytes, t, i);
        return None;
      }
      if ptype.value == PT_LOAD && firstLoad.None? {
        firstLoad := vaddr;
      }
      if ptype.value == PT_PHDR {
        ptPhdr := vaddr;
      }
    }
    return Some((firstLoad, ptPhdr));
  }

  lemma PairReads(tag: nat, value: nat, rest: seq<byte>, word: WordSize)
    requires FitsWord(tag, word) && FitsWord(value, word)
    ensures DynamicSection.Entries((LE(tag, word) + LE(value, word)) + rest, word)
            == [DynamicSection.Entry(tag, value)] + DynamicSection.Entries(rest, word)
  {
    hide LE, FromLE;
    var bytes := (LE(tag, word) + LE(value, word)) + rest;
    FitsWordLimit(tag, word);
    FitsWordLimit(value, word);
    DecodeEncode(tag, word);
    DecodeEncode(value, word);
    assert bytes[..word] == LE(tag, word) && bytes[word..2 * word] == LE(value, word) && bytes[2 * word..] == rest;
  }

  /** A reader of the synthetic vector finds AT_PHDR, AT_ENTRY and the terminator, with the
      addresses moved by the same bias that moves the dynamic section. */
  lemma AuxvReads(arch: Architecture, bytes: seq<byte>, loadBase: u64)
    requires AuxvOf(arch, bytes, loadBase).Some?
    ensures var a, t := AuxvOf(arch, bytes, loadBase).value, TableFor(arch, bytes).value;
            && DynamicSection.Entries(AuxvBytes(a, arch.LongSize()), arch.LongSize())
               == [DynamicSection.Entry(AT_PHDR, a.phdr), DynamicSection.Entry(AT_ENTRY, a.entry), DynamicSection.Entry(0, 0)]
            && (RuntimeAddress(arch, bytes, loadBase).Some? ==>
                  var dynamic := AddressOf(bytes, t, LastOf(bytes, t, PT_DYNAMIC, t.phnum));
                  && dynamic.Some?
                  && a.entry - EntryPoint(arch, bytes).value
                     == RuntimeAddress(arch, bytes, loadBase).value - dynamic.value)
  {
    hide LE, DynamicSection.Entries, TypeOf, FieldOf, EntryAt, ReadHeader, AllReadable, LastOf, FirstOf;
    var a, word := AuxvOf(arch, bytes, loadBase).value, arch.LongSize();
    var third := LE(0, word) + LE(0, word);
    var second := (LE(AT_ENTRY, word) + LE(a.entry, word)) + third;
    assert third == third + [];
    PairReads(AT_PHDR, a.phdr, second, word);
    PairReads(AT_ENTRY, a.entry, third, word);
    PairReads(0, 0, [], word);
    NoEntries(word);
  }

  lemma NoEntries(word: WordSize)
    ensures DynamicSection.Entries([], word) == []
  {
  }
}
