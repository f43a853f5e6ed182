/** ELF headers: the writers of src/elf.rs and the header reader of src/rust_minidump.rs. */
module Elf {
  import opened Bytes
  import opened Memory

  const ET_CORE: u16 := 4
  const PT_LOAD: u32 := 1
  const PT_NOTE: u32 := 4
  const ELF_MAGIC: seq<byte> := [0x7f, 0x45, 0x4c, 0x46]

  /** The output file. */
  class Sink {
    var bytes: seq<byte>

    constructor ()
      ensures bytes == []
    {
      bytes := [];
    }

    method WriteAll(data: seq<byte>)
      modifies this
      ensures bytes == old(bytes) + data
    {
      bytes := bytes + data;
    }
  }

  datatype ElfHeader = ElfHeader(elfClass: byte, machine: u16, phnum: u16) {
    predicate Is64() { elfClass == 2 }
    function Word(): WordSize { if Is64() then 8 else 4 }
    function Size(): nat { if Is64() then 64 else 52 }
    function PhdrSize(): nat { if Is64() then 56 else 32 }
    /** File offset of program header `i`. */
    function PhdrAt(i: nat): nat { if Is64() then 64 + 56 * i else 52 + 32 * i }
    function ShentSize(): nat { if Is64() then 64 else 40 }

    /** The identification bytes. */
    function Ident(): (s: seq<byte>)
      ensures |s| == 16
    {
      ELF_MAGIC + [elfClass, 1, 1] + Zeros(9)
    }

    function FirstPart(): seq<byte> {
      Ident() + LE(ET_CORE, 2) + LE(machine, 2) + LE(1, 4)
    }

    function AddressPart(): seq<byte> {
      LE(0, Word()) + LE(Size(), Word()) + LE(0, Word())
    }

    function CountPart(): seq<byte> {
      LE(0, 4) + LE(Size(), 2) + LE(PhdrSize(), 2) + LE(phnum, 2) + LE(ShentSize(), 2) + LE(0, 2) + LE(0, 2)
    }

    function Encode(): (s: seq<byte>)
      ensures |s| == Size()
    {
      FirstPart() + AddressPart() + CountPart()
    }

    method WriteFirstPart(out: Sink)
      modifies out
      ensures out.bytes == old(out.bytes) + FirstPart()
    {
      out.WriteAll(Ident());
      out.WriteAll(LE(ET_CORE, 2));
      out.WriteAll(LE(machine, 2));
      out.WriteAll(LE(1, 4));
      Join4(old(out.bytes), Ident(), LE(ET_CORE, 2), LE(machine, 2), LE(1, 4));
    }

    method WriteAddressPart(out: Sink)
      modifies out
      ensures out.bytes == old(out.bytes) + AddressPart()
    {
      if Is64() {
        out.WriteAll(LE(0, 8));
        out.WriteAll(LE(64, 8));
        out.WriteAll(LE(0, 8));
      } else {
        out.WriteAll(LE(0, 4));
        out.WriteAll(LE(52, 4));
        out.WriteAll(LE(0, 4));
      }
      Join3(old(out.bytes), LE(0, Word()), LE(Size(), Word()), LE(0, Word()));
    }

    method WriteCountPart(out: Sink)
      modifies out
      ensures out.bytes == old(out.bytes) + CountPart()
    {
      out.WriteAll(LE(0, 4));
      out.WriteAll(LE(Size(), 2));
      out.WriteAll(LE(PhdrSize(), 2));
      out.WriteAll(LE(phnum, 2));
      out.WriteAll(LE(ShentSize(), 2));
      out.WriteAll(LE(0, 2));
      out.WriteAll(LE(0, 2));
      Join4(old(out.bytes), LE(0, 4), LE(Size(), 2), LE(PhdrSize(), 2), LE(phnum, 2));
      Join4(old(out.bytes), LE(0, 4) + LE(Size(), 2) + LE(PhdrSize(), 2) + LE(phnum, 2),
              LE(ShentSize(), 2), LE(0, 2), LE(0, 2));
    }

    method Write(out: Sink)
      modifies out
      ensures out.bytes == old(out.bytes) + Encode()
    {
      hide FirstPart, AddressPart, CountPart;
      WriteFirstPart(out);
      WriteAddressPart(out);
      WriteCountPart(out);
      Join3(old(out.bytes), FirstPart(), AddressPart(), CountPart());
    }
  }

  // ---------- program headers ----------

  datatype ProgramHeader = ProgramHeader(
    ptype: u32,
    flags: u32,
    offset: u64,
    vaddr: u64,
    paddr: u64,
    filesz: u64,
    memsz: u64,
    align: u64)
  {
    /** Every field can be represented in the class of the file. */
    predicate Fits(is64: bool) {
      is64 || (&& offset < U32_LIMIT && vaddr < U32_LIMIT && paddr < U32_LIMIT
               && filesz < U32_LIMIT && memsz < U32_LIMIT && align < U32_LIMIT)
    }

    function Encode(is64: bool): (s: seq<byte>)
      ensures |s| == if is64 then 56 else 32
    {
      if is64 then
        (LE(ptype, 4) + LE(flags, 4) + LE(offset, 8) + LE(vaddr, 8))
        + (LE(paddr, 8) + LE(filesz, 8) + LE(memsz, 8) + LE(align, 8))
      else
        (LE(ptype, 4) + LE(offset, 4) + LE(vaddr, 4) + LE(paddr, 4))
        + (LE(filesz, 4) + LE(memsz, 4) + LE(flags, 4) + LE(align, 4))
    }

    method Write(out: Sink, elfClass: byte) returns (r: Result<()>)
      modifies out
      ensures r.Ok? <==> Fits(elfClass == 2)
      ensures r.Ok? ==> out.bytes == old(out.bytes) + Encode(elfClass == 2)
      ensures old(out.bytes) <= out.bytes
    {
      if elfClass == 2 {
        Write64(out);
        return Ok(());
      }
      r := Write32(out);
    }

    method Write64(out: Sink)
      modifies out
      ensures out.bytes == old(out.bytes) + Encode(true)
    {
      out.WriteAll(LE(ptype, 4));
      out.WriteAll(LE(flags, 4));
      out.WriteAll(LE(offset, 8));
      out.WriteAll(LE(vaddr, 8));
      Join4(old(out.bytes), LE(ptype, 4), LE(flags, 4), LE(offset, 8), LE(vaddr, 8));
      out.WriteAll(LE(paddr, 8));
      out.WriteAll(LE(filesz, 8));
      out.WriteAll(LE(memsz, 8));
      out.WriteAll(LE(align, 8));
      ghost var half := LE(ptype, 4) + LE(flags, 4) + LE(offset, 8) + LE(vaddr, 8);
      Join4(old(out.bytes) + half, LE(paddr, 8), LE(filesz, 8), LE(memsz, 8), LE(align, 8));
      Join2(old(out.bytes), half, LE(paddr, 8) + LE(filesz, 8) + LE(memsz, 8) + LE(align, 8));
    }

    method Write32(out: Sink) returns (r: Result<()>)
      modifies out
      ensures r.Ok? <==> Fits(false)
      ensures r.Ok? ==> out.bytes == old(out.bytes) + Encode(false)
      ensures old(out.bytes) <= out.bytes
    {
      hide LE;
      out.WriteAll(LE(ptype, 4));
      var _ :- WriteElf32Word(out, offset);
      var _ :- WriteElf32Word(out, vaddr);
      var _ :- WriteElf32Word(out, paddr);
      Join4(old(out.bytes), LE(ptype, 4), LE(offset, 4), LE(vaddr, 4), LE(paddr, 4));
      var _ :- WriteElf32Word(out, filesz);
      var _ :- WriteElf32Word(out, memsz);
      out.WriteAll(LE(flags, 4));
      var _ :- WriteElf32Word(out, align);
      ghost var half := LE(ptype, 4) + LE(offset, 4) + LE(vaddr, 4) + LE(paddr, 4);
      Join4(old(out.bytes) + half, LE(filesz, 4), LE(memsz, 4), LE(flags, 4), LE(align, 4));
      Join2(old(out.bytes), half, LE(filesz, 4) + LE(memsz, 4) + LE(flags, 4) + LE(align, 4));
      return Ok(());
    }
  }

  /** Rejects a value that an ELF32 field cannot hold. */
  method WriteElf32Word(out: Sink, value: u64) returns (r: Result<()>)
    modifies out
    ensures r.Ok? <==> value < U32_LIMIT
    ensures r.Ok? ==> out.bytes == old(out.bytes) + LE(value, 4)
    ensures r.Err? ==> out.bytes == old(out.bytes)
  {
    if value >= U32_LIMIT {
      return Err(IntegerOverflow);
    }
    out.WriteAll(LE(value, 4));
    return Ok(());
  }

  // ---------- reading a header back ----------

  /** Where the program headers are, as the header scan finds it. */
  datatype PhdrTable = PhdrTable(is64: bool, phoff: nat, phentsize: nat, phnum: nat)

  /** The header part of the scan: magic, class, e_phoff, e_phentsize and e_phnum. */
  function ReadHeader(bytes: seq<byte>): Option<PhdrTable> {
    if |bytes| < 5 || bytes[..4] != ELF_MAGIC then None
    else
      var is64 := bytes[4] == 2;
      match (if is64 then ReadLE(bytes, 32, 8) else ReadLE(bytes, 28, 4))
      case None => None
      case Some(phoff) =>
      match (if is64 then ReadLE(bytes, 54, 2) else ReadLE(bytes, 42, 2))
      case None => None
      case Some(phentsize) =>
      match (if is64 then ReadLE(bytes, 56, 2) else ReadLE(bytes, 44, 2))
      case None => None
      case Some(phnum) => Some(PhdrTable(is64, phoff, phentsize, phnum))
  }

  /** The fields of a program header that fill addresses and sizes, by their file offsets. */
  function FieldOffset(is64: bool, index: nat): nat
    requires index < 6
  {
    if is64 then [8, 16, 24, 32, 40, 48][index] else [4, 8, 12, 16, 20, 28][index]
  }

  function ReadField(bytes: seq<byte>, is64: bool, at: nat, index: nat): Option<nat>
    requires index < 6
  {
    ReadLE(bytes, at + FieldOffset(is64, index), if is64 then 8 else 4)
  }

  /** A reader of the bytes at `at` gets exactly this program header. */
  ghost predicate ReadsAs(bytes: seq<byte>, is64: bool, at: nat, p: ProgramHeader) {
    && ReadLE(bytes, at, 4) == Some(p.ptype)
    && ReadLE(bytes, at + (if is64 then 4 else 24), 4) == Some(p.flags)
    && ReadField(bytes, is64, at, 0) == Some(p.offset)
    && ReadField(bytes, is64, at, 1) == Some(p.vaddr)
    && ReadField(bytes, is64, at, 2) == Some(p.paddr)
    && ReadField(bytes, is64, at, 3) == Some(p.filesz)
    && ReadField(bytes, is64, at, 4) == Some(p.memsz)
    && ReadField(bytes, is64, at, 5) == Some(p.align)
  }

  lemma FourParts(m: View, at: int, a: seq<byte>, b: seq<byte>, c: seq<byte>, d: seq<byte>)
    requires Holds(m, at, a + b + c + d)
    ensures Holds(m, at, a)
    ensures Holds(m, at + |a|, b)
    ensures Holds(m, at + |a| + |b|, c)
    ensures Holds(m, at + |a| + |b| + |c|, d)
  {
    HoldsParts(m, at, a + b + c, d);
    HoldsParts(m, at, a + b, c);
    HoldsParts(m, at, a, b);
  }

  lemma Phdr64Reads(bytes: seq<byte>, at: nat, p: ProgramHeader)
    requires Holds(FileView(bytes), at, p.Encode(true))
    ensures ReadsAs(bytes, true, at, p)
  {
    hide LE, ReadLE, Holds, FileView;
    var m := FileView(bytes);
    WordLimits();
    var x := LE(p.ptype, 4) + LE(p.flags, 4) + LE(p.offset, 8) + LE(p.vaddr, 8);
    var y := LE(p.paddr, 8) + LE(p.filesz, 8) + LE(p.memsz, 8) + LE(p.align, 8);
    HoldsParts(m, at, x, y);
    FourParts(m, at, LE(p.ptype, 4), LE(p.flags, 4), LE(p.offset, 8), LE(p.vaddr, 8));
    FourParts(m, at + 24, LE(p.paddr, 8), LE(p.filesz, 8), LE(p.memsz, 8), LE(p.align, 8));
    WordInFile(bytes, at, p.ptype, 4);
    WordInFile(bytes, at + 4, p.flags, 4);
    WordInFile(bytes, at + 8, p.offset, 8);
    WordInFile(bytes, at + 16, p.vaddr, 8);
    WordInFile(bytes, at + 24, p.paddr, 8);
    WordInFile(bytes, at + 32, p.filesz, 8);
    WordInFile(bytes, at + 40, p.memsz, 8);
    WordInFile(bytes, at + 48, p.align, 8);
  }

  lemma Phdr32Reads(bytes: seq<byte>, at: nat, p: ProgramHeader)
    requires p.Fits(false) && Holds(FileView(bytes), at, p.Encode(false))
    ensures ReadsAs(bytes, false, at, p)
  {
    hide LE, ReadLE, Holds, FileView;
    var m := FileView(bytes);
    WordLimits();
    var x := LE(p.ptype, 4) + LE(p.offset, 4) + LE(p.vaddr, 4) + LE(p.paddr, 4);
    var y := LE(p.filesz, 4) + LE(p.memsz, 4) + LE(p.flags, 4) + LE(p.align, 4);
    HoldsParts(m, at, x, y);
    FourParts(m, at, LE(p.ptype, 4), LE(p.offset, 4), LE(p.vaddr, 4), LE(p.paddr, 4));
    FourParts(m, at + 16, LE(p.filesz, 4), LE(p.memsz, 4), LE(p.flags, 4), LE(p.align, 4));
    WordInFile(bytes, at, p.ptype, 4);
    WordInFile(bytes, at + 4, p.offset, 4);
    WordInFile(bytes, at + 8, p.vaddr, 4);
    WordInFile(bytes, at + 12, p.paddr, 4);
    WordInFile(bytes, at + 16, p.filesz, 4);
    WordInFile(bytes, at + 20, p.memsz, 4);
    WordInFile(bytes, at + 24, p.flags, 4);
    WordInFile(bytes, at + 28, p.align, 4);
  }

  lemma HeaderPartsHold(bytes: seq<byte>, h: ElfHeader)
    requires Holds(FileView(bytes), 0, h.Encode())
    ensures Holds(FileView(bytes), 0, h.Ident())
    ensures Holds(FileView(bytes), 24, h.AddressPart())
    ensures Holds(FileView(bytes), 24 + 3 * h.Word(), h.CountPart())
  {
    hide LE, Holds, FileView;
    var m := FileView(bytes);
    HoldsParts(m, 0, h.FirstPart() + h.AddressPart(), h.CountPart());
    HoldsParts(m, 0, h.FirstPart(), h.AddressPart());
    FourParts(m, 0, h.Ident(), LE(ET_CORE, 2), LE(h.machine, 2), LE(1, 4));
  }

  lemma IdentReads(bytes: seq<byte>, h: ElfHeader)
    requires Holds(FileView(bytes), 0, h.Ident())
    ensures |bytes| >= 16 && bytes[..4] == ELF_MAGIC && bytes[4] == h.elfClass && bytes[5] == 1 && bytes[6] == 1
    ensures forall i :: 7 <= i < 16 ==> bytes[i] == 0
  {
    HeldInFile(bytes, 0, h.Ident());
    assert bytes[..16] == h.Ident();
    assert forall i :: 7 <= i < 16 ==> bytes[..16][i] == bytes[i];
    assert bytes[..16][..4] == h.Ident()[..4];
  }

  /** The header scan recovers what the writer laid out. */
  lemma HeaderReads(bytes: seq<byte>, h: ElfHeader)
    requires Holds(FileView(bytes), 0, h.Encode())
    ensures ReadHeader(bytes) == Some(PhdrTable(h.Is64(), h.Size(), h.PhdrSize(), h.phnum))
  {
    hide LE, ReadLE, Holds, FileView;
    var m := FileView(bytes);
    var w: nat := h.Word();
    WordLimits();
    HeaderPartsHold(bytes, h);
    IdentReads(bytes, h);
    HoldsParts(m, 24, LE(0, w) + LE(h.Size(), w), LE(0, w));
    HoldsParts(m, 24, LE(0, w), LE(h.Size(), w));
    WordInFile(bytes, 24 + w, h.Size(), w);
    var counts := LE(0, 4) + LE(h.Size(), 2) + LE(h.PhdrSize(), 2) + LE(h.phnum, 2);
    var at := 24 + 3 * w;
    HoldsParts(m, at, counts + LE(h.ShentSize(), 2) + LE(0, 2), LE(0, 2));
    HoldsParts(m, at, counts + LE(h.ShentSize(), 2), LE(0, 2));
    HoldsParts(m, at, counts, LE(h.ShentSize(), 2));
    FourParts(m, at, LE(0, 4), LE(h.Size(), 2), LE(h.PhdrSize(), 2), LE(h.phnum, 2));
    WordInFile(bytes, at + 6, h.PhdrSize(), 2);
    WordInFile(bytes, at + 8, h.phnum, 2);
  }

  /** The file says what it is: a core file of its class, little-endian, for its machine. */
  lemma HeaderIdentifies(bytes: seq<byte>, h: ElfHeader)
    requires Holds(FileView(bytes), 0, h.Encode())
    ensures |bytes| >= 16 && bytes[..4] == [0x7f, 0x45, 0x4c, 0x46]
    ensures bytes[4] == h.elfClass && bytes[5] == 1 && bytes[6] == 1 && forall i :: 7 <= i < 16 ==> bytes[i] == 0
    ensures ReadLE(bytes, 16, 2) == Some(4)
    ensures ReadLE(bytes, 18, 2) == Some(h.machine)
    ensures ReadLE(bytes, 20, 4) == Some(1)
  {
    hide LE, ReadLE, Holds, FileView;
    var m := FileView(bytes);
    WordLimits();
    HoldsParts(m, 0, h.FirstPart() + h.AddressPart(), h.CountPart());
    HoldsParts(m, 0, h.FirstPart(), h.AddressPart());
    FourParts(m, 0, h.Ident(), LE(ET_CORE, 2), LE(h.machine, 2), LE(1, 4));
    IdentReads(bytes, h);
    WordInFile(bytes, 16, ET_CORE, 2);
    WordInFile(bytes, 18, h.machine, 2);
    WordInFile(bytes, 20, 1, 4);
  }

  /** Every other field of the header, at the offsets of its class: no entry point and no
      sections, the program headers right behind the header, and the sizes of the class. */
  lemma HeaderFields(bytes: seq<byte>, h: ElfHeader)
    requires Holds(FileView(bytes), 0, h.Encode())
    ensures var w: WordSize, is64 := if h.elfClass == 2 then 8 else 4, h.elfClass == 2;
            var at := 24 + 3 * w;
            && ReadLE(bytes, 24, w) == Some(0)
            && ReadLE(bytes, 24 + w, w) == Some(if is64 then 64 else 52)
            && ReadLE(bytes, 24 + 2 * w, w) == Some(0)
            && ReadLE(bytes, at, 4) == Some(0)
            && ReadLE(bytes, at + 4, 2) == Some(if is64 then 64 else 52)
            && ReadLE(bytes, at + 6, 2) == Some(if is64 then 56 else 32)
            && ReadLE(bytes, at + 8, 2) == Some(h.phnum)
            && ReadLE(bytes, at + 10, 2) == Some(if is64 then 64 else 40)
            && ReadLE(bytes, at + 12, 2) == Some(0) && ReadLE(bytes, at + 14, 2) == Some(0)
  {
    hide LE, ReadLE, Holds, FileView;
    var m := FileView(bytes);
    WordLimits();
    HeaderPartsHold(bytes, h);
    AddressFields(bytes, h);
    var at := 24 + 3 * h.Word();
    var counts := LE(0, 4) + LE(h.Size(), 2) + LE(h.PhdrSize(), 2) + LE(h.phnum, 2);
    HoldsParts(m, at, counts + LE(h.ShentSize(), 2) + LE(0, 2), LE(0, 2));
    HoldsParts(m, at, counts + LE(h.ShentSize(), 2), LE(0, 2));
    HoldsParts(m, at, counts, LE(h.ShentSize(), 2));
    FourParts(m, at, LE(0, 4), LE(h.Size(), 2), LE(h.PhdrSize(), 2), LE(h.phnum, 2));
    WordInFile(bytes, at, 0, 4);
    WordInFile(bytes, at + 4, h.Size(), 2);
    WordInFile(bytes, at + 6, h.PhdrSize(), 2);
    WordInFile(bytes, at + 8, h.phnum, 2);
    WordInFile(bytes, at + 10, h.ShentSize(), 2);
    WordInFile(bytes, at + 12, 0, 2);
    WordInFile(bytes, at + 14, 0, 2);
  }

  lemma AddressFields(bytes: seq<byte>, h: ElfHeader)
    requires Holds(FileView(bytes), 24, h.AddressPart())
    ensures ReadLE(bytes, 24, h.Word()) == Some(0)
    ensures ReadLE(bytes, 24 + h.Word(), h.Word()) == Some(h.Size())
    ensures ReadLE(bytes, 24 + 2 * h.Word(), h.Word()) == Some(0)
  {
    hide LE, ReadLE, Holds, FileView;
    var m := FileView(bytes);
    var w: nat := h.Word();
    WordLimits();
    HoldsParts(m, 24, LE(0, w) + LE(h.Size(), w), LE(0, w));
    HoldsParts(m, 24, LE(0, w), LE(h.Size(), w));
    WordInFile(bytes, 24, 0, w);
    WordInFile(bytes, 24 + w, h.Size(), w);
    WordInFile(bytes, 24 + 2 * w, 0, w);
  }

  // ---------- a whole header ----------

  function PhdrParts(ps: seq<ProgramHeader>, is64: bool): seq<seq<byte>> {
    seq(|ps|, i requires 0 <= i < |ps| => ps[i].Encode(is64))
  }

  lemma {:induction false} PhdrPartOffset(ps: seq<ProgramHeader>, is64: bool, i: nat)
    requires i <= |ps|
    ensures PartOffset(PhdrParts(ps, is64), i) == if is64 then 56 * i else 32 * i
  {
    if i == 0 {
    } else {
      PhdrPartOffset(ps, is64, i - 1);
      FlattenNext(PhdrParts(ps, is64), i - 1);
    }
  }

  /** The header scan, at the offsets it computes, reads back every program header that was
      written, in both classes and whatever follows the table. */
  lemma ReaderUndoesWriter(bytes: seq<byte>, h: ElfHeader, ps: seq<ProgramHeader>, i: nat)
    requires h.phnum == |ps| && i < |ps|
    requires forall j :: 0 <= j < |ps| ==> ps[j].Fits(h.Is64())
    requires h.Encode() + Flatten(PhdrParts(ps, h.Is64())) <= bytes
    ensures ReadHeader(bytes) == Some(PhdrTable(h.Is64(), h.Size(), h.PhdrSize(), |ps|))
    ensures ReadsAs(bytes, h.Is64(), h.PhdrAt(i), ps[i])
    ensures h.PhdrAt(i) == h.Size() + i * h.PhdrSize()
  {
    hide ReadHeader, ReadsAs, Holds, FileView, LE, ReadLE;
    var m, parts := FileView(bytes), PhdrParts(ps, h.Is64());
    FileHolds(bytes);
    var written := h.Encode() + Flatten(parts);
    HoldsSlice(m, 0, bytes, 0, |written|);
    assert bytes[..|written|] == written;
    HoldsParts(m, 0, h.Encode(), Flatten(parts));
    HeaderReads(bytes, h);
    PartHeld(m, h.Size(), parts, i);
    PhdrPartOffset(ps, h.Is64(), i);
    if h.Is64() {
      Phdr64Reads(bytes, h.PhdrAt(i), ps[i]);
    } else {
      Phdr32Reads(bytes, h.PhdrAt(i), ps[i]);
    }
  }

  /** One program header, read field by field. */
  function ReadPhdr(bytes: seq<byte>, is64: bool, at: nat): Option<ProgramHeader> {
    var ptype, flags := ReadLE(bytes, at, 4), ReadLE(bytes, at + (if is64 then 4 else 24), 4);
    var fields := seq(6, i requires 0 <= i < 6 => ReadField(bytes, is64, at, i));
    if ptype.None? || flags.None? || exists i :: 0 <= i < 6 && fields[i].None? then None
    else
      WordLimits();
      Some(ProgramHeader(ptype.value, flags.value, fields[0].value, fields[1].value, fields[2].value,
                         fields[3].value, fields[4].value, fields[5].value))
  }

  /** The program headers from entry `i` on, `phentsize` bytes apart. */
  function ReadPhdrsFrom(bytes: seq<byte>, t: PhdrTable, at: nat, left: nat): Option<seq<ProgramHeader>>
    decreases left
  {
    if left == 0 then Some([])
    else
      match ReadPhdr(bytes, t.is64, at)
      case None => None
      case Some(p) =>
        match ReadPhdrsFrom(bytes, t, at + t.phentsize, left - 1)
        case None => None
        case Some(rest) => Some([p] + rest)
  }

  /** All the program headers of a file. */
  function ReadPhdrs(bytes: seq<byte>): Option<seq<ProgramHeader>> {
    match ReadHeader(bytes)
    case None => None
    case Some(t) => ReadPhdrsFrom(bytes, t, t.phoff, t.phnum)
  }

  lemma ReadsPhdr(bytes: seq<byte>, is64: bool, at: nat, p: ProgramHeader)
    requires ReadsAs(bytes, is64, at, p)
    ensures ReadPhdr(bytes, is64, at) == Some(p)
  {
    hide ReadLE, ReadField;
  }

  lemma {:induction false} ReadsFrom(bytes: seq<byte>, h: ElfHeader, ps: seq<ProgramHeader>, i: nat)
    requires i <= |ps|
    requires forall j :: 0 <= j < |ps| ==> ReadPhdr(bytes, h.Is64(), h.PhdrAt(j)) == Some(ps[j])
    ensures var t := PhdrTable(h.Is64(), h.Size(), h.PhdrSize(), |ps|);
            ReadPhdrsFrom(bytes, t, h.PhdrAt(i), |ps| - i) == Some(ps[i..])
    decreases |ps| - i
  {
    hide ReadPhdr;
    if i == |ps| {
    } else {
      ReadsFrom(bytes, h, ps, i + 1);
      assert ps[i..] == [ps[i]] + ps[i + 1..];
    }
  }

  /** Reading a file that begins with a header and its table returns the table. */
  lemma ReadsBackPhdrs(bytes: seq<byte>, h: ElfHeader, ps: seq<ProgramHeader>)
    requires h.phnum == |ps|
    requires forall j :: 0 <= j < |ps| ==> ps[j].Fits(h.Is64())
    requires h.Encode() + Flatten(PhdrParts(ps, h.Is64())) <= bytes
    ensures ReadHeader(bytes) == Some(PhdrTable(h.Is64(), h.Size(), h.PhdrSize(), |ps|))
    ensures ReadPhdrs(bytes) == Some(ps)
  {
    hide ReadHeader, ReadPhdr, ReadsAs, ReadPhdrsFrom;
    forall j | 0 <= j < |ps|
      ensures ReadPhdr(bytes, h.Is64(), h.PhdrAt(j)) == Some(ps[j])
    {
      ReaderUndoesWriter(bytes, h, ps, j);
      ReadsPhdr(bytes, h.Is64(), h.PhdrAt(j), ps[j]);
    }
    HeaderAlone(bytes, h, ps);
    ReadsFrom(bytes, h, ps, 0);
    assert ps[0..] == ps;
  }

  lemma HeaderAlone(bytes: seq<byte>, h: ElfHeader, ps: seq<ProgramHeader>)
    requires h.Encode() + Flatten(PhdrParts(ps, h.Is64())) <= bytes
    ensures ReadHeader(bytes) == Some(PhdrTable(h.Is64(), h.Size(), h.PhdrSize(), h.phnum))
  {
    hide ReadHeader, Holds, FileView;
    FileHolds(bytes);
    HoldsSlice(FileView(bytes), 0, bytes, 0, h.Size());
    assert bytes[..h.Size()] == h.Encode();
    HeaderReads(bytes, h);
  }
}
