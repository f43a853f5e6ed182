/** The core file writer (src/core_writer.rs). */
module CoreWriter {
  import opened Bytes
  import opened Model
  import opened Mappings
  import opened Elf
  import opened Notes
  import opened Process
  import opened NoteSegment

  // ---------- layout ----------

  function Datas(ms: seq<Mapping>): seq<seq<byte>> {
    seq(|ms|, i requires 0 <= i < |ms| => ms[i].data)
  }

  /** File offsets of the notes and of the captured bytes, and the end of the file. */
  datatype Layout = Layout(noteOffset: nat, noteSize: nat, loadStart: nat, fileEnd: nat)

  function HeaderOf(arch: Architecture, count: u16): ElfHeader {
    ElfHeader(arch.ElfClass(), arch.ElfMachine(), count)
  }

  function NotePad(noteEnd: nat): nat {
    if noteEnd % DEFAULT_PAGE_SIZE == 0 then 0 else DEFAULT_PAGE_SIZE - noteEnd % DEFAULT_PAGE_SIZE
  }

  function LayoutOf(h: ElfHeader, notes: seq<byte>, ms: seq<Mapping>): Layout {
    var noteOffset := h.PhdrAt(1 + |ms|);
    var noteEnd := noteOffset + |notes|;
    var loadStart := noteEnd + NotePad(noteEnd);
    Layout(noteOffset, |notes|, loadStart, loadStart + |Flatten(Datas(ms))|)
  }

  predicate LayoutFits(lay: Layout) {
    lay.noteOffset + lay.noteSize <= lay.loadStart <= lay.fileEnd < U64_LIMIT
  }

  predicate RangesProper(ms: seq<Mapping>) {
    forall i :: 0 <= i < |ms| ==> ms[i].start <= ms[i].end
  }

  // ---------- program headers ----------

  function NotePhdr(lay: Layout): ProgramHeader
    requires LayoutFits(lay)
  {
    ProgramHeader(PT_NOTE, 0, lay.noteOffset, 0, 0, lay.noteSize, 0, 0)
  }

  /** No permissions at all stand for no information, and read as PF_R. */
  function SegmentFlags(p: Permissions): (f: u32)
    ensures f % 2 == 1 <==> p.execute
    ensures f / 2 % 2 == 1 <==> p.write
    ensures f / 4 % 2 == 1 <==> p.read || p == NO_PERMISSIONS
    ensures f < 8
  {
    if p == NO_PERMISSIONS then 4 else p.ToElfFlags()
  }

  /** The PT_LOAD of a mapping whose bytes, if it has any, begin at `offset`; one without
      bytes points to the end of the file. */
  function LoadPhdr(m: Mapping, offset: u64, lay: Layout): ProgramHeader
    requires LayoutFits(lay) && m.start <= m.end && |m.data| < U64_LIMIT
  {
    ProgramHeader(PT_LOAD, SegmentFlags(m.permissions), if m.data == [] then lay.fileEnd else offset,
                  m.start, 0, |m.data|, m.end - m.start, DEFAULT_PAGE_SIZE)
  }

  function DataOffset(ms: seq<Mapping>, lay: Layout, i: nat): nat
    requires i <= |ms|
  {
    lay.loadStart + PartOffset(Datas(ms), i)
  }

  lemma DataInFile(h: ElfHeader, notes: seq<byte>, ms: seq<Mapping>, i: nat)
    requires i < |ms|
    ensures var lay := LayoutOf(h, notes, ms);
            DataOffset(ms, lay, i) + |ms[i].data| <= lay.fileEnd
  {
    hide Flatten;
    FlattenPart(Datas(ms), i);
  }

  /** The file can be laid out: its headers can be counted and its offsets computed. */
  predicate Writable(h: ElfHeader, notes: seq<byte>, ms: seq<Mapping>) {
    LayoutFits(LayoutOf(h, notes, ms)) && RangesProper(ms)
  }

  function LoadPhdrs(h: ElfHeader, notes: seq<byte>, ms: seq<Mapping>): (ps: seq<ProgramHeader>)
    requires Writable(h, notes, ms)
    ensures |ps| == |ms|
  {
    var lay := LayoutOf(h, notes, ms);
    seq(|ms|, i requires 0 <= i < |ms| =>
      DataInFile(h, notes, ms, i);
      LoadPhdr(ms[i], DataOffset(ms, lay, i), lay))
  }

  function Phdrs(h: ElfHeader, notes: seq<byte>, ms: seq<Mapping>): seq<ProgramHeader>
    requires Writable(h, notes, ms)
  {
    [NotePhdr(LayoutOf(h, notes, ms))] + LoadPhdrs(h, notes, ms)
  }

  predicate PhdrsFit(h: ElfHeader, ps: seq<ProgramHeader>) {
    forall i :: 0 <= i < |ps| ==> ps[i].Fits(h.Is64())
  }

  /** The whole file. */
  function CoreFile(h: ElfHeader, notes: seq<byte>, ms: seq<Mapping>): seq<byte>
    requires Writable(h, notes, ms)
  {
    h.Encode() + Flatten(PhdrParts(Phdrs(h, notes, ms), h.Is64()))
    + notes + Zeros(NotePad(h.PhdrAt(1 + |ms|) + |notes|)) + Flatten(Datas(ms))
  }

  // ---------- writing ----------

  lemma {:induction false} FlattenCons(x: seq<byte>, parts: seq<seq<byte>>)
    ensures Flatten([x] + parts) == x + Flatten(parts)
    decreases |parts|
  {
    var all := [x] + parts;
    if parts == [] {
      assert all[..0] == [];
    } else {
      var n := |parts| - 1;
      FlattenCons(x, parts[..n]);
      assert all[..|all| - 1] == [x] + parts[..n];
    }
  }

  /** The sum of the captured sizes. */
  method TotalData(ms: seq<Mapping>) returns (total: nat)
    ensures total == |Flatten(Datas(ms))|
  {
    hide Flatten;
    ghost var parts := Datas(ms);
    FlattenNone(parts);
    total := 0;
    var i := 0;
    while i < |ms|
      invariant 0 <= i <= |ms|
      invariant total == |Flatten(parts[..i])|
    {
      FlattenNext(parts, i);
      total := total + |ms[i].data|;
      i := i + 1;
    }
    FlattenAll(parts);
  }

  /** The facts about mapping `i` that one turn of the header loop needs. */
  lemma LoadAt(h: ElfHeader, notes: seq<byte>, ms: seq<Mapping>, i: nat)
    requires Writable(h, notes, ms) && i < |ms|
    ensures var lay, loads := LayoutOf(h, notes, ms), LoadPhdrs(h, notes, ms);
            && LayoutFits(lay) && ms[i].start <= ms[i].end
            && DataOffset(ms, lay, i) + |ms[i].data| < U64_LIMIT
            && loads[i] == LoadPhdr(ms[i], DataOffset(ms, lay, i), lay)
            && PhdrParts(loads, h.Is64())[i] == loads[i].Encode(h.Is64())
            && DataOffset(ms, lay, i + 1) == DataOffset(ms, lay, i) + |ms[i].data|
  {
    hide Flatten;
    DataInFile(h, notes, ms, i);
    FlattenNext(Datas(ms), i);
  }

  lemma OffsetAt(h: ElfHeader, notes: seq<byte>, ms: seq<Mapping>, i: nat)
    requires LayoutFits(LayoutOf(h, notes, ms)) && i < |ms|
    ensures var lay := LayoutOf(h, notes, ms);
            && DataOffset(ms, lay, i) + |ms[i].data| < U64_LIMIT
            && DataOffset(ms, lay, i + 1) == DataOffset(ms, lay, i) + |ms[i].data|
  {
    hide Flatten;
    DataInFile(h, notes, ms, i);
    FlattenNext(Datas(ms), i);
  }

  /** Writes one PT_LOAD per mapping, with a running file offset over the captured bytes; a
      mapping that ends before it starts stops the loop. */
  method WriteLoadPhdrs(out: Sink, h: ElfHeader, notes: seq<byte>, ms: seq<Mapping>, lay: Layout)
    returns (r: Result<()>)
    requires LayoutFits(lay) && lay == LayoutOf(h, notes, ms)
    modifies out
    ensures r.Ok? <==> Writable(h, notes, ms) && PhdrsFit(h, LoadPhdrs(h, notes, ms))
    ensures r.Ok? ==> out.bytes == old(out.bytes) + Flatten(PhdrParts(LoadPhdrs(h, notes, ms), h.Is64()))
  {
    hide Flatten, LayoutOf, LayoutFits, LoadPhdrs, Datas;
    ghost var proper := RangesProper(ms);
    ghost var loads := if proper then LoadPhdrs(h, notes, ms) else [];
    ghost var parts := PhdrParts(loads, h.Is64());
    ghost var start := out.bytes;
    FlattenNone(parts);
    FlattenNone(Datas(ms));
    var loadOffset := lay.loadStart;
    var i := 0;
    while i < |ms|
      invariant 0 <= i <= |ms|
      invariant loadOffset == DataOffset(ms, lay, i)
      invariant forall j :: 0 <= j < i ==> ms[j].start <= ms[j].end
      invariant proper ==> out.bytes == start + Flatten(parts[..i])
      invariant proper ==> forall j :: 0 <= j < i ==> loads[j].Fits(h.Is64())
    {
      if ms[i].start > ms[i].end {
        return Err(ArithmeticPanic);
      }
      OffsetAt(h, notes, ms, i);
      if proper {
        LoadAt(h, notes, ms, i);
        FlattenNext(parts, i);
        Join2(start, Flatten(parts[..i]), parts[i]);
      }
      var phdr := LoadPhdr(ms[i], loadOffset, lay);
      if ms[i].data != [] {
        loadOffset := loadOffset + |ms[i].data|;
      }
      var _ :- phdr.Write(out, h.elfClass);
      i := i + 1;
    }
    FlattenAll(parts);
    return Ok(());
  }

  method WriteDatas(out: Sink, ms: seq<Mapping>)
    modifies out
    ensures out.bytes == old(out.bytes) + Flatten(Datas(ms))
  {
    hide Flatten;
    ghost var parts := Datas(ms);
    ghost var start := out.bytes;
    FlattenNone(parts);
    var i := 0;
    while i < |ms|
      invariant 0 <= i <= |ms|
      invariant out.bytes == start + Flatten(parts[..i])
    {
      FlattenNext(parts, i);
      Join2(start, Flatten(parts[..i]), parts[i]);
      if ms[i].data != [] {
        out.WriteAll(ms[i].data);
      }
      i := i + 1;
    }
    FlattenAll(parts);
  }

  /** The offsets, computed before anything is written. */
  method ComputeLayout(h: ElfHeader, notes: seq<byte>, ms: seq<Mapping>) returns (lay: Layout)
    ensures lay == LayoutOf(h, notes, ms)
  {
    hide Flatten;
    var phnum := 1 + |ms|;
    var noteOffset := if h.Is64() then 64 + 56 * phnum else 52 + 32 * phnum;
    var noteEnd := noteOffset + |notes|;
    var loadStart := noteEnd + NotePad(noteEnd);
    var total := TotalData(ms);
    return Layout(noteOffset, |notes|, loadStart, loadStart + total);
  }

  /** The header and all the program headers. */
  method WriteTable(out: Sink, h: ElfHeader, notes: seq<byte>, ms: seq<Mapping>, lay: Layout) returns (r: Result<()>)
    requires LayoutFits(lay) && lay == LayoutOf(h, notes, ms)
    modifies out
    ensures r.Ok? <==> Writable(h, notes, ms) && PhdrsFit(h, Phdrs(h, notes, ms))
    ensures r.Ok? ==>
      out.bytes == old(out.bytes) + (h.Encode() + Flatten(PhdrParts(Phdrs(h, notes, ms), h.Is64())))
  {
    hide Flatten, LayoutOf, LayoutFits, LoadPhdrs, PhdrParts, PhdrsFit, RangesProper;
    ghost var start, is64 := out.bytes, h.Is64();
    ghost var loads := if Writable(h, notes, ms) then LoadPhdrs(h, notes, ms) else [];
    TableParts(NotePhdr(lay), loads, h);
    h.Write(out);
    var _ :- NotePhdr(lay).Write(out, h.elfClass);
    var _ :- WriteLoadPhdrs(out, h, notes, ms, lay);
    Join3(start, h.Encode(), NotePhdr(lay).Encode(is64), Flatten(PhdrParts(loads, is64)));
    Join2(h.Encode(), NotePhdr(lay).Encode(is64), Flatten(PhdrParts(loads, is64)));
    return Ok(());
  }

  /** The file in order: headers, notes, padding, captured bytes. */
  method WriteParts(out: Sink, h: ElfHeader, notes: seq<byte>, ms: seq<Mapping>, lay: Layout) returns (r: Result<()>)
    requires LayoutFits(lay) && lay == LayoutOf(h, notes, ms)
    modifies out
    ensures r.Ok? <==> Writable(h, notes, ms) && PhdrsFit(h, Phdrs(h, notes, ms))
    ensures r.Ok? ==> out.bytes == old(out.bytes) + CoreFile(h, notes, ms)
  {
    hide Flatten, LayoutOf, LayoutFits, LoadPhdrs, PhdrParts, PhdrsFit, Writable, Phdrs;
    ghost var start := out.bytes;
    var _ :- WriteTable(out, h, notes, ms, lay);
    LayoutKnown(h, notes, ms);
    ghost var front := h.Encode() + Flatten(PhdrParts(Phdrs(h, notes, ms), h.Is64()));
    out.WriteAll(notes);
    var notePad := NotePad(lay.noteOffset + lay.noteSize);
    out.WriteAll(Zeros(notePad));
    WriteDatas(out, ms);
    Join4(start, front, notes, Zeros(notePad), Flatten(Datas(ms)));
    return Ok(());
  }

  lemma LayoutKnown(h: ElfHeader, notes: seq<byte>, ms: seq<Mapping>)
    requires Writable(h, notes, ms)
    ensures var lay := LayoutOf(h, notes, ms);
            LayoutFits(lay) && lay.noteOffset == h.PhdrAt(1 + |ms|) && lay.noteSize == |notes|
  {
  }

  lemma TableParts(first: ProgramHeader, rest: seq<ProgramHeader>, h: ElfHeader)
    ensures Flatten(PhdrParts([first] + rest, h.Is64()))
            == first.Encode(h.Is64()) + Flatten(PhdrParts(rest, h.Is64()))
    ensures PhdrsFit(h, [first] + rest) <==> first.Fits(h.Is64()) && PhdrsFit(h, rest)
  {
    hide Flatten;
    var all := [first] + rest;
    assert PhdrParts(all, h.Is64()) == [first.Encode(h.Is64())] + PhdrParts(rest, h.Is64());
    FlattenCons(first.Encode(h.Is64()), PhdrParts(rest, h.Is64()));
    assert all[0] == first;
    assert forall i :: 0 <= i < |rest| ==> all[i + 1] == rest[i];
  }

  // ---------- the writer ----------

  /** The file can be written: its notes can be built, its headers counted and laid out, and
      every field of every header fits the class. */
  ghost predicate CanWrite(arch: Architecture, s: Source, t: Table) {
    var ns, ms := SegmentNotes(s, t, arch.LongSize()), Values(t);
    && ns.Ok? && AllFit(ns.value)
    && 1 + |ms| < U16_LIMIT
    && (var h, notes := HeaderOf(arch, 1 + |ms|), Flatten(Images(ns.value));
        Writable(h, notes, ms) && PhdrsFit(h, Phdrs(h, notes, ms)))
  }

  ghost function NoteBytes(arch: Architecture, s: Source, t: Table): seq<byte>
    requires CanWrite(arch, s, t)
  {
    Flatten(Images(SegmentNotes(s, t, arch.LongSize()).value))
  }

  ghost function Header(arch: Architecture, s: Source, t: Table): ElfHeader
    requires CanWrite(arch, s, t)
  {
    HeaderOf(arch, 1 + |Values(t)|)
  }

  ghost function Written(arch: Architecture, s: Source, t: Table): seq<byte>
    requires CanWrite(arch, s, t)
  {
    CoreFile(Header(arch, s, t), NoteBytes(arch, s, t), Values(t))
  }

  /** Writes the core file; it succeeds exactly when the file can be written. */
  method WriteCore(process: CrashedProcess, out: Sink) returns (r: Result<()>)
    modifies out
    ensures var arch, t := process.architecture, process.mappings.entries;
            var s := Source(process.prpsinfo, process.auxv, process.threads, process.crashingTid,
                     process.fatalSignal, process.exceptionContext);
            && (r.Ok? <==> CanWrite(arch, s, t))
            && (r.Ok? ==> out.bytes == old(out.bytes) + Written(arch, s, t))
  {
    hide Flatten, Images, SegmentNotes, LayoutOf, Phdrs, PhdrsFit, CoreFile, AllFit;
    var noteBytes :- BuildNoteSegment(process);
    var ms := Values(process.mappings.entries);
    if 1 + |ms| >= U16_LIMIT {
      return Err(IntegerOverflow);
    }
    var h := HeaderOf(process.architecture, 1 + |ms|);
    var lay := ComputeLayout(h, noteBytes, ms);
    if lay.fileEnd >= U64_LIMIT {
      return Err(ArithmeticPanic);
    }
    LayoutOrdered(h, noteBytes, ms);
    r := WriteParts(out, h, noteBytes, ms, lay);
  }

  lemma LayoutOrdered(h: ElfHeader, notes: seq<byte>, ms: seq<Mapping>)
    ensures var lay := LayoutOf(h, notes, ms);
            lay.noteOffset + lay.noteSize <= lay.loadStart <= lay.fileEnd
  {
  }
}
