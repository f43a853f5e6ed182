/** What a written core file says of itself, field by field, and exactly when it is written. */
module CoreFormat {
  import opened Bytes
  import opened Model
  import opened Memory
  import opened Mappings
  import NtFile
  import opened Process
  import ThreadNotes
  import opened NoteSegment
  import opened Registers
  import opened Elf
  import opened CoreWriter
  import opened CoreReader
  import opened Notes

  // ---------- the header ----------

  /** The machine numbers of the ELF standard. */
  function MachineOf(arch: Architecture): nat {
    match arch
    case X86 => 3
    case X86_64 => 62
    case Arm => 40
    case Aarch64 => 183
    case Mips => 8
    case Mips64 => 8
  }

  predicate Is32Bit(arch: Architecture) { arch.X86? || arch.Arm? || arch.Mips? }

  lemma HeaderHeld(h: ElfHeader, notes: seq<byte>, ms: seq<Mapping>)
    requires Writable(h, notes, ms)
    ensures Holds(FileView(CoreFile(h, notes, ms)), 0, h.Encode())
  {
    hide Flatten, Holds, FileView, Phdrs;
    var bytes := CoreFile(h, notes, ms);
    var v, table := FileView(bytes), h.Encode() + Flatten(PhdrParts(Phdrs(h, notes, ms), h.Is64()));
    var pad := Zeros(NotePad(h.PhdrAt(1 + |ms|) + |notes|));
    FileHolds(bytes);
    HoldsParts(v, 0, table + notes + pad, Flatten(Datas(ms)));
    HoldsParts(v, 0, table + notes, pad);
    HoldsParts(v, 0, table, notes);
    HoldsParts(v, 0, h.Encode(), Flatten(PhdrParts(Phdrs(h, notes, ms), h.Is64())));
  }

  /** A file says that it is a core file of the class and machine of an architecture. */
  ghost predicate SaysItIs(bytes: seq<byte>, arch: Architecture) {
    && |bytes| >= 16 && bytes[..4] == [0x7f, 0x45, 0x4c, 0x46]
    && bytes[4] == (if Is32Bit(arch) then 1 else 2) && bytes[5] == 1 && bytes[6] == 1
    && ReadLE(bytes, 16, 2) == Some(4) && ReadLE(bytes, 18, 2) == Some(MachineOf(arch))
    && ReadLE(bytes, 20, 4) == Some(1)
  }

  /** The written file is a core file of the class and machine of the process; the words of its
      notes have the width of that class. */
  lemma WrittenSaysItIs(arch: Architecture, s: Source, t: Table)
    requires CanWrite(arch, s, t)
    ensures SaysItIs(Written(arch, s, t), arch)
    ensures arch.LongSize() == if Is32Bit(arch) then 4 else 8
  {
    hide Writable, PhdrsFit, CoreFile, SegmentNotes, AllFit, Values, Holds, FileView, ReadLE;
    var h := Header(arch, s, t);
    HeaderHeld(h, NoteBytes(arch, s, t), Values(t));
    HeaderIdentifies(Written(arch, s, t), h);
  }

  // ---------- the program headers ----------

  /** The number of captured bytes of the first `i` mappings. */
  function BytesBefore(ms: seq<Mapping>, i: nat): nat
    requires i <= |ms|
  {
    if i == 0 then 0 else BytesBefore(ms, i - 1) + |ms[i - 1].data|
  }

  /** Where the notes begin: behind the header and one program header for them and for each
      mapping. */
  function NotesAt(arch: Architecture, mappings: nat): nat {
    if Is32Bit(arch) then 52 + 32 * (1 + mappings) else 64 + 56 * (1 + mappings)
  }

  /** The least multiple of 4096 at or above `n`. */
  function PageUp(n: nat): (r: nat)
    ensures r % 4096 == 0 && n <= r < n + 4096
  {
    (n + 4095) / 4096 * 4096
  }

  /** Where the captured bytes begin: on the first page behind the notes. */
  function DataAt(arch: Architecture, mappings: nat, notes: nat): nat {
    PageUp(NotesAt(arch, mappings) + notes)
  }

  /** The program header that mapping `i` should have. */
  ghost predicate IsLoad(p: ProgramHeader, ms: seq<Mapping>, i: nat, dataAt: nat)
    requires i < |ms|
  {
    var m := ms[i];
    && p.ptype == 1 && p.vaddr == m.start && p.memsz == m.end - m.start && p.filesz == |m.data|
    && p.paddr == 0 && p.align == 4096
    && p.offset == (if m.data == [] then dataAt + BytesBefore(ms, |ms|) else dataAt + BytesBefore(ms, i))
    && p.flags == (if !m.permissions.read && !m.permissions.write && !m.permissions.execute then 4
                   else (if m.permissions.read then 4 else 0) + (if m.permissions.write then 2 else 0)
                        + (if m.permissions.execute then 1 else 0))
  }

  lemma {:induction false} BytesBeforeIs(ms: seq<Mapping>, i: nat)
    requires i <= |ms|
    ensures PartOffset(Datas(ms), i) == BytesBefore(ms, i)
    decreases i
  {
    hide Flatten;
    if i == 0 {
      FlattenNone(Datas(ms));
    } else {
      BytesBeforeIs(ms, i - 1);
      FlattenNext(Datas(ms), i - 1);
    }
  }

  lemma LayoutIs(arch: Architecture, notes: seq<byte>, ms: seq<Mapping>)
    requires 1 + |ms| < U16_LIMIT
    ensures var lay, dataAt := LayoutOf(HeaderOf(arch, 1 + |ms|), notes, ms), DataAt(arch, |ms|, |notes|);
            && lay.noteOffset == NotesAt(arch, |ms|) && lay.noteSize == |notes| && lay.loadStart == dataAt
            && lay.fileEnd == dataAt + BytesBefore(ms, |ms|)
  {
    hide Flatten, PageUp, NotePad, Datas, BytesBefore;
    DatasCount(ms);
    FlattenAll(Datas(ms));
    BytesBeforeIs(ms, |ms|);
    PadIs(NotesAt(arch, |ms|) + |notes|);
  }

  lemma PadIs(n: nat)
    ensures n + NotePad(n) == PageUp(n)
  {
  }

  lemma DatasCount(ms: seq<Mapping>)
    ensures |Datas(ms)| == |ms|
  {
  }

  lemma LoadIs(arch: Architecture, notes: seq<byte>, ms: seq<Mapping>, i: nat)
    requires 1 + |ms| < U16_LIMIT && Writable(HeaderOf(arch, 1 + |ms|), notes, ms) && i < |ms|
    ensures IsLoad(LoadPhdrs(HeaderOf(arch, 1 + |ms|), notes, ms)[i], ms, i, DataAt(arch, |ms|, |notes|))
  {
    hide Flatten, LayoutOf, Writable, LoadPhdrs, DataAt, NotesAt, BytesBefore;
    var h := HeaderOf(arch, 1 + |ms|);
    LoadAt(h, notes, ms, i);
    LayoutIs(arch, notes, ms);
    BytesBeforeIs(ms, i);
  }

  /** The program headers of a file: the notes right behind the headers, then one segment per
      mapping, its bytes behind those of the mappings before it. */
  ghost predicate HasHeaders(bytes: seq<byte>, arch: Architecture, notes: seq<byte>, ms: seq<Mapping>) {
    var ps, dataAt := ReadPhdrs(bytes), DataAt(arch, |ms|, |notes|);
    && |bytes| == dataAt + BytesBefore(ms, |ms|)
    && (forall a :: NotesAt(arch, |ms|) + |notes| <= a < dataAt ==> bytes[a] == 0)
    && ps.Some? && |ps.value| == 1 + |ms|
    && ps.value[0].ptype == 4 && ps.value[0].flags == 0
    && ps.value[0].offset == NotesAt(arch, |ms|) && ps.value[0].filesz == |notes|
    && ps.value[0].vaddr == 0 && ps.value[0].paddr == 0 && ps.value[0].memsz == 0 && ps.value[0].align == 0
    && var loads := ps.value[1..];
       forall i :: 0 <= i < |ms| ==> IsLoad(loads[i], ms, i, dataAt)
  }

  /** Between the notes and the captured bytes there are zeros. */
  lemma PaddingIsZero(arch: Architecture, notes: seq<byte>, ms: seq<Mapping>)
    requires 1 + |ms| < U16_LIMIT && Writable(HeaderOf(arch, 1 + |ms|), notes, ms)
    ensures var bytes := CoreFile(HeaderOf(arch, 1 + |ms|), notes, ms);
            && DataAt(arch, |ms|, |notes|) <= |bytes|
            && forall a :: NotesAt(arch, |ms|) + |notes| <= a < DataAt(arch, |ms|, |notes|) ==> bytes[a] == 0
  {
    hide Flatten, Phdrs, LayoutOf, PageUp, NotePad, NotesAt;
    var h := HeaderOf(arch, 1 + |ms|);
    var table := h.Encode() + Flatten(PhdrParts(Phdrs(h, notes, ms), h.Is64()));
    var end := NotesAt(arch, |ms|) + |notes|;
    TableSize(h, notes, ms);
    NotesAtIs(arch, ms);
    PadIs(end);
    assert |table + notes| == end;
    assert CoreFile(h, notes, ms) == (table + notes) + Zeros(NotePad(end)) + Flatten(Datas(ms));
  }

  lemma NotesAtIs(arch: Architecture, ms: seq<Mapping>)
    requires 1 + |ms| < U16_LIMIT
    ensures HeaderOf(arch, 1 + |ms|).PhdrAt(1 + |ms|) == NotesAt(arch, |ms|)
  {
  }

  lemma FileHasHeaders(arch: Architecture, notes: seq<byte>, ms: seq<Mapping>)
    requires 1 + |ms| < U16_LIMIT
    requires var h := HeaderOf(arch, 1 + |ms|); Writable(h, notes, ms) && PhdrsFit(h, Phdrs(h, notes, ms))
    ensures HasHeaders(CoreFile(HeaderOf(arch, 1 + |ms|), notes, ms), arch, notes, ms)
  {
    hide PhdrsFit, CoreFile, ReadPhdrs, LayoutOf, LoadPhdrs, IsLoad, DataAt, NotesAt, BytesBefore, ReadHeader;
    hide LayoutFits, RangesProper, Flatten;
    var h := HeaderOf(arch, 1 + |ms|);
    FileParts(h, notes, ms);
    PaddingIsZero(arch, notes, ms);
    FitsEach(h, Phdrs(h, notes, ms));
    ReadsBackPhdrs(CoreFile(h, notes, ms), h, Phdrs(h, notes, ms));
    LayoutIs(arch, notes, ms);
    forall i | 0 <= i < |ms|
      ensures IsLoad(LoadPhdrs(h, notes, ms)[i], ms, i, DataAt(arch, |ms|, |notes|))
    {
      LoadIs(arch, notes, ms, i);
    }
    assert Phdrs(h, notes, ms)[1..] == LoadPhdrs(h, notes, ms);
  }

  lemma WrittenHasHeaders(arch: Architecture, s: Source, t: Table)
    requires CanWrite(arch, s, t)
    ensures HasHeaders(Written(arch, s, t), arch, NoteBytes(arch, s, t), Values(t))
  {
    hide PhdrsFit, CoreFile, SegmentNotes, AllFit, Values, HasHeaders, Phdrs, Writable;
    FileHasHeaders(arch, NoteBytes(arch, s, t), Values(t));
  }

  lemma FitsEach(h: ElfHeader, ps: seq<ProgramHeader>)
    requires PhdrsFit(h, ps)
    ensures forall j :: 0 <= j < |ps| ==> ps[j].Fits(h.Is64())
  {
  }

  // ---------- exactly when a file is written ----------

  /** On 32 bits, every field of the program headers fits 32 bits. */
  ghost predicate FieldsFit(arch: Architecture, ms: seq<Mapping>, notes: nat) {
    Is32Bit(arch) ==>
      var dataAt := DataAt(arch, |ms|, notes);
      && NotesAt(arch, |ms|) < 0x1_0000_0000 && notes < 0x1_0000_0000
      && forall i :: 0 <= i < |ms| ==> LoadFits(ms, i, dataAt)
  }

  ghost predicate LoadFits(ms: seq<Mapping>, i: nat, dataAt: nat)
    requires i < |ms|
  {
    && ms[i].start < 0x1_0000_0000 && ms[i].end - ms[i].start < 0x1_0000_0000 && |ms[i].data| < 0x1_0000_0000
    && (if ms[i].data == [] then dataAt + BytesBefore(ms, |ms|) else dataAt + BytesBefore(ms, i)) < 0x1_0000_0000
  }

  lemma LoadFitsWhen(arch: Architecture, notes: seq<byte>, ms: seq<Mapping>, i: nat)
    requires 1 + |ms| < U16_LIMIT && Writable(HeaderOf(arch, 1 + |ms|), notes, ms) && i < |ms|
    ensures var h := HeaderOf(arch, 1 + |ms|);
            LoadPhdrs(h, notes, ms)[i].Fits(h.Is64()) <==> (Is32Bit(arch) ==> LoadFits(ms, i, DataAt(arch, |ms|, |notes|)))
  {
    hide Flatten, LayoutOf, Writable, LoadPhdrs, DataAt, BytesBefore;
    LoadIs(arch, notes, ms, i);
  }

  lemma FieldsFitWhen(arch: Architecture, notes: seq<byte>, ms: seq<Mapping>)
    requires 1 + |ms| < U16_LIMIT && Writable(HeaderOf(arch, 1 + |ms|), notes, ms)
    ensures var h := HeaderOf(arch, 1 + |ms|); PhdrsFit(h, Phdrs(h, notes, ms)) <==> FieldsFit(arch, ms, |notes|)
  {
    hide Flatten, LayoutOf, LoadPhdrs, DataAt, LoadFits, NotesAt, RangesProper, LayoutFits;
    var h := HeaderOf(arch, 1 + |ms|);
    LayoutIs(arch, notes, ms);
    TableParts(NotePhdr(LayoutOf(h, notes, ms)), LoadPhdrs(h, notes, ms), h);
    forall i | 0 <= i < |ms|
      ensures LoadPhdrs(h, notes, ms)[i].Fits(h.Is64()) <==> (Is32Bit(arch) ==> LoadFits(ms, i, DataAt(arch, |ms|, |notes|)))
    {
      LoadFitsWhen(arch, notes, ms, i);
    }
  }

  /** The parts of a file can be counted, laid out and represented. */
  ghost predicate Representable(arch: Architecture, ms: seq<Mapping>, notes: nat) {
    && 1 + |ms| < 0x1_0000
    && (forall i :: 0 <= i < |ms| ==> ms[i].start <= ms[i].end)
    && DataAt(arch, |ms|, notes) + BytesBefore(ms, |ms|) < 0x1_0000_0000_0000_0000
    && FieldsFit(arch, ms, notes)
  }

  lemma RepresentableWhen(arch: Architecture, notes: seq<byte>, ms: seq<Mapping>)
    requires 1 + |ms| < U16_LIMIT
    ensures var h := HeaderOf(arch, 1 + |ms|);
            Writable(h, notes, ms) && PhdrsFit(h, Phdrs(h, notes, ms)) <==> Representable(arch, ms, |notes|)
  {
    hide Flatten, LayoutOf, LoadPhdrs, DataAt, FieldsFit, PhdrsFit, Phdrs, NotesAt, BytesBefore;
    var h := HeaderOf(arch, 1 + |ms|);
    LayoutIs(arch, notes, ms);
    LayoutOrdered(h, notes, ms);
    if Writable(h, notes, ms) { FieldsFitWhen(arch, notes, ms); }
  }

  // ---------- exactly when the notes can be built ----------

  /** The ranges of the files fit the words of the target. */
  ghost predicate RangesFit(fs: seq<Mapping>, word: WordSize) {
    && |fs| < (if word == 4 then 0x1_0000_0000 else 0x1_0000_0000_0000_0000)
    && (word == 4 ==> forall m :: m in fs ==>
          m.start < 0x1_0000_0000 && m.end < 0x1_0000_0000 && m.offset < 0x1000_0000_0000)
  }

  lemma RangesFitWhen(fs: seq<Mapping>, word: WordSize)
    ensures NtFile.PayloadFits(fs, word) <==> RangesFit(fs, word)
  {
    forall i | 0 <= i < |fs|
      ensures NtFile.RangeFits(fs[i], word) <==>
        (word == 4 ==> fs[i].start < 0x1_0000_0000 && fs[i].end < 0x1_0000_0000 && fs[i].offset < 0x1000_0000_0000)
    {
    }
  }

  /** Every context that counts belongs to the architecture. */
  ghost predicate ContextsFit(expected: seq<(ThreadSnapshot, Context)>) {
    forall k :: 0 <= k < |expected| ==> expected[k].1.prReg.Ok?
  }

  lemma {:induction false} ThreadNotesWhen(ordered: seq<ThreadSnapshot>, n: nat, s: Source, word: WordSize)
    requires n <= |ordered|
    ensures ThreadNotes.NotesUpTo(ordered, n, s.fatal, s.exception, word).Ok?
            <==> ContextsFit(WithContext(ordered[..n], s.exception))
    decreases n
  {
    if n == 0 {
    } else {
      ThreadNotesWhen(ordered, n - 1, s, word);
      var before, all := WithContext(ordered[..n - 1], s.exception), WithContext(ordered[..n], s.exception);
      assert ordered[..n][..n - 1] == ordered[..n - 1] && ordered[..n][n - 1] == ordered[n - 1];
      assert before <= all && |all| <= |before| + 1;
      ContextsGrow(before, all);
    }
  }

  lemma ContextsGrow(before: seq<(ThreadSnapshot, Context)>, all: seq<(ThreadSnapshot, Context)>)
    requires before <= all && |all| <= |before| + 1
    ensures ContextsFit(all) <==> ContextsFit(before) && (|all| > |before| ==> all[|before|].1.prReg.Ok?)
  {
  }

  /** The sizes of every note fit 32 bits. */
  ghost predicate SizesFit(ns: seq<Note>) {
    forall i :: 0 <= i < |ns| ==> |ns[i].name| < 0x1_0000_0000 && |ns[i].desc| < 0x1_0000_0000
  }

  /** The notes can be built exactly when the ranges of the files fit and every context that
      counts belongs to the architecture. */
  lemma NotesExactlyWhen(arch: Architecture, s: Source, t: Table)
    ensures SegmentNotes(s, t, arch.LongSize()).Ok? <==>
      && RangesFit(NtFile.FileBacked(Values(t)), if Is32Bit(arch) then 4 else 8)
      && ContextsFit(WithContext(ThreadNotes.Ordered(s.threads, s.crashing), s.exception))
  {
    hide RangesFit, ContextsFit, Values, ThreadNotes.Ordered, ThreadNotes.NotesUpTo, WithContext, FixedNotes;
    hide NtFile.PayloadFits, NtFile.FileBacked, NtFile.Payload;
    var ordered := ThreadNotes.Ordered(s.threads, s.crashing);
    RangesFitWhen(NtFile.FileBacked(Values(t)), arch.LongSize());
    ThreadNotesWhen(ordered, |ordered|, s, arch.LongSize());
    assert ordered[..|ordered|] == ordered;
  }

  lemma SizesFitWhen(ns: seq<Note>)
    ensures SizesFit(ns) <==> AllFit(ns)
  {
  }

  /** A core file can be written exactly when the notes can be built, no note is too big, and
      the parts can be represented. */
  lemma CanWriteExactlyWhen(arch: Architecture, s: Source, t: Table)
    ensures CanWrite(arch, s, t) <==>
      && RangesFit(NtFile.FileBacked(Values(t)), if Is32Bit(arch) then 4 else 8)
      && ContextsFit(WithContext(ThreadNotes.Ordered(s.threads, s.crashing), s.exception))
      && SegmentNotes(s, t, arch.LongSize()).Ok? && SizesFit(SegmentNotes(s, t, arch.LongSize()).value)
      && Representable(arch, Values(t), |Flatten(Images(SegmentNotes(s, t, arch.LongSize()).value))|)
  {
    hide RangesFit, ContextsFit, Values, ThreadNotes.Ordered, WithContext, Representable, SegmentNotes;
    hide NtFile.FileBacked, Writable, PhdrsFit, Phdrs, Flatten, Images, SizesFit;
    NotesExactlyWhen(arch, s, t);
    SmallCount(arch, Values(t));
    if SegmentNotes(s, t, arch.LongSize()).Ok? {
      SizesFitWhen(SegmentNotes(s, t, arch.LongSize()).value);
      if AllFit(SegmentNotes(s, t, arch.LongSize()).value) && 1 + |Values(t)| < U16_LIMIT {
        RepresentableWhen(arch, Flatten(Images(SegmentNotes(s, t, arch.LongSize()).value)), Values(t));
      }
    }
  }

  lemma SmallCount(arch: Architecture, ms: seq<Mapping>)
    ensures forall notes: nat :: Representable(arch, ms, notes) ==> 1 + |ms| < U16_LIMIT
  {
  }

  /** On 32 bits a file is written only if start, size, captured bytes and file offset of every
      mapping fit 32 bits. */
  lemma WrittenOn32Bits(arch: Architecture, s: Source, t: Table, i: nat)
    requires CanWrite(arch, s, t) && (arch.X86? || arch.Arm? || arch.Mips?) && i < |Values(t)|
    ensures var m, ps := Values(t)[i], ReadPhdrs(Written(arch, s, t));
            && m.start < 0x1_0000_0000 && 0 <= m.end - m.start < 0x1_0000_0000 && |m.data| < 0x1_0000_0000
            && ps.Some? && |ps.value| == 1 + |Values(t)| && ps.value[1 + i].offset < 0x1_0000_0000
  {
    hide CanWrite, Values, BytesBefore, DataAt, Written, ReadPhdrs, HasHeaders, NoteBytes;
    LoadOn32Bits(arch, s, t, i);
    WrittenHasHeaders(arch, s, t);
    LoadHeader(Written(arch, s, t), arch, NoteBytes(arch, s, t), Values(t), i);
  }

  lemma LoadHeader(bytes: seq<byte>, arch: Architecture, notes: seq<byte>, ms: seq<Mapping>, i: nat)
    requires HasHeaders(bytes, arch, notes, ms) && i < |ms|
    ensures var ps := ReadPhdrs(bytes);
            ps.Some? && |ps.value| == 1 + |ms| && IsLoad(ps.value[1 + i], ms, i, DataAt(arch, |ms|, |notes|))
  {
    hide ReadPhdrs, IsLoad, DataAt, NotesAt, BytesBefore;
    var ps := ReadPhdrs(bytes).value;
    assert ps[1..][i] == ps[1 + i];
  }

  lemma LoadOn32Bits(arch: Architecture, s: Source, t: Table, i: nat)
    requires CanWrite(arch, s, t) && Is32Bit(arch) && i < |Values(t)|
    ensures LoadFits(Values(t), i, DataAt(arch, |Values(t)|, |NoteBytes(arch, s, t)|))
    ensures Values(t)[i].start <= Values(t)[i].end
  {
    hide SegmentNotes, Values, BytesBefore, DataAt, NotesAt, RangesFit, ContextsFit, Writable, PhdrsFit, LoadFits;
    CanWriteExactlyWhen(arch, s, t);
  }
}
