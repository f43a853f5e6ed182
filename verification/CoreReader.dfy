/** A loader of core files: it reads the program headers and the ranges they name, and so
    recovers the process image that was written (src/core_writer.rs). */
module CoreReader {
  import opened Bytes
  import opened Model
  import opened Memory
  import opened Elf
  import opened CoreWriter

  // ---------- the loader ----------

  /** A loaded segment: where it goes, how long it is, its flags and its bytes. */
  datatype Segment = Segment(start: nat, memsz: nat, flags: nat, data: seq<byte>) {
    predicate Contains(a: int) { start <= a < start + memsz }
  }

  function FileRange(bytes: seq<byte>, p: ProgramHeader): Option<seq<byte>> {
    if p.offset + p.filesz <= |bytes| then Some(bytes[p.offset..p.offset + p.filesz]) else None
  }

  /** The PT_LOAD segments, in the order of their headers. */
  function LoadSegments(bytes: seq<byte>, ps: seq<ProgramHeader>): Option<seq<Segment>> {
    if ps == [] then Some([])
    else
      match LoadSegments(bytes, ps[1..])
      case None => None
      case Some(rest) =>
        if ps[0].ptype != PT_LOAD then Some(rest)
        else
          match FileRange(bytes, ps[0])
          case None => None
          case Some(data) => Some([Segment(ps[0].vaddr, ps[0].memsz, ps[0].flags, data)] + rest)
  }

  /** The process image in a core file. */
  function Load(bytes: seq<byte>): Option<seq<Segment>> {
    match ReadPhdrs(bytes)
    case None => None
    case Some(ps) => LoadSegments(bytes, ps)
  }

  /** The bytes of the first PT_NOTE. */
  function NotesIn(bytes: seq<byte>, ps: seq<ProgramHeader>): Option<seq<byte>> {
    if ps == [] then None
    else if ps[0].ptype == PT_NOTE then FileRange(bytes, ps[0])
    else NotesIn(bytes, ps[1..])
  }

  function LoadNotes(bytes: seq<byte>): Option<seq<byte>> {
    match ReadPhdrs(bytes)
    case None => None
    case Some(ps) => NotesIn(bytes, ps)
  }

  /** The segment that a mapping should become. */
  function SegmentFor(m: Mapping): Segment
    requires m.start <= m.end
  {
    Segment(m.start, m.end - m.start, SegmentFlags(m.permissions), m.data)
  }

  function SegmentsFor(ms: seq<Mapping>): (r: seq<Segment>)
    requires RangesProper(ms)
    ensures |r| == |ms|
  {
    seq(|ms|, i requires 0 <= i < |ms| => SegmentFor(ms[i]))
  }

  // ---------- where the parts of the file lie ----------

  lemma TableSize(h: ElfHeader, notes: seq<byte>, ms: seq<Mapping>)
    requires Writable(h, notes, ms)
    ensures |h.Encode()| + |Flatten(PhdrParts(Phdrs(h, notes, ms), h.Is64()))| == h.PhdrAt(1 + |ms|)
  {
    hide Flatten, LoadPhdrs;
    var ps := Phdrs(h, notes, ms);
    PhdrPartOffset(ps, h.Is64(), |ps|);
    FlattenAll(PhdrParts(ps, h.Is64()));
  }

  /** The notes and the captured bytes lie where the layout says, and the file ends there. */
  lemma FileParts(h: ElfHeader, notes: seq<byte>, ms: seq<Mapping>)
    requires Writable(h, notes, ms)
    ensures var v, lay, bytes := FileView(CoreFile(h, notes, ms)), LayoutOf(h, notes, ms), CoreFile(h, notes, ms);
            && h.Encode() + Flatten(PhdrParts(Phdrs(h, notes, ms), h.Is64())) <= bytes
            && Holds(v, lay.noteOffset, notes)
            && Holds(v, lay.loadStart, Flatten(Datas(ms)))
            && |bytes| == lay.fileEnd
  {
    hide Flatten, Holds, FileView, Phdrs;
    var bytes := CoreFile(h, notes, ms);
    var v, table := FileView(bytes), h.Encode() + Flatten(PhdrParts(Phdrs(h, notes, ms), h.Is64()));
    var pad := Zeros(NotePad(h.PhdrAt(1 + |ms|) + |notes|));
    TableSize(h, notes, ms);
    FileHolds(bytes);
    HoldsParts(v, 0, table + notes + pad, Flatten(Datas(ms)));
    HoldsParts(v, 0, table + notes, pad);
    HoldsParts(v, 0, table, notes);
  }

  /** The range that the header of mapping `i` names holds its captured bytes. */
  lemma DataLoads(h: ElfHeader, notes: seq<byte>, ms: seq<Mapping>, i: nat)
    requires Writable(h, notes, ms) && i < |ms|
    ensures FileRange(CoreFile(h, notes, ms), LoadPhdrs(h, notes, ms)[i]) == Some(ms[i].data)
  {
    hide Flatten, Holds, FileView, CoreFile, LoadPhdrs, LayoutOf, Writable;
    var bytes, lay := CoreFile(h, notes, ms), LayoutOf(h, notes, ms);
    LoadAt(h, notes, ms, i);
    FileParts(h, notes, ms);
    DataInFile(h, notes, ms, i);
    PartHeld(FileView(bytes), lay.loadStart, Datas(ms), i);
    SliceInFile(bytes, DataOffset(ms, lay, i), ms[i].data);
    assert bytes[lay.fileEnd..lay.fileEnd] == [];
  }

  lemma NotesLoad(h: ElfHeader, notes: seq<byte>, ms: seq<Mapping>)
    requires Writable(h, notes, ms)
    ensures FileRange(CoreFile(h, notes, ms), NotePhdr(LayoutOf(h, notes, ms))) == Some(notes)
  {
    hide Flatten, Holds, FileView, CoreFile, LayoutOf;
    FileParts(h, notes, ms);
    LayoutKnown(h, notes, ms);
    SliceInFile(CoreFile(h, notes, ms), LayoutOf(h, notes, ms).noteOffset, notes);
  }

  // ---------- the file loads back ----------

  lemma {:induction false} SegmentsLoad(bytes: seq<byte>, ps: seq<ProgramHeader>, segments: seq<Segment>)
    requires |ps| == |segments|
    requires forall i :: 0 <= i < |ps| ==>
      && ps[i].ptype == PT_LOAD && ps[i].vaddr == segments[i].start && ps[i].memsz == segments[i].memsz
      && ps[i].flags == segments[i].flags && FileRange(bytes, ps[i]) == Some(segments[i].data)
    ensures LoadSegments(bytes, ps) == Some(segments)
    decreases |ps|
  {
    hide FileRange;
    if ps == [] {
    } else {
      SegmentsLoad(bytes, ps[1..], segments[1..]);
      assert segments == [segments[0]] + segments[1..];
    }
  }

  /** A loader of the written file gets exactly one segment per mapping, in the order of the
      table, with its address, size, flags and bytes; and exactly the notes. */
  lemma FileLoadsBack(h: ElfHeader, notes: seq<byte>, ms: seq<Mapping>)
    requires Writable(h, notes, ms) && PhdrsFit(h, Phdrs(h, notes, ms)) && h.phnum == 1 + |ms|
    ensures Load(CoreFile(h, notes, ms)) == Some(SegmentsFor(ms))
    ensures LoadNotes(CoreFile(h, notes, ms)) == Some(notes)
  {
    hide Flatten, CoreFile, LayoutOf, ReadPhdrs, FileRange, LoadPhdrs, LayoutFits;
    var bytes, ps, loads := CoreFile(h, notes, ms), Phdrs(h, notes, ms), LoadPhdrs(h, notes, ms);
    FileParts(h, notes, ms);
    LayoutKnown(h, notes, ms);
    ReadsBackPhdrs(bytes, h, ps);
    forall i | 0 <= i < |loads|
      ensures loads[i].ptype == PT_LOAD && loads[i].vaddr == SegmentFor(ms[i]).start
              && loads[i].memsz == SegmentFor(ms[i]).memsz && loads[i].flags == SegmentFor(ms[i]).flags
              && FileRange(bytes, loads[i]) == Some(SegmentFor(ms[i]).data)
    {
      LoadAt(h, notes, ms, i);
      DataLoads(h, notes, ms, i);
    }
    SegmentsLoad(bytes, loads, SegmentsFor(ms));
    NotesLoad(h, notes, ms);
    assert ps[1..] == loads;
  }

  /** Headers, then notes, then the captured bytes: the range of every mapping lies behind the
      notes and inside the file, and one without bytes names the end of the file. */
  lemma FileRangeInside(h: ElfHeader, notes: seq<byte>, ms: seq<Mapping>, i: nat)
    requires Writable(h, notes, ms) && i < |ms|
    ensures var p, lay, size := LoadPhdrs(h, notes, ms)[i], LayoutOf(h, notes, ms), |CoreFile(h, notes, ms)|;
            && h.PhdrAt(1 + |ms|) <= lay.noteOffset
            && lay.noteOffset + |notes| <= p.offset
            && p.offset + p.filesz <= size
            && (ms[i].data == [] ==> p.offset == size && p.filesz == 0)
  {
    hide Flatten, CoreFile, LoadPhdrs;
    FileParts(h, notes, ms);
    LayoutOrdered(h, notes, ms);
    LoadAt(h, notes, ms, i);
    DataInFile(h, notes, ms, i);
  }

  /** The ranges of two mappings follow each other in the order of the table; one without
      bytes holds no byte of the file. */
  lemma FileRangesApart(h: ElfHeader, notes: seq<byte>, ms: seq<Mapping>, i: nat, j: nat)
    requires Writable(h, notes, ms) && i < j < |ms|
    ensures var ps := LoadPhdrs(h, notes, ms);
            && (ms[i].data != [] ==> ps[i].offset + ps[i].filesz <= ps[j].offset)
            && (ms[i].data == [] && ms[j].data != [] ==> ps[j].offset + ps[j].filesz <= ps[i].offset)
  {
    hide Flatten, CoreFile, LoadPhdrs;
    LoadAt(h, notes, ms, i);
    LoadAt(h, notes, ms, j);
    DataInFile(h, notes, ms, i);
    DataInFile(h, notes, ms, j);
    OffsetsGrow(h, notes, ms, i + 1, j);
  }

  lemma {:induction false} OffsetsGrow(h: ElfHeader, notes: seq<byte>, ms: seq<Mapping>, i: nat, j: nat)
    requires Writable(h, notes, ms) && i <= j <= |ms|
    ensures var lay := LayoutOf(h, notes, ms); DataOffset(ms, lay, i) <= DataOffset(ms, lay, j)
    decreases j
  {
    hide Flatten, LayoutOf, Writable;
    if i == j {
    } else {
      OffsetsGrow(h, notes, ms, i, j - 1);
      LoadAt(h, notes, ms, j - 1);
    }
  }
}
