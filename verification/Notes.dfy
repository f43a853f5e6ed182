/** ELF notes (src/notes.rs, src/elf.rs) and a 4-byte aligned note reader. */
module Notes {
  import opened Bytes
  import opened Memory
  import opened Elf

  const CORE_NAME: seq<byte> := [0x43, 0x4f, 0x52, 0x45, 0]
  const LINUX_NAME: seq<byte> := [0x4c, 0x49, 0x4e, 0x55, 0x58, 0]

  const NT_PRSTATUS: u32 := 1
  const NT_FPREGSET: u32 := 2
  const NT_PRPSINFO: u32 := 3
  const NT_AUXV: u32 := 6
  const NT_FILE: u32 := 0x4649_4c45
  const NT_PRXFPREG: u32 := 0x46e6_2b7f

  /** A note: its name with the terminating NUL, its type and its descriptor. */
  datatype Note = Note(name: seq<byte>, ntype: u32, desc: seq<byte>) {
    predicate Fits() { |name| < U32_LIMIT && |desc| < U32_LIMIT }
  }

  function NulTerminated(name: seq<byte>): (r: seq<byte>)
    ensures r != [] && r[|r| - 1] == 0 && name <= r
    ensures |r| == if name != [] && name[|name| - 1] == 0 then |name| else |name| + 1
  {
    if name != [] && name[|name| - 1] == 0 then name else name + [0]
  }

  /** Zeros from length `n` to the next multiple of the alignment. */
  function PadLen(n: nat, align: WordSize): nat { (align - n % align) % align }

  function Pad4(n: nat): nat { PadLen(n, 4) }

  lemma PadShift(a: nat, n: nat)
    requires a % 4 == 0
    ensures Pad4(a + n) == Pad4(n)
    ensures (n + Pad4(n)) % 4 == 0
  {
  }

  function NoteHeader(n: Note): (s: seq<byte>)
    requires n.Fits()
    ensures |s| == 12
  {
    LE(|n.name|, 4) + LE(|n.desc|, 4) + LE(n.ntype, 4)
  }

  function NoteImage(n: Note): seq<byte>
    requires n.Fits()
  {
    NoteHeader(n) + n.name + Zeros(Pad4(|n.name|)) + n.desc + Zeros(Pad4(|n.desc|))
  }

  // ---------- building ----------

  lemma PadLenIs(n: nat, align: WordSize)
    ensures PadLen(n, align) == if n % align == 0 then 0 else align - n % align
  {
    if align == 4 {
    } else {
      assert align == 8;
    }
  }

  lemma NoZeros()
    ensures Zeros(0) == []
  {
  }

  method PadTo(out: seq<byte>, align: WordSize) returns (r: seq<byte>)
    ensures r == out + Zeros(PadLen(|out|, align))
  {
    hide PadLen, Zeros;
    r := out;
    PadLenIs(|out|, align);
    var rem := |out| % align;
    if rem != 0 {
      r := out + Zeros(align - rem);
    } else {
      NoZeros();
    }
  }

  /** Appends the NUL that the name lacks; sizes beyond 32 bits stop the program. */
  method Build(name: seq<byte>, ntype: u32, desc: seq<byte>) returns (r: Result<seq<byte>>)
    ensures var n := Note(NulTerminated(name), ntype, desc);
            && (n.Fits() ==> r == Ok(NoteImage(n)))
            && (!n.Fits() ==> r == Err(ArithmeticPanic))
  {
    hide LE, Zeros, PadLen, Pad4;
    var nameBytes := name;
    if |nameBytes| == 0 || nameBytes[|nameBytes| - 1] != 0 {
      nameBytes := nameBytes + [0];
    }
    if |nameBytes| >= U32_LIMIT || |desc| >= U32_LIMIT {
      return Err(ArithmeticPanic);
    }
    var n := Note(nameBytes, ntype, desc);
    r := Assemble(n);
  }

  /** Header, name and descriptor, each padded where it ends. */
  method Assemble(n: Note) returns (r: Result<seq<byte>>)
    requires n.Fits()
    ensures r == Ok(NoteImage(n))
  {
    hide LE, Zeros, PadLen;
    var out := NoteHeader(n);
    out := out + n.name;
    PadShift(12, |n.name|);
    out := PadTo(out, 4);
    assert |out| % 4 == 0;
    PadShift(|out|, |n.desc|);
    out := out + n.desc;
    out := PadTo(out, 4);
    return Ok(out);
  }

  lemma ImageAligned(n: Note)
    requires n.Fits()
    ensures |NoteImage(n)| == 12 + |n.name| + Pad4(|n.name|) + |n.desc| + Pad4(|n.desc|)
    ensures |NoteImage(n)| % 4 == 0
  {
    hide LE, Zeros, PadLen, Pad4;
    PadShift(0, |n.name|);
    PadShift(0, |n.desc|);
  }

  // ---------- reading ----------

  /** A note and the offset just behind it. */
  datatype Parsed = Parsed(note: Note, next: nat)

  /** Reads the note at `at`: sizes and type, then the name and the descriptor, each from a
      multiple of four. */
  function ReadNote(bytes: seq<byte>, at: nat): Option<Parsed> {
    match ReadLE(bytes, at, 4)
    case None => None
    case Some(namesz) =>
    match ReadLE(bytes, at + 4, 4)
    case None => None
    case Some(descsz) =>
    match ReadLE(bytes, at + 8, 4)
    case None => None
    case Some(ntype) =>
      WordLimits();
      var descAt := at + 12 + namesz + Pad4(namesz);
      var next := descAt + descsz + Pad4(descsz);
      if next > |bytes| then None
      else Some(Parsed(Note(bytes[at + 12..at + 12 + namesz], ntype, bytes[descAt..descAt + descsz]), next))
  }

  /** Reads notes from `at` to the end of the segment. */
  function ReadNotes(bytes: seq<byte>, at: nat): Option<seq<Note>>
    decreases |bytes| - at
  {
    if at >= |bytes| then (if at == |bytes| then Some([]) else None)
    else
      match ReadNote(bytes, at)
      case None => None
      case Some(p) =>
        match ReadNotes(bytes, p.next)
        case None => None
        case Some(rest) => Some([p.note] + rest)
  }

  lemma FivePartsHold(m: View, at: int, a: seq<byte>, b: seq<byte>, c: seq<byte>, d: seq<byte>, e: seq<byte>)
    requires Holds(m, at, a + b + c + d + e)
    ensures Holds(m, at, a) && Holds(m, at + |a|, b) && Holds(m, at + |a| + |b| + |c|, d)
  {
    HoldsParts(m, at, a + b + c + d, e);
    FourParts(m, at, a, b, c, d);
  }

  /** The reader finds the note where its image lies. */
  lemma NoteReads(bytes: seq<byte>, at: nat, n: Note)
    requires n.Fits() && Holds(FileView(bytes), at, NoteImage(n)) && at + |NoteImage(n)| <= |bytes|
    ensures ReadNote(bytes, at) == Some(Parsed(n, at + |NoteImage(n)|))
  {
    hide LE, ReadLE, Holds, FileView, Zeros, Pad4;
    var m := FileView(bytes);
    WordLimits();
    ImageAligned(n);
    FivePartsHold(m, at, NoteHeader(n), n.name, Zeros(Pad4(|n.name|)), n.desc, Zeros(Pad4(|n.desc|)));
    HoldsParts(m, at, LE(|n.name|, 4) + LE(|n.desc|, 4), LE(n.ntype, 4));
    HoldsParts(m, at, LE(|n.name|, 4), LE(|n.desc|, 4));
    WordInFile(bytes, at, |n.name|, 4);
    WordInFile(bytes, at + 4, |n.desc|, 4);
    WordInFile(bytes, at + 8, n.ntype, 4);
    SliceInFile(bytes, at + 12, n.name);
    SliceInFile(bytes, at + 12 + |n.name| + Pad4(|n.name|), n.desc);
  }

  function Images(ns: seq<Note>): seq<seq<byte>>
    requires forall i :: 0 <= i < |ns| ==> ns[i].Fits()
  {
    seq(|ns|, i requires 0 <= i < |ns| => NoteImage(ns[i]))
  }

  lemma {:induction false} NotesReadFrom(ns: seq<Note>, i: nat)
    requires i <= |ns| && forall i :: 0 <= i < |ns| ==> ns[i].Fits()
    ensures ReadNotes(Flatten(Images(ns)), PartOffset(Images(ns), i)) == Some(ns[i..])
    decreases |ns| - i
  {
    hide ReadNote, Holds, FileView, NoteImage;
    var parts := Images(ns);
    var bytes := Flatten(parts);
    if i == |ns| {
      FlattenAll(parts);
      assert ns[i..] == [];
    } else {
      FileHolds(bytes);
      PartHeld(FileView(bytes), 0, parts, i);
      NoteReads(bytes, PartOffset(parts, i), ns[i]);
      ImageAligned(ns[i]);
      FlattenNext(parts, i);
      NotesReadFrom(ns, i + 1);
      assert ns[i..] == [ns[i]] + ns[i + 1..];
    }
  }

  /** Walking the bytes of any sequence of notes recovers exactly those notes. */
  lemma NotesRoundTrip(ns: seq<Note>)
    requires forall i :: 0 <= i < |ns| ==> ns[i].Fits()
    ensures ReadNotes(Flatten(Images(ns)), 0) == Some(ns)
  {
    hide ReadNotes;
    NotesReadFrom(ns, 0);
    FlattenNone(Images(ns));
    assert ns[0..] == ns;
  }
}
