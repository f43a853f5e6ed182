/** What a debugger learns from the notes of a written core file. */
module CoreNotes {
  import opened Bytes
  import opened Model
  import opened Mappings
  import opened InjectionStep
  import opened InjectionRun
  import NtFile
  import opened FileMeaning
  import opened Notes
  import opened Process
  import opened NoteSegment
  import ThreadNotes
  import opened CrashingThread
  import opened Registers
  import opened CoreWriter
  import opened CoreReader

  // ---------- the reader ----------

  /** The notes in a core file. */
  function NotesOfCore(bytes: seq<byte>): Option<seq<Note>> {
    match LoadNotes(bytes)
    case None => None
    case Some(segment) => ReadNotes(segment, 0)
  }

  /** The descriptor of the first note of "CORE" of a type. */
  function Described(ns: seq<Note>, ntype: u32): Option<seq<byte>> {
    if ns == [] then None
    else if ns[0].ntype == ntype && ns[0].name == [0x43, 0x4f, 0x52, 0x45, 0] then Some(ns[0].desc)
    else Described(ns[1..], ntype)
  }

  /** The file ranges that NT_FILE lists in a core file. */
  function FilesOfCore(bytes: seq<byte>, word: WordSize): Option<seq<NtFile.FileRange>> {
    match NotesOfCore(bytes)
    case None => None
    case Some(ns) =>
      match Described(ns, 0x4649_4c45)
      case None => None
      case Some(payload) => NtFile.ReadNtFile(payload, word)
  }

  // ---------- what it finds ----------

  lemma FixedDescribed(s: Source, fs: seq<Mapping>, word: WordSize, rest: seq<Note>)
    requires forall m :: m in fs ==> m.filename.Some?
    ensures var ns := FixedNotes(s, fs, word) + rest;
            && Described(ns, 3) == Some(s.prpsinfo) && Described(ns, 6) == Some(s.auxv)
            && Described(ns, 0x4649_4c45) == Some(NtFile.Payload(fs, word))
            && ns[0].ntype == 3 && ns[1].ntype == 6 && ns[2].ntype == 0x4649_4c45 && ns[3..] == rest
  {
    hide NtFile.Payload;
    var ns := FixedNotes(s, fs, word) + rest;
    assert ns[1..][0] == ns[1] && ns[1..][1..][0] == ns[2];
    assert Described(ns[1..][1..], 0x4649_4c45) == Some(ns[2].desc);
    assert Described(ns[1..], 0x4649_4c45) == Some(ns[2].desc);
  }

  /** Exactly the notes that were called for are in the written file. */
  lemma NotesAreWritten(arch: Architecture, s: Source, t: Table)
    requires CanWrite(arch, s, t)
    ensures NotesOfCore(Written(arch, s, t)) == Some(SegmentNotes(s, t, arch.LongSize()).value)
  {
    hide Writable, LayoutOf, Phdrs, PhdrsFit, CoreFile, SegmentNotes, AllFit, Values, LoadNotes, ReadNotes, Flatten, Images;
    FileLoadsBack(Header(arch, s, t), NoteBytes(arch, s, t), Values(t));
    SegmentReadsBack(s, t, arch.LongSize());
  }

  /** Process information, the auxiliary vector and NT_FILE come first, in this order, and are
      found by their types 3, 6 and 0x46494c45. */
  lemma FixedAreWritten(arch: Architecture, s: Source, t: Table)
    requires CanWrite(arch, s, t)
    ensures var ns, fs := NotesOfCore(Written(arch, s, t)), NtFile.FileBacked(Values(t));
            && ns.Some? && |ns.value| >= 3
            && ns.value[0].ntype == 3 && ns.value[1].ntype == 6 && ns.value[2].ntype == 0x4649_4c45
            && Described(ns.value, 3) == Some(s.prpsinfo)
            && Described(ns.value, 6) == Some(s.auxv)
            && NtFile.PayloadFits(fs, arch.LongSize())
            && Described(ns.value, 0x4649_4c45) == Some(NtFile.Payload(fs, arch.LongSize()))
  {
    hide Writable, PhdrsFit, Written, AllFit, Values, NotesOfCore, AllThreadNotes, FixedNotes;
    hide NtFile.PayloadFits, NtFile.Payload, NtFile.FileBacked, Described;
    NotesAreWritten(arch, s, t);
    var fs, word := NtFile.FileBacked(Values(t)), arch.LongSize();
    FixedDescribed(s, fs, word, AllThreadNotes(s, word).value);
    FixedCount(s, fs, word);
  }

  lemma FixedCount(s: Source, fs: seq<Mapping>, word: WordSize)
    requires forall m :: m in fs ==> m.filename.Some?
    ensures |FixedNotes(s, fs, word)| == 3
  {
  }

  /** The statuses in the written file show the crash. */
  lemma CrashIsWritten(arch: Architecture, s: Source, t: Table)
    requires CanWrite(arch, s, t)
    ensures var ns := NotesOfCore(Written(arch, s, t));
            ns.Some? && ShowsCrash(Statuses(ns.value, arch.LongSize()), s)
  {
    hide Writable, PhdrsFit, Written, AllFit, Values, NotesOfCore, SegmentNotes, ShowsCrash, Statuses;
    NotesAreWritten(arch, s, t);
    SegmentReadsBack(s, t, arch.LongSize());
    SegmentShowsCrash(s, t, arch.LongSize());
  }

  /** The threads in the written file show their registers. */
  lemma ThreadsAreWritten(arch: Architecture, s: Source, t: Table)
    requires CanWrite(arch, s, t)
    ensures var ns := NotesOfCore(Written(arch, s, t));
            && ns.Some?
            && ShowsThreads(OpenThreads(ns.value), WithContext(ThreadNotes.Ordered(s.threads, s.crashing), s.exception),
                            arch.LongSize())
  {
    hide Writable, PhdrsFit, Written, AllFit, Values, NotesOfCore, SegmentNotes, ShowsThreads, OpenThreads, WithContext;
    NotesAreWritten(arch, s, t);
    SegmentReadsBack(s, t, arch.LongSize());
    SegmentShowsThreads(s, t, arch.LongSize());
  }

  /** After augmentation, NT_FILE in the written file gives every address the file and position
      that backed it before, and a place to no other address. */
  lemma FilesAreWritten(arch: Architecture, s: Source, t: Table, cs: seq<Capture>, a: int)
    requires WellFormed(t, DEFAULT_PAGE_SIZE) && Reaches(t, cs, DEFAULT_PAGE_SIZE) && MapsFiles(t)
    requires InjectAll(t, cs, DEFAULT_PAGE_SIZE).outcome.Ok?
    requires CanWrite(arch, s, InjectAll(t, cs, DEFAULT_PAGE_SIZE).table)
    ensures var files := FilesOfCore(Written(arch, s, InjectAll(t, cs, DEFAULT_PAGE_SIZE).table), arch.LongSize());
            files.Some? && LookUp(files.value, a) == PlaceOf(BackingAt(t, a))
  {
    hide WellFormed, Reaches, MapsFiles, InjectAll, CanWrite, Written, NotesOfCore, Described, LookUp, PlaceOf, BackingAt;
    hide NtFile.PayloadFits, NtFile.Payload, NtFile.FileBacked, NtFile.ReadNtFile, Values;
    FixedAreWritten(arch, s, InjectAll(t, cs, DEFAULT_PAGE_SIZE).table);
    NtFileSurvivesAugmentation(t, cs, arch.LongSize(), a);
  }
}
