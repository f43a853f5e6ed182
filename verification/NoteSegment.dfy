/** The PT_NOTE segment of a core file (src/core_writer.rs). */
module NoteSegment {
  import opened Bytes
  import opened Model
  import opened Mappings
  import NtFile
  import opened Notes
  import opened Process
  import opened ThreadNotes

  /** Every size of every note fits its 32-bit field. */
  ghost predicate AllFit(ns: seq<Note>) {
    forall i :: 0 <= i < |ns| ==> ns[i].Fits()
  }

  /** What the segment is made from, apart from the mappings. */
  datatype Source = Source(
    prpsinfo: seq<byte>,
    auxv: seq<byte>,
    threads: seq<ThreadSnapshot>,
    crashing: Option<u32>,
    fatal: i32,
    exception: Option<Context>)

  function FixedNotes(s: Source, fs: seq<Mapping>, word: WordSize): seq<Note>
    requires forall m :: m in fs ==> m.filename.Some?
  {
    [Note(CORE_NAME, NT_PRPSINFO, s.prpsinfo),
     Note(CORE_NAME, NT_AUXV, s.auxv),
     Note(CORE_NAME, NT_FILE, NtFile.Payload(fs, word))]
  }

  function AllThreadNotes(s: Source, word: WordSize): Result<seq<Note>> {
    var ordered := Ordered(s.threads, s.crashing);
    NotesUpTo(ordered, |ordered|, s.fatal, s.exception, word)
  }

  /** The notes of the core file, in the order they are written. */
  function SegmentNotes(s: Source, t: Table, word: WordSize): Result<seq<Note>> {
    var fs := NtFile.FileBacked(Values(t));
    if !NtFile.PayloadFits(fs, word) then Err(IntegerOverflow)
    else
      var threads :- AllThreadNotes(s, word);
      Ok(FixedNotes(s, fs, word) + threads)
  }

  // ---------- writing ----------

  lemma ImagesNext(ns: seq<Note>, n: Note)
    requires AllFit(ns) && n.Fits()
    ensures AllFit(ns + [n]) && Flatten(Images(ns + [n])) == Flatten(Images(ns)) + NoteImage(n)
  {
    hide NoteImage;
    assert Images(ns + [n]) == Images(ns) + [NoteImage(n)];
    FlattenNext(Images(ns + [n]), |ns|);
    assert Images(ns + [n])[..|ns|] == Images(ns);
    FlattenAll(Images(ns + [n]));
  }

  /** Appends one note to the segment. */
  method PushNote(out: seq<byte>, name: seq<byte>, ntype: u32, desc: seq<byte>, ghost ns: seq<Note>)
    returns (r: Result<seq<byte>>)
    requires AllFit(ns) && out == Flatten(Images(ns)) && NulTerminated(name) == name
    ensures var n := Note(name, ntype, desc);
            && (n.Fits() ==> AllFit(ns + [n]) && r == Ok(Flatten(Images(ns + [n]))))
            && (!n.Fits() ==> r.Err?)
  {
    hide NoteImage, Flatten, Images;
    var image :- Build(name, ntype, desc);
    ImagesNext(ns, Note(name, ntype, desc));
    return Ok(out + image);
  }

  /** Appends the notes of one thread. */
  method WriteThreadNotes(arch: Architecture, t: ThreadSnapshot, signal: i32, override: Option<Context>,
                          out: seq<byte>, ghost ns: seq<Note>)
    returns (r: Result<seq<byte>>)
    requires AllFit(ns) && out == Flatten(Images(ns))
    ensures var added := NotesOf(t, signal, override, arch.LongSize());
            && (added.Ok? && AllFit(added.value) ==>
                  AllFit(ns + added.value) && r == Ok(Flatten(Images(ns + added.value))))
            && (added.Err? || !AllFit(added.value) ==> r.Err?)
  {
    hide Flatten, Images, Prstatus;
    var context := if override.Some? then override else t.context;
    if context.None? {
      assert ns + [] == ns;
      return Ok(out);
    }
    var c := context.value;
    var prReg :- c.prReg;
    var prstatus := BuildPrstatus(arch, t.tid, signal, prReg, c.fpRegs.Some?);
    ghost var status := StatusNote(t, signal, prReg, c.fpRegs.Some?, arch.LongSize());
    ghost var fp, xfp := OptionalNote(CORE_NAME, NT_FPREGSET, c.fpRegs), OptionalNote(LINUX_NAME, NT_PRXFPREG, c.xfpRegs);
    ghost var added := [status] + fp + xfp;
    Positions(status, c);
    assert ns + added == ns + [status] + fp + xfp;
    var o :- PushNote(out, CORE_NAME, NT_PRSTATUS, prstatus, ns);
    o :- PushOptional(o, CORE_NAME, NT_FPREGSET, c.fpRegs, ns + [status]);
    o :- PushOptional(o, LINUX_NAME, NT_PRXFPREG, c.xfpRegs, ns + [status] + fp);
    return Ok(o);
  }

  lemma Positions(status: Note, c: Context)
    ensures var fp, xfp := OptionalNote(CORE_NAME, NT_FPREGSET, c.fpRegs), OptionalNote(LINUX_NAME, NT_PRXFPREG, c.xfpRegs);
            AllFit([status] + fp + xfp) <==> status.Fits() && AllFit(fp) && AllFit(xfp)
  {
    var fp, xfp := OptionalNote(CORE_NAME, NT_FPREGSET, c.fpRegs), OptionalNote(LINUX_NAME, NT_PRXFPREG, c.xfpRegs);
    var all := [status] + fp + xfp;
    assert all[0] == status;
    assert forall i :: 0 <= i < |fp| ==> all[1 + i] == fp[i];
    assert forall i :: 0 <= i < |xfp| ==> all[1 + |fp| + i] == xfp[i];
  }

  method PushOptional(out: seq<byte>, name: seq<byte>, ntype: u32, desc: Option<seq<byte>>, ghost ns: seq<Note>)
    returns (r: Result<seq<byte>>)
    requires AllFit(ns) && out == Flatten(Images(ns)) && NulTerminated(name) == name
    ensures var added := OptionalNote(name, ntype, desc);
            && (AllFit(added) ==> AllFit(ns + added) && r == Ok(Flatten(Images(ns + added))))
            && (!AllFit(added) ==> r.Err?)
  {
    hide Flatten, Images;
    if desc.None? {
      assert ns + [] == ns;
      return Ok(out);
    }
    r := PushNote(out, name, ntype, desc.value, ns);
    assert !Note(name, ntype, desc.value).Fits() ==> !AllFit([Note(name, ntype, desc.value)]) by {
      assert [Note(name, ntype, desc.value)][0] == Note(name, ntype, desc.value);
    }
  }

  lemma {:induction false} NotesGrow(ordered: seq<ThreadSnapshot>, i: nat, n: nat, s: Source, word: WordSize)
    requires i <= n <= |ordered| && NotesUpTo(ordered, n, s.fatal, s.exception, word).Ok?
    ensures NotesUpTo(ordered, i, s.fatal, s.exception, word).Ok?
    ensures NotesUpTo(ordered, i, s.fatal, s.exception, word).value
            <= NotesUpTo(ordered, n, s.fatal, s.exception, word).value
    decreases n
  {
    hide NotesOf;
    if i < n { NotesGrow(ordered, i, n - 1, s, word); }
  }

  /** Thread `i` cannot be written: neither can the whole list. */
  lemma ThreadBlocks(ordered: seq<ThreadSnapshot>, i: nat, s: Source, word: WordSize)
    requires i < |ordered| && NotesUpTo(ordered, i, s.fatal, s.exception, word).Ok?
    requires var added := NotesOf(ordered[i], SignalOf(i, s.fatal), OverrideOf(i, s.exception), word);
             added.Err? || !AllFit(added.value)
    ensures var all := NotesUpTo(ordered, |ordered|, s.fatal, s.exception, word);
            all.Err? || !AllFit(all.value)
  {
    hide NotesOf;
    var all := NotesUpTo(ordered, |ordered|, s.fatal, s.exception, word);
    if all.Ok? {
      NotesGrow(ordered, i + 1, |ordered|, s, word);
      var before := NotesUpTo(ordered, i, s.fatal, s.exception, word).value;
      var added := NotesOf(ordered[i], SignalOf(i, s.fatal), OverrideOf(i, s.exception), word).value;
      assert before + added <= all.value;
      var k :| 0 <= k < |added| && !added[k].Fits();
      assert all.value[|before| + k] == (before + added)[|before| + k] == added[k];
    }
  }

  lemma FitJoin(xs: seq<Note>, ys: seq<Note>)
    ensures AllFit(xs + ys) <==> AllFit(xs) && AllFit(ys)
  {
    assert forall i :: 0 <= i < |xs| ==> (xs + ys)[i] == xs[i];
    assert forall i :: 0 <= i < |ys| ==> (xs + ys)[|xs| + i] == ys[i];
  }

  method WriteAllThreads(arch: Architecture, s: Source, out: seq<byte>, ghost fixedNotes: seq<Note>)
    returns (r: Result<seq<byte>>)
    requires AllFit(fixedNotes) && out == Flatten(Images(fixedNotes))
    ensures var all := AllThreadNotes(s, arch.LongSize());
            && (all.Ok? && AllFit(all.value) ==>
                  AllFit(fixedNotes + all.value) && r == Ok(Flatten(Images(fixedNotes + all.value))))
            && (all.Err? || !AllFit(all.value) ==> r.Err?)
  {
    hide Flatten, Images, NotesOf;
    var ordered := OrderThreads(s.threads, s.crashing);
    ghost var word := arch.LongSize();
    ghost var ns: seq<Note> := [];
    assert fixedNotes + ns == fixedNotes;
    var o := out;
    var i := 0;
    while i < |ordered|
      invariant 0 <= i <= |ordered|
      invariant NotesUpTo(ordered, i, s.fatal, s.exception, word) == Ok(ns)
      invariant AllFit(fixedNotes + ns) && o == Flatten(Images(fixedNotes + ns))
    {
      var signal := if i == 0 then s.fatal else 0;
      var override := if i == 0 then s.exception else None;
      ghost var added := NotesOf(ordered[i], SignalOf(i, s.fatal), OverrideOf(i, s.exception), word);
      if added.Err? || !AllFit(added.value) { ThreadBlocks(ordered, i, s, word); }
      o :- WriteThreadNotes(arch, ordered[i], signal, override, o, fixedNotes + ns);
      assert fixedNotes + ns + added.value == fixedNotes + (ns + added.value);
      ns := ns + added.value;
      i := i + 1;
    }
    FitJoin(fixedNotes, ns);
    return Ok(o);
  }

  method WriteFixedNotes(arch: Architecture, s: Source, ntFile: seq<byte>) returns (r: Result<seq<byte>>)
    ensures var ns := [Note(CORE_NAME, NT_PRPSINFO, s.prpsinfo), Note(CORE_NAME, NT_AUXV, s.auxv), Note(CORE_NAME, NT_FILE, ntFile)];
            && (AllFit(ns) ==> r == Ok(Flatten(Images(ns))))
            && (!AllFit(ns) ==> r.Err?)
  {
    hide NoteImage;
    ghost var a, b, c := Note(CORE_NAME, NT_PRPSINFO, s.prpsinfo), Note(CORE_NAME, NT_AUXV, s.auxv), Note(CORE_NAME, NT_FILE, ntFile);
    assert [a, b, c][0] == a && [a, b, c][1] == b && [a, b, c][2] == c;
    assert [] + [a] == [a] && [a] + [b] == [a, b] && [a, b] + [c] == [a, b, c];
    var out: seq<byte> := [];
    out :- PushNote(out, CORE_NAME, NT_PRPSINFO, s.prpsinfo, []);
    out :- PushNote(out, CORE_NAME, NT_AUXV, s.auxv, [a]);
    out :- PushNote(out, CORE_NAME, NT_FILE, ntFile, [a, b]);
    return Ok(out);
  }

  /** Succeeds exactly when every note can be built and its sizes fit. */
  method BuildNoteSegment(process: CrashedProcess) returns (r: Result<seq<byte>>)
    ensures var s := Source(process.prpsinfo, process.auxv, process.threads, process.crashingTid,
                    process.fatalSignal, process.exceptionContext);
            var ns := SegmentNotes(s, process.mappings.entries, process.architecture.LongSize());
            && (ns.Ok? && AllFit(ns.value) ==> r == Ok(Flatten(Images(ns.value))))
            && (ns.Err? || !AllFit(ns.value) ==> r.Err?)
  {
    hide Flatten, Images, AllThreadNotes, NtFile.PayloadFits, NtFile.Payload;
    var arch := process.architecture;
    var s := Source(process.prpsinfo, process.auxv, process.threads, process.crashingTid,
             process.fatalSignal, process.exceptionContext);
    ghost var fs := NtFile.FileBacked(Values(process.mappings.entries));
    var ntFile :- NtFile.BuildNtFilePayload(arch, process.mappings);
    ghost var fixedNotes := FixedNotes(s, fs, arch.LongSize());
    ghost var threads := AllThreadNotes(s, arch.LongSize());
    if threads.Ok? { FitJoin(fixedNotes, threads.value); }
    var out :- WriteFixedNotes(arch, s, ntFile);
    r := WriteAllThreads(arch, s, out, fixedNotes);
  }

  /** A note reader recovers from the segment exactly the notes that were called for. */
  lemma SegmentReadsBack(s: Source, t: Table, word: WordSize)
    requires SegmentNotes(s, t, word).Ok? && AllFit(SegmentNotes(s, t, word).value)
    ensures ReadNotes(Flatten(Images(SegmentNotes(s, t, word).value)), 0) == Some(SegmentNotes(s, t, word).value)
  {
    hide SegmentNotes, ReadNotes, Flatten, Images;
    NotesRoundTrip(SegmentNotes(s, t, word).value);
  }
}
