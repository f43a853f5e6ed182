/** What a debugger learns from the notes about the registers of every thread. */
module Registers {
  import opened Bytes
  import opened Model
  import opened Mappings
  import NtFile
  import opened Notes
  import opened Process
  import opened ThreadNotes
  import opened NoteSegment

  // ---------- the reader ----------

  /** The notes of one thread: its status, and floating-point and extended registers if any. */
  datatype Opened = Opened(status: seq<byte>, fp: Option<seq<byte>>, xfp: Option<seq<byte>>)

  /** Opens a thread at each status, and gives it the register notes that follow: type 2 of
      "CORE" and type 0x46e62b7f of "LINUX". */
  function OpenThreads(ns: seq<Note>): seq<Opened> {
    if ns == [] then []
    else
      var before, n := OpenThreads(ns[..|ns| - 1]), ns[|ns| - 1];
      if n.ntype == 1 && n.name == [0x43, 0x4f, 0x52, 0x45, 0] then before + [Opened(n.desc, None, None)]
      else if before == [] then []
      else if n.ntype == 2 && n.name == [0x43, 0x4f, 0x52, 0x45, 0] then
        before[|before| - 1 := before[|before| - 1].(fp := Some(n.desc))]
      else if n.ntype == 0x46e6_2b7f && n.name == [0x4c, 0x49, 0x4e, 0x55, 0x58, 0] then
        before[|before| - 1 := before[|before| - 1].(xfp := Some(n.desc))]
      else before
  }

  /** The thread and general registers in a status, by their places, and the flag behind them. */
  ghost predicate ShowsRegisters(status: seq<byte>, tid: u32, prReg: seq<byte>, flag: nat, word: WordSize) {
    var at := 32 + 10 * word;
    && ReadLE(status, 16 + 2 * word, 4) == Some(tid)
    && at + |prReg| <= |status| && status[at..at + |prReg|] == prReg
    && ReadLE(status, at + |prReg|, 4) == Some(flag)
  }

  /** What should be read of a thread with a context: the flag is set exactly when
      floating-point registers follow. */
  ghost predicate ShowsThread(o: Opened, t: ThreadSnapshot, c: Context, word: WordSize) {
    && c.prReg.Ok?
    && ShowsRegisters(o.status, t.tid, c.prReg.value, if o.fp.Some? then 1 else 0, word)
    && o.fp == c.fpRegs && o.xfp == c.xfpRegs
  }

  // ---------- what it should read ----------

  /** The threads with a context, in order; the exception's context counts for the first. */
  function WithContext(ordered: seq<ThreadSnapshot>, exception: Option<Context>): seq<(ThreadSnapshot, Context)> {
    if ordered == [] then []
    else
      var n := |ordered| - 1;
      WithContext(ordered[..n], exception)
      + (if n == 0 && exception.Some? then [(ordered[n], exception.value)]
         else if ordered[n].context.Some? then [(ordered[n], ordered[n].context.value)]
         else [])
  }

  ghost predicate ShowsThreads(os: seq<Opened>, expected: seq<(ThreadSnapshot, Context)>, word: WordSize) {
    |os| == |expected| && forall k :: 0 <= k < |os| ==> ShowsThread(os[k], expected[k].0, expected[k].1, word)
  }

  // ---------- it reads that ----------

  lemma OpenOne(ns: seq<Note>, n: Note)
    ensures (ns + [n])[..|ns + [n]| - 1] == ns && (ns + [n])[|ns + [n]| - 1] == n
  {
  }

  /** The notes of a thread, one after the other. */
  lemma OpenThread(ns: seq<Note>, status: seq<byte>, fp: Option<seq<byte>>, xfp: Option<seq<byte>>)
    ensures OpenThreads(ns + [Note(CORE_NAME, NT_PRSTATUS, status)] + OptionalNote(CORE_NAME, NT_FPREGSET, fp)
                        + OptionalNote(LINUX_NAME, NT_PRXFPREG, xfp))
            == OpenThreads(ns) + [Opened(status, fp, xfp)]
  {
    var first := ns + [Note(CORE_NAME, NT_PRSTATUS, status)];
    OpenOne(ns, Note(CORE_NAME, NT_PRSTATUS, status));
    assert OpenThreads(first) == OpenThreads(ns) + [Opened(status, None, None)];
    var second := first + OptionalNote(CORE_NAME, NT_FPREGSET, fp);
    OpenFp(first, OpenThreads(ns), status, fp);
    OpenXfp(second, OpenThreads(ns), status, fp, xfp);
  }

  lemma OpenFp(ns: seq<Note>, before: seq<Opened>, status: seq<byte>, fp: Option<seq<byte>>)
    requires OpenThreads(ns) == before + [Opened(status, None, None)]
    ensures OpenThreads(ns + OptionalNote(CORE_NAME, NT_FPREGSET, fp)) == before + [Opened(status, fp, None)]
  {
    if fp.None? {
      assert ns + [] == ns;
    } else {
      OpenOne(ns, Note(CORE_NAME, NT_FPREGSET, fp.value));
    }
  }

  lemma OpenXfp(ns: seq<Note>, before: seq<Opened>, status: seq<byte>, fp: Option<seq<byte>>, xfp: Option<seq<byte>>)
    requires OpenThreads(ns) == before + [Opened(status, fp, None)]
    ensures OpenThreads(ns + OptionalNote(LINUX_NAME, NT_PRXFPREG, xfp)) == before + [Opened(status, fp, xfp)]
  {
    if xfp.None? {
      assert ns + [] == ns;
    } else {
      OpenOne(ns, Note(LINUX_NAME, NT_PRXFPREG, xfp.value));
    }
  }

  lemma StatusShows(t: ThreadSnapshot, signal: i32, c: Context, word: WordSize)
    requires c.prReg.Ok?
    ensures ShowsThread(Opened(Prstatus(t.tid, signal, c.prReg.value, c.fpRegs.Some?, word), c.fpRegs, c.xfpRegs), t, c, word)
  {
    hide Prstatus, ReadLE;
    PrstatusReads(t.tid, signal, c.prReg.value, c.fpRegs.Some?, word);
  }

  /** The notes of one more thread. */
  lemma OpenNext(ns: seq<Note>, t: ThreadSnapshot, signal: i32, override: Option<Context>, word: WordSize)
    requires NotesOf(t, signal, override, word).Ok?
    ensures var context := if override.Some? then override else t.context;
            match context
            case None => OpenThreads(ns + NotesOf(t, signal, override, word).value) == OpenThreads(ns)
            case Some(c) =>
              exists o :: OpenThreads(ns + NotesOf(t, signal, override, word).value) == OpenThreads(ns) + [o]
                          && ShowsThread(o, t, c, word)
  {
    hide Prstatus, OpenThreads, ShowsThread;
    var context := if override.Some? then override else t.context;
    if context.None? {
      assert ns + [] == ns;
    } else {
      var c := context.value;
      var status := Prstatus(t.tid, signal, c.prReg.value, c.fpRegs.Some?, word);
      var fp, xfp := OptionalNote(CORE_NAME, NT_FPREGSET, c.fpRegs), OptionalNote(LINUX_NAME, NT_PRXFPREG, c.xfpRegs);
      var first := [Note(CORE_NAME, NT_PRSTATUS, status)];
      OpenThread(ns, status, c.fpRegs, c.xfpRegs);
      StatusShows(t, signal, c, word);
      assert ns + (first + fp + xfp) == ns + first + fp + xfp;
    }
  }

  lemma {:induction false} ThreadsOpen(fixedNotes: seq<Note>, ordered: seq<ThreadSnapshot>, n: nat, s: Source, word: WordSize)
    requires n <= |ordered| && NotesUpTo(ordered, n, s.fatal, s.exception, word).Ok?
    requires OpenThreads(fixedNotes) == []
    ensures var ns := NotesUpTo(ordered, n, s.fatal, s.exception, word).value;
            ShowsThreads(OpenThreads(fixedNotes + ns), WithContext(ordered[..n], s.exception), word)
    decreases n
  {
    hide NotesOf, OpenThreads, ShowsThread;
    if n == 0 {
      assert fixedNotes + [] == fixedNotes;
    } else {
      var i := n - 1;
      ThreadsOpen(fixedNotes, ordered, i, s, word);
      var before := NotesUpTo(ordered, i, s.fatal, s.exception, word).value;
      var last := NotesOf(ordered[i], SignalOf(i, s.fatal), OverrideOf(i, s.exception), word);
      OpenNext(fixedNotes + before, ordered[i], SignalOf(i, s.fatal), OverrideOf(i, s.exception), word);
      assert fixedNotes + (before + last.value) == fixedNotes + before + last.value;
      assert ordered[..n][..i] == ordered[..i] && ordered[..n][i] == ordered[i];
    }
  }

  lemma FixedOpenNothing(s: Source, fs: seq<Mapping>, word: WordSize)
    requires forall m :: m in fs ==> m.filename.Some?
    ensures OpenThreads(FixedNotes(s, fs, word)) == []
  {
    hide NtFile.Payload;
    var ns := FixedNotes(s, fs, word);
    assert ns[..2][..1] == ns[..1] && ns[..1][..0] == [];
    assert OpenThreads(ns[..1]) == [];
    assert OpenThreads(ns[..2]) == [];
  }

  /** From the bytes of the segment a debugger recovers, in order, every thread that has a
      context: its id, its registers, its floating-point and extended registers if it has them,
      each from the context that counts; the flag says whether floating-point registers follow. */
  lemma SegmentShowsThreads(s: Source, t: Table, word: WordSize)
    requires SegmentNotes(s, t, word).Ok? && AllFit(SegmentNotes(s, t, word).value)
    ensures var read := ReadNotes(Flatten(Images(SegmentNotes(s, t, word).value)), 0);
            && read.Some?
            && ShowsThreads(OpenThreads(read.value), WithContext(Ordered(s.threads, s.crashing), s.exception), word)
  {
    hide ReadNotes, Flatten, Images, NtFile.PayloadFits, NtFile.Payload, NtFile.FileBacked, OpenThreads;
    hide ShowsThreads, WithContext, AllFit, FixedNotes, Ordered, NotesUpTo;
    SegmentReadsBack(s, t, word);
    var fs, ordered := NtFile.FileBacked(Values(t)), Ordered(s.threads, s.crashing);
    FixedOpenNothing(s, fs, word);
    ThreadsOpen(FixedNotes(s, fs, word), ordered, |ordered|, s, word);
    assert ordered[..|ordered|] == ordered;
  }
}
