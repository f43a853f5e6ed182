/** What a debugger learns from the status notes: which thread crashed, and with which signal. */
module CrashingThread {
  import opened Bytes
  import opened Model
  import opened Mappings
  import opened Notes
  import opened Process
  import opened ThreadNotes
  import opened NoteSegment
  import NtFile

  // ---------- reading statuses ----------

  /** What a debugger reads of NT_PRSTATUS: the thread, its signal, and `pr_cursig`. */
  datatype Status = Status(tid: nat, signal: int, current: int)

  function FromTwos(x: nat, limit: nat): int {
    if 2 * x < limit then x else x - limit
  }

  function ReadStatus(desc: seq<byte>, word: WordSize): Option<Status> {
    match ReadLE(desc, 0, 4)
    case None => None
    case Some(signal) =>
    match ReadLE(desc, 12, 2)
    case None => None
    case Some(current) =>
    match ReadLE(desc, 16 + 2 * word, 4)
    case None => None
    case Some(tid) => Some(Status(tid, FromTwos(signal, U32_LIMIT), FromTwos(current, U16_LIMIT)))
  }

  /** The statuses among the notes, in order. */
  function Statuses(ns: seq<Note>, word: WordSize): (r: seq<Option<Status>>)
    ensures |r| == |StatusNotes(ns)|
  {
    seq(|StatusNotes(ns)|, i requires 0 <= i < |StatusNotes(ns)| => ReadStatus(StatusNotes(ns)[i].desc, word))
  }

  /** A signal that does not fit 16 bits reads as 0x7fff. */
  function Clamped(signal: int): int {
    if signal < -0x8000 || signal > 0x7fff then 0x7fff else signal
  }

  lemma StatusNoteReads(t: ThreadSnapshot, signal: i32, prReg: seq<byte>, fpValid: bool, word: WordSize)
    ensures ReadStatus(StatusNote(t, signal, prReg, fpValid, word).desc, word)
            == Some(Status(t.tid, signal, Clamped(signal)))
  {
    hide ReadLE, Prstatus;
    PrstatusReads(t.tid, signal, prReg, fpValid, word);
  }

  // ---------- the statuses of a run over the order ----------

  /** A status of a thread behind the first one: no signal. */
  ghost predicate Later(st: Option<Status>, ordered: seq<ThreadSnapshot>) {
    st.Some? && exists j :: 1 <= j < |ordered| && st.value == Status(ordered[j].tid, 0, 0)
  }

  /** The statuses that are expected: the first thread's with the fatal signal, if it has a
      context, then statuses without a signal. */
  ghost predicate FatalFirst(sts: seq<Option<Status>>, ordered: seq<ThreadSnapshot>, fatal: i32, exception: Option<Context>) {
    if ordered == [] then sts == []
    else if EffectiveContext(ordered[0], exception).None? then
      forall i :: 0 <= i < |sts| ==> Later(sts[i], ordered)
    else
      && sts != [] && sts[0] == Some(Status(ordered[0].tid, fatal, Clamped(fatal)))
      && forall i :: 1 <= i < |sts| ==> Later(sts[i], ordered)
  }

  function ReadAll(ns: seq<Note>, word: WordSize): (r: seq<Option<Status>>)
    ensures |r| == |ns|
  {
    seq(|ns|, i requires 0 <= i < |ns| => ReadStatus(ns[i].desc, word))
  }

  /** The status of the thread in place `i`, if it has a context. */
  function StatusAt(t: ThreadSnapshot, i: nat, fatal: i32, exception: Option<Context>): seq<Option<Status>> {
    if EffectiveContext(t, OverrideOf(i, exception)).None? then []
    else [Some(Status(t.tid, SignalOf(i, fatal), Clamped(SignalOf(i, fatal))))]
  }

  lemma FatalFirstGrows(before: seq<Option<Status>>, ordered: seq<ThreadSnapshot>, i: nat, fatal: i32, exception: Option<Context>)
    requires i < |ordered| && FatalFirst(before, ordered[..i], fatal, exception)
    ensures FatalFirst(before + StatusAt(ordered[i], i, fatal, exception), ordered[..i + 1], fatal, exception)
  {
    hide EffectiveContext;
    if i == 0 {
    } else {
      LaterGrows(before, ordered, i);
      assert ordered[..i + 1][i] == ordered[i] && ordered[..i][0] == ordered[..i + 1][0];
    }
  }

  lemma ExpectedGrows(ordered: seq<ThreadSnapshot>, i: nat, fatal: i32, exception: Option<Context>, word: WordSize)
    requires i < |ordered| && NotesUpTo(ordered, i + 1, fatal, exception, word).Ok?
    ensures ReadAll(ExpectedStatus(ordered, i + 1, fatal, exception, word), word)
            == ReadAll(ExpectedStatus(ordered, i, fatal, exception, word), word) + StatusAt(ordered[i], i, fatal, exception)
  {
    hide ReadStatus, StatusNote, NotesOf, EffectiveContext;
    OkHasRegisters(ordered[i], SignalOf(i, fatal), OverrideOf(i, exception), word);
    var context := EffectiveContext(ordered[i], OverrideOf(i, exception));
    if context.Some? {
      StatusNoteReads(ordered[i], SignalOf(i, fatal), context.value.prReg.value, context.value.fpRegs.Some?, word);
    }
  }

  lemma {:induction false} ExpectedFatalFirst(ordered: seq<ThreadSnapshot>, n: nat, fatal: i32, exception: Option<Context>, word: WordSize)
    requires n <= |ordered| && NotesUpTo(ordered, n, fatal, exception, word).Ok?
    ensures FatalFirst(ReadAll(ExpectedStatus(ordered, n, fatal, exception, word), word), ordered[..n], fatal, exception)
    decreases n
  {
    hide NotesOf, FatalFirst, StatusAt, ReadAll, ExpectedStatus;
    if n == 0 {
      NothingExpected(ordered, fatal, exception, word);
    } else {
      ExpectedFatalFirst(ordered, n - 1, fatal, exception, word);
      ExpectedGrows(ordered, n - 1, fatal, exception, word);
      FatalFirstGrows(ReadAll(ExpectedStatus(ordered, n - 1, fatal, exception, word), word), ordered, n - 1, fatal, exception);
    }
  }

  lemma NothingExpected(ordered: seq<ThreadSnapshot>, fatal: i32, exception: Option<Context>, word: WordSize)
    ensures FatalFirst(ReadAll(ExpectedStatus(ordered, 0, fatal, exception, word), word), ordered[..0], fatal, exception)
  {
  }

  lemma LaterGrows(sts: seq<Option<Status>>, ordered: seq<ThreadSnapshot>, i: nat)
    requires i < |ordered|
    ensures forall st :: Later(st, ordered[..i]) ==> Later(st, ordered[..i + 1])
  {
    forall st | Later(st, ordered[..i])
      ensures Later(st, ordered[..i + 1])
    {
      var j :| 1 <= j < i && st.value == Status(ordered[..i][j].tid, 0, 0);
      assert ordered[..i + 1][j] == ordered[j];
    }
  }

  // ---------- the crashing thread ----------

  /** Some thread has the crashing id, and the first that has it has a context, its own or that
      of the exception. */
  ghost predicate CrashHasContext(s: Source, tid: u32) {
    exists k: nat :: FirstOfId(s.threads, k, tid) && (s.exception.Some? || s.threads[k].context.Some?)
  }

  lemma NamedIsFirst(ts: seq<ThreadSnapshot>, tid: u32)
    ensures Named(ts, tid).Some? ==> exists k: nat :: FirstOfId(ts, k, tid) && ts[k] == Named(ts, tid).value
    ensures forall k: nat :: FirstOfId(ts, k, tid) ==> Named(ts, tid) == Some(ts[k])
  {
    hide Named;
    if Named(ts, tid).Some? {
      var k: nat :| k < |ts| && ts[k] == Named(ts, tid).value && forall j :: 0 <= j < k ==> ts[j].tid != tid;
      assert FirstOfId(ts, k, tid);
    }
    forall k: nat | FirstOfId(ts, k, tid)
      ensures Named(ts, tid) == Some(ts[k])
    {
      assert ts[k] in ts;
    }
  }

  ghost predicate HasSignal(sts: seq<Option<Status>>, signal: i32) {
    exists i :: 0 <= i < |sts| && sts[i].Some? && sts[i].value.signal == signal
  }

  ghost predicate HasSignalOf(sts: seq<Option<Status>>, signal: i32, tid: u32) {
    exists i :: 0 <= i < |sts| && sts[i].Some? && sts[i].value.signal == signal && sts[i].value.tid == tid
  }

  /** Every status can be read, and has no signal or the fatal one. */
  ghost predicate AllReadable(sts: seq<Option<Status>>, fatal: i32) {
    forall i :: 0 <= i < |sts| ==>
      && sts[i].Some?
      && (sts[i].value == Status(sts[i].value.tid, 0, 0)
          || sts[i].value == Status(sts[i].value.tid, fatal, Clamped(fatal)))
  }

  /** What a debugger sees of the crash.  A fatal signal is there exactly when the first thread
      of the order has a context.  The crashing thread has it, and has the first status, exactly
      when some thread has its id and the first that has it has a context. */
  ghost predicate ShowsCrash(sts: seq<Option<Status>>, s: Source) {
    var ordered := Ordered(s.threads, s.crashing);
    && AllReadable(sts, s.fatal)
    && (s.fatal != 0 ==>
          (HasSignal(sts, s.fatal) <==> ordered != [] && (s.exception.Some? || ordered[0].context.Some?)))
    && (s.crashing.Some? ==>
          && (s.fatal != 0 ==>
                (HasSignalOf(sts, s.fatal, s.crashing.value) <==> CrashHasContext(s, s.crashing.value)))
          && (sts != [] && sts[0].value.tid == s.crashing.value <==> CrashHasContext(s, s.crashing.value)))
  }

  /** Only the first place of the order can be the crashing thread's. */
  lemma OrderedPlaces(ts: seq<ThreadSnapshot>, tid: u32)
    ensures var ordered := Ordered(ts, Some(tid));
            && (Named(ts, tid).Some? ==> ordered != [] && ordered[0] == Named(ts, tid).value)
            && (Named(ts, tid).None? ==> forall j :: 0 <= j < |ordered| ==> ordered[j].tid != tid)
            && forall j :: 1 <= j < |ordered| ==> ordered[j].tid != tid
  {
    hide Named, Others, Crashing;
    OthersCount(ts, Some(tid));
    var ordered, others := Ordered(ts, Some(tid)), Others(ts, Some(tid));
    forall j | 0 <= j < |ordered| && (j > 0 || Named(ts, tid).None?)
      ensures ordered[j].tid != tid
    {
      assert ordered[j] in others;
    }
  }

  lemma FatalFirstReadable(sts: seq<Option<Status>>, ordered: seq<ThreadSnapshot>, fatal: i32, exception: Option<Context>)
    requires FatalFirst(sts, ordered, fatal, exception)
    ensures AllReadable(sts, fatal)
    ensures fatal != 0 ==>
      (HasSignal(sts, fatal) <==> ordered != [] && EffectiveContext(ordered[0], exception).Some?)
  {
  }

  lemma FatalFirstShows(sts: seq<Option<Status>>, s: Source)
    requires FatalFirst(sts, Ordered(s.threads, s.crashing), s.fatal, s.exception)
    ensures ShowsCrash(sts, s)
  {
    hide Ordered, Named;
    var ordered := Ordered(s.threads, s.crashing);
    FatalFirstReadable(sts, ordered, s.fatal, s.exception);
    if s.crashing.Some? {
      OrderedPlaces(s.threads, s.crashing.value);
      NamedIsFirst(s.threads, s.crashing.value);
      assert HasSignalOf(sts, s.fatal, s.crashing.value) && s.fatal != 0 ==>
        CrashHasContext(s, s.crashing.value);
      assert CrashHasContext(s, s.crashing.value) ==> HasSignalOf(sts, s.fatal, s.crashing.value);
    }
  }

  /** The notes of the threads show the crash. */
  lemma ThreadNotesShowCrash(s: Source, word: WordSize)
    requires AllThreadNotes(s, word).Ok?
    ensures ShowsCrash(Statuses(AllThreadNotes(s, word).value, word), s)
  {
    hide Ordered, StatusNotes, ExpectedStatus, NotesUpTo, ReadStatus, ShowsCrash, FatalFirst;
    var ordered := Ordered(s.threads, s.crashing);
    StatusPerThread(ordered, |ordered|, s.fatal, s.exception, word);
    ExpectedFatalFirst(ordered, |ordered|, s.fatal, s.exception, word);
    assert ordered[..|ordered|] == ordered;
    var expected := ExpectedStatus(ordered, |ordered|, s.fatal, s.exception, word);
    assert Statuses(AllThreadNotes(s, word).value, word) == ReadAll(expected, word);
    FatalFirstShows(ReadAll(expected, word), s);
  }

  lemma FixedHaveNoStatus(s: Source, fs: seq<Mapping>, word: WordSize)
    requires forall m :: m in fs ==> m.filename.Some?
    ensures StatusNotes(FixedNotes(s, fs, word)) == []
  {
    hide StatusNotes;
    var ns := FixedNotes(s, fs, word);
    NoStatus(CORE_NAME, NT_PRPSINFO, Some(ns[0].desc));
    NoStatus(CORE_NAME, NT_AUXV, Some(ns[1].desc));
    NoStatus(CORE_NAME, NT_FILE, Some(ns[2].desc));
    assert ns == [ns[0]] + [ns[1]] + [ns[2]];
    StatusNotesJoin([ns[0]], [ns[1]]);
    StatusNotesJoin([ns[0]] + [ns[1]], [ns[2]]);
  }

  /** A note reader that walks the written segment sees the crash. */
  lemma SegmentShowsCrash(s: Source, t: Table, word: WordSize)
    requires SegmentNotes(s, t, word).Ok? && AllFit(SegmentNotes(s, t, word).value)
    ensures var read := ReadNotes(Flatten(Images(SegmentNotes(s, t, word).value)), 0);
            read.Some? && ShowsCrash(Statuses(read.value, word), s)
  {
    hide ReadNotes, Flatten, Images, NtFile.PayloadFits, NtFile.Payload, NtFile.FileBacked, StatusNotes;
    hide AllThreadNotes, ShowsCrash, AllFit, ReadStatus, FixedNotes;
    SegmentReadsBack(s, t, word);
    ThreadNotesShowCrash(s, word);
    var fs, threads := NtFile.FileBacked(Values(t)), AllThreadNotes(s, word).value;
    FixedHaveNoStatus(s, fs, word);
    StatusNotesJoin(FixedNotes(s, fs, word), threads);
    assert Statuses(SegmentNotes(s, t, word).value, word) == Statuses(threads, word);
  }

  // ---------- crashes that are not shown ----------

  function ThreadWith(tid: u32, context: Option<Context>): ThreadSnapshot {
    ThreadSnapshot(tid, 0, [], context)
  }

  function CrashOf(ts: seq<ThreadSnapshot>, tid: u32): Source {
    Source([], [], ts, Some(tid), 11, None)
  }

  /** The notes of one thread with an empty context. */
  lemma BareNotes(t: ThreadSnapshot, signal: i32)
    requires t.context == Some(Context(Ok([]), None, None))
    ensures NotesOf(t, signal, None, 8) == Ok([StatusNote(t, signal, [], false, 8)])
    ensures Statuses([StatusNote(t, signal, [], false, 8)], 8) == [Some(Status(t.tid, signal, Clamped(signal)))]
  {
    hide ReadStatus, Prstatus;
    var note := StatusNote(t, signal, [], false, 8);
    StatusNoteReads(t, signal, [], false, 8);
    assert [note][..0] == [] && StatusNotes([note]) == [note];
    assert [note] + [] + [] == [note];
  }

  /** The crashing thread has no context: the signal is lost, and the only status, the first,
      is another thread's. */
  lemma ContextlessCrash(s: Source)
    requires s == CrashOf([ThreadWith(7, None), ThreadWith(8, Some(Context(Ok([]), None, None)))], 7)
    ensures AllThreadNotes(s, 8).Ok? && Statuses(AllThreadNotes(s, 8).value, 8) == [Some(Status(8, 0, 0))]
  {
    hide Ordered, Statuses, StatusNote;
    var ts := s.threads;
    CrashingFirst(ts, 7, 0);
    assert [ts[0]] + (ts[..0] + ts[1..]) == ts;
    BareNotes(ts[1], 0);
    var last := [StatusNote(ts[1], 0, [], false, 8)];
    var none: seq<Note> := [];
    assert none + none == none;
    assert NotesUpTo(ts, 1, 11, None, 8) == Ok(none);
    assert NotesUpTo(ts, 2, 11, None, 8) == Ok(none + last);
    assert none + last == last;
  }

  /** No thread has the crashing id: another thread has the signal. */
  lemma AbsentCrash(s: Source)
    requires s == CrashOf([ThreadWith(8, Some(Context(Ok([]), None, None)))], 7)
    ensures AllThreadNotes(s, 8).Ok? && Statuses(AllThreadNotes(s, 8).value, 8) == [Some(Status(8, 11, 11))]
  {
    hide Ordered, Statuses, StatusNote;
    var ts := s.threads;
    assert ts[..0] == [] && Crashing(ts, Some(7)) == 0;
    NobodyCrashed(ts, Some(7));
    BareNotes(ts[0], 11);
    var last := [StatusNote(ts[0], 11, [], false, 8)];
    assert NotesUpTo(ts, 1, 11, None, 8) == Ok([] + last);
    assert [] + last == last;
  }

  /** Two threads have the crashing id: one of them is dropped. */
  lemma DuplicateCrash(ts: seq<ThreadSnapshot>)
    requires |ts| == 2 && ts[0].tid == 7 && ts[1].tid == 7
    ensures Ordered(ts, Some(7)) == [ts[0]] && multiset(Ordered(ts, Some(7))) != multiset(ts)
  {
    OthersCount(ts, Some(7));
    assert |multiset(ts)| == |ts|;
  }
}
