/** Thread status notes and their order (src/notes.rs, src/core_writer.rs). */
module ThreadNotes {
  import opened Bytes
  import opened Model
  import opened Memory
  import opened Notes
  import opened Process

  // ---------- NT_PRSTATUS ----------

  /** The two's complement of a signed number in `n` bytes. */
  function Signed(x: int, n: nat): nat
    requires 0 <= x + Pow256(n) && x < Pow256(n)
  {
    if x < 0 then x + Pow256(n) else x
  }

  /** `pr_cursig`: the signal clamped to 16 bits. */
  function CurrentSignal(signal: i32): (s: int)
    ensures -0x8000 <= s < 0x8000
  {
    if -0x8000 <= signal < 0x8000 then signal else 0x7fff
  }

  function SignalPart(signal: i32): (s: seq<byte>)
    ensures |s| == 14
  {
    WordLimits();
    LE(Signed(signal, 4), 4) + Zeros(8) + LE(Signed(CurrentSignal(signal), 2), 2)
  }

  /** Everything before the registers. */
  function StatusHead(tid: u32, signal: i32, word: WordSize): (s: seq<byte>)
    ensures |s| == 32 + 10 * word
  {
    SignalPart(signal) + Zeros(2 + 2 * word) + LE(tid, 4) + Zeros(12 + 8 * word)
  }

  function Prstatus(tid: u32, signal: i32, prReg: seq<byte>, fpValid: bool, word: WordSize): (s: seq<byte>)
  {
    var body := StatusHead(tid, signal, word) + prReg + LE(if fpValid then 1 else 0, 4);
    body + Zeros(PadLen(|body|, word))
  }

  lemma {:induction false} ZeroWord(n: nat)
    ensures LE(0, n) == Zeros(n)
  {
    if n == 0 {
    } else {
      ZeroWord(n - 1);
    }
  }

  lemma ZerosJoin(p: seq<byte>, m: nat, n: nat)
    ensures p + Zeros(m) + Zeros(n) == p + Zeros(m + n)
    ensures p + Zeros(0) == p
  {
  }

  /** Appends eight zero words: the four time values. */
  method PushZeroWords(out: seq<byte>, count: nat, word: WordSize) returns (r: seq<byte>)
    ensures r == out + Zeros(count * word)
  {
    r := out;
    ZerosJoin(out, 0, 0);
    for i := 0 to count
      invariant r == out + Zeros(i * word)
    {
      ZeroWord(word);
      assert i * word + word == (i + 1) * word;
      ZerosJoin(out, i * word, word);
      r := r + LE(0, word);
    }
  }

  /** The signal numbers, padded to the next word. */
  method PushSignals(signal: i32, word: WordSize) returns (out: seq<byte>)
    ensures out == SignalPart(signal) + Zeros(2)
  {
    WordLimits();
    out := LE(Signed(signal, 4), 4);
    ghost var first := out;
    ZeroWord(4);
    out := out + LE(0, 4);
    out := out + LE(0, 4);
    ZerosJoin(first, 4, 4);
    out := out + LE(Signed(CurrentSignal(signal), 2), 2);
    out := PadTo(out, word);
  }

  method BuildPrstatus(arch: Architecture, tid: u32, signal: i32, prReg: seq<byte>, fpValid: bool)
    returns (out: seq<byte>)
    ensures out == Prstatus(tid, signal, prReg, fpValid, arch.LongSize())
  {
    hide LE, Zeros, SignalPart, PadLen;
    var word := arch.LongSize();
    out := PushSignals(signal, word);
    out := PushZeroWords(out, 2, word);
    var longs: nat := word;
    ZerosJoin(SignalPart(signal), 2, 2 * longs);
    out := out + LE(tid, 4);
    ghost var head := out;
    out := PushZeroWords(out, 3, 4);
    out := PushZeroWords(out, 8, word);
    ZerosJoin(head, 12, 8 * longs);
    out := out + prReg;
    out := out + LE(if fpValid then 1 else 0, 4);
    out := PadTo(out, word);
  }

  /** What a debugger reads of a status: the signal, the thread, the registers and whether
      floating-point registers follow.  The size is a multiple of the word. */
  lemma PrstatusReads(tid: u32, signal: i32, prReg: seq<byte>, fpValid: bool, word: WordSize)
    ensures var s, at := Prstatus(tid, signal, prReg, fpValid, word), 32 + 10 * word;
            && ReadLE(s, 0, 4) == Some(if signal < 0 then signal + U32_LIMIT else signal)
            && ReadLE(s, 12, 2) == Some(if signal < -0x8000 || signal > 0x7fff then 0x7fff
                                        else if signal < 0 then signal + U16_LIMIT else signal)
            && ReadLE(s, 16 + 2 * word, 4) == Some(tid)
            && at + |prReg| <= |s| && s[at..at + |prReg|] == prReg
            && ReadLE(s, at + |prReg|, 4) == Some(if fpValid then 1 else 0)
            && |s| % word == 0
  {
    hide LE, ReadLE, Zeros, Holds, FileView, PadLen;
    WordLimits();
    var s, fp := Prstatus(tid, signal, prReg, fpValid, word), if fpValid then 1 else 0;
    var v, head, at := FileView(s), StatusHead(tid, signal, word), 32 + 10 * word;
    FileHolds(s);
    PrstatusParts(v, tid, signal, prReg, fpValid, word);
    StatusHeadParts(v, tid, signal, word);
    WordInFile(s, 0, Signed(signal, 4), 4);
    WordInFile(s, 12, Signed(CurrentSignal(signal), 2), 2);
    WordInFile(s, 16 + 2 * word, tid, 4);
    SliceInFile(s, at, prReg);
    WordInFile(s, at + |prReg|, fp, 4);
    PadReaches(at + |prReg| + 4, word);
  }

  lemma PadReaches(n: nat, word: WordSize)
    ensures (n + PadLen(n, word)) % word == 0
  {
    if word == 4 { PadShift(0, n); }
  }

  lemma PrstatusParts(v: View, tid: u32, signal: i32, prReg: seq<byte>, fpValid: bool, word: WordSize)
    requires Holds(v, 0, Prstatus(tid, signal, prReg, fpValid, word))
    ensures Holds(v, 0, StatusHead(tid, signal, word))
    ensures Holds(v, 32 + 10 * word, prReg)
    ensures Holds(v, 32 + 10 * word + |prReg|, LE(if fpValid then 1 else 0, 4))
  {
    hide LE, Zeros, Holds, PadLen, StatusHead;
    var head, flag := StatusHead(tid, signal, word), LE(if fpValid then 1 else 0, 4);
    var body := head + prReg + flag;
    HoldsParts(v, 0, body, Zeros(PadLen(|body|, word)));
    HoldsParts(v, 0, head + prReg, flag);
    HoldsParts(v, 0, head, prReg);
  }

  lemma StatusHeadParts(v: View, tid: u32, signal: i32, word: WordSize)
    requires Holds(v, 0, StatusHead(tid, signal, word))
    ensures Pow256(4) == U32_LIMIT && Pow256(2) == U16_LIMIT
    ensures Holds(v, 0, LE(Signed(signal, 4), 4))
    ensures Holds(v, 12, LE(Signed(CurrentSignal(signal), 2), 2))
    ensures Holds(v, 16 + 2 * word, LE(tid, 4))
  {
    hide LE, Zeros, Holds;
    WordLimits();
    var first, second := LE(Signed(signal, 4), 4), LE(Signed(CurrentSignal(signal), 2), 2);
    var part := SignalPart(signal);
    HoldsParts(v, 0, part + Zeros(2 + 2 * word) + LE(tid, 4), Zeros(12 + 8 * word));
    HoldsParts(v, 0, part + Zeros(2 + 2 * word), LE(tid, 4));
    HoldsParts(v, 0, part, Zeros(2 + 2 * word));
    HoldsParts(v, 0, first + Zeros(8), second);
    HoldsParts(v, 0, first, Zeros(8));
  }

  /** Everything else in a status is zero. */
  lemma PrstatusRest(tid: u32, signal: i32, prReg: seq<byte>, fpValid: bool, word: WordSize)
    ensures var s, end := Prstatus(tid, signal, prReg, fpValid, word), 36 + 10 * word + |prReg|;
            && end <= |s| < end + word
            && s[4..12] == Zeros(8) && s[14..16 + 2 * word] == Zeros(2 + 2 * word)
            && s[20 + 2 * word..32 + 10 * word] == Zeros(12 + 8 * word)
            && s[end..] == Zeros(|s| - end)
  {
    hide LE, Zeros, Holds, FileView, PadLen;
    var s, v, end := Prstatus(tid, signal, prReg, fpValid, word), FileView(Prstatus(tid, signal, prReg, fpValid, word)),
                     36 + 10 * word + |prReg|;
    FileHolds(s);
    PadLenIs(end, word);
    RestHolds(v, tid, signal, prReg, fpValid, word);
    SliceInFile(s, 4, Zeros(8));
    SliceInFile(s, 14, Zeros(2 + 2 * word));
    SliceInFile(s, 20 + 2 * word, Zeros(12 + 8 * word));
    SliceInFile(s, end, Zeros(|s| - end));
    assert s[end..end + (|s| - end)] == s[end..];
  }

  lemma RestHolds(v: View, tid: u32, signal: i32, prReg: seq<byte>, fpValid: bool, word: WordSize)
    requires Holds(v, 0, Prstatus(tid, signal, prReg, fpValid, word))
    ensures Holds(v, 4, Zeros(8)) && Holds(v, 14, Zeros(2 + 2 * word))
    ensures Holds(v, 20 + 2 * word, Zeros(12 + 8 * word))
    ensures var s, end := Prstatus(tid, signal, prReg, fpValid, word), 36 + 10 * word + |prReg|;
            |s| >= end && Holds(v, end, Zeros(|s| - end))
  {
    hide LE, Zeros, Holds, PadLen;
    var first, second := LE(Signed(signal, 4), 4), LE(Signed(CurrentSignal(signal), 2), 2);
    var part, body := SignalPart(signal), StatusHead(tid, signal, word) + prReg + LE(if fpValid then 1 else 0, 4);
    PrstatusParts(v, tid, signal, prReg, fpValid, word);
    HoldsParts(v, 0, body, Zeros(PadLen(|body|, word)));
    HoldsParts(v, 0, part + Zeros(2 + 2 * word) + LE(tid, 4), Zeros(12 + 8 * word));
    HoldsParts(v, 0, part + Zeros(2 + 2 * word), LE(tid, 4));
    HoldsParts(v, 0, part, Zeros(2 + 2 * word));
    HoldsParts(v, 0, first + Zeros(8), second);
    HoldsParts(v, 0, first, Zeros(8));
  }

  // ---------- the notes of one thread ----------

  /** The context that counts: the override if there is one, else the thread's own. */
  function EffectiveContext(t: ThreadSnapshot, override: Option<Context>): Option<Context> {
    if override.Some? then override else t.context
  }

  function StatusNote(t: ThreadSnapshot, signal: i32, prReg: seq<byte>, fpValid: bool, word: WordSize): Note {
    Note(CORE_NAME, NT_PRSTATUS, Prstatus(t.tid, signal, prReg, fpValid, word))
  }

  function OptionalNote(name: seq<byte>, ntype: u32, desc: Option<seq<byte>>): seq<Note> {
    if desc.Some? then [Note(name, ntype, desc.value)] else []
  }

  /** A status, then floating-point registers where the context has them; a thread without any
      context has no notes. */
  function NotesOf(t: ThreadSnapshot, signal: i32, override: Option<Context>, word: WordSize): Result<seq<Note>> {
    match EffectiveContext(t, override)
    case None => Ok([])
    case Some(c) =>
      if c.prReg.Err? then Err(c.prReg.error)
      else Ok([StatusNote(t, signal, c.prReg.value, c.fpRegs.Some?, word)]
              + OptionalNote(CORE_NAME, NT_FPREGSET, c.fpRegs)
              + OptionalNote(LINUX_NAME, NT_PRXFPREG, c.xfpRegs))
  }

  // ---------- the order of the threads ----------

  /** The first thread of an id. */
  function Named(ts: seq<ThreadSnapshot>, tid: u32): (r: Option<ThreadSnapshot>)
    ensures r.Some? <==> exists t :: t in ts && t.tid == tid
    ensures r.Some? ==> r.value in ts && r.value.tid == tid
    ensures r.Some? ==> exists k :: 0 <= k < |ts| && ts[k] == r.value && forall j :: 0 <= j < k ==> ts[j].tid != tid
  {
    if ts == [] then None else if ts[0].tid == tid then Some(ts[0]) else Named(ts[1..], tid)
  }

  /** The threads that are not the crashing one, in their order. */
  function Others(ts: seq<ThreadSnapshot>, crashing: Option<u32>): seq<ThreadSnapshot> {
    if ts == [] then []
    else Others(ts[..|ts| - 1], crashing) + (if Some(ts[|ts| - 1].tid) != crashing then [ts[|ts| - 1]] else [])
  }

  function Ordered(ts: seq<ThreadSnapshot>, crashing: Option<u32>): seq<ThreadSnapshot> {
    (if crashing.Some? && Named(ts, crashing.value).Some? then [Named(ts, crashing.value).value] else [])
    + Others(ts, crashing)
  }

  method OrderThreads(ts: seq<ThreadSnapshot>, crashing: Option<u32>) returns (ordered: seq<ThreadSnapshot>)
    ensures ordered == Ordered(ts, crashing)
  {
    ordered := [];
    if crashing.Some? && Named(ts, crashing.value).Some? {
      ordered := ordered + [Named(ts, crashing.value).value];
    }
    ghost var first := ordered;
    var i := 0;
    while i < |ts|
      invariant 0 <= i <= |ts|
      invariant ordered == first + Others(ts[..i], crashing)
    {
      assert ts[..i + 1][..i] == ts[..i];
      if Some(ts[i].tid) != crashing {
        ordered := ordered + [ts[i]];
      }
      i := i + 1;
    }
    assert ts[..i] == ts;
  }

  /** How many threads have the crashing thread's id. */
  function Crashing(ts: seq<ThreadSnapshot>, crashing: Option<u32>): nat {
    if ts == [] then 0
    else Crashing(ts[..|ts| - 1], crashing) + (if Some(ts[|ts| - 1].tid) == crashing then 1 else 0)
  }

  lemma InLast<T>(s: seq<T>)
    requires s != []
    ensures s == s[..|s| - 1] + [s[|s| - 1]]
    ensures forall x :: x in s <==> x in s[..|s| - 1] || x == s[|s| - 1]
  {
    var init, last := s[..|s| - 1], s[|s| - 1];
    assert s == init + [last];
  }

  lemma {:induction false} OthersAre(ts: seq<ThreadSnapshot>, crashing: Option<u32>)
    ensures forall t :: t in Others(ts, crashing) <==> t in ts && Some(t.tid) != crashing
    decreases |ts|
  {
    if ts == [] {
    } else {
      OthersAre(ts[..|ts| - 1], crashing);
      InLast(ts);
    }
  }

  lemma {:induction false} CrashingNone(ts: seq<ThreadSnapshot>, crashing: Option<u32>)
    ensures Crashing(ts, crashing) == 0 <==> forall t :: t in ts ==> Some(t.tid) != crashing
    decreases |ts|
  {
    if ts == [] {
    } else {
      CrashingNone(ts[..|ts| - 1], crashing);
      InLast(ts);
    }
  }

  lemma {:induction false} OthersAdd(ts: seq<ThreadSnapshot>, crashing: Option<u32>)
    ensures |Others(ts, crashing)| + Crashing(ts, crashing) == |ts|
    ensures Crashing(ts, crashing) == 0 ==> Others(ts, crashing) == ts
    decreases |ts|
  {
    if ts == [] {
    } else {
      OthersAdd(ts[..|ts| - 1], crashing);
      InLast(ts);
    }
  }

  lemma OthersCount(ts: seq<ThreadSnapshot>, crashing: Option<u32>)
    ensures |Others(ts, crashing)| + Crashing(ts, crashing) == |ts|
    ensures forall t :: t in Others(ts, crashing) <==> t in ts && Some(t.tid) != crashing
    ensures Crashing(ts, crashing) == 0 <==> forall t :: t in ts ==> Some(t.tid) != crashing
    ensures Crashing(ts, crashing) == 0 ==> Others(ts, crashing) == ts
  {
    hide Others, Crashing;
    OthersAre(ts, crashing);
    CrashingNone(ts, crashing);
    OthersAdd(ts, crashing);
  }

  /** The threads without the crashing id, by index. */
  function OtherThreads(ts: seq<ThreadSnapshot>, crashing: Option<u32>): (r: seq<nat>)
    ensures forall k :: 0 <= k < |r| ==> r[k] < |ts| && Some(ts[r[k]].tid) != crashing
    ensures forall k, l :: 0 <= k < l < |r| ==> r[k] < r[l]
    ensures forall i: nat :: i < |ts| && Some(ts[i].tid) != crashing ==> i in r
  {
    if ts == [] then []
    else
      OtherThreads(ts[..|ts| - 1], crashing) + (if Some(ts[|ts| - 1].tid) == crashing then [] else [|ts| - 1])
  }

  lemma OthersNext(ts: seq<ThreadSnapshot>, crashing: Option<u32>)
    requires ts != []
    ensures var n := |ts| - 1;
            var other := Some(ts[n].tid) != crashing;
            && Others(ts, crashing) == Others(ts[..n], crashing) + (if other then [ts[n]] else [])
            && OtherThreads(ts, crashing) == OtherThreads(ts[..n], crashing) + (if other then [n] else [])
  {
  }

  /** The threads at some indices. */
  ghost predicate ArePicked(picked: seq<ThreadSnapshot>, ts: seq<ThreadSnapshot>, indices: seq<nat>) {
    |picked| == |indices| && forall k :: 0 <= k < |indices| ==> indices[k] < |ts| && picked[k] == ts[indices[k]]
  }

  lemma PickedGrow(picked: seq<ThreadSnapshot>, ts: seq<ThreadSnapshot>, indices: seq<nat>)
    requires ts != [] && ArePicked(picked, ts[..|ts| - 1], indices)
    ensures ArePicked(picked, ts, indices) && ArePicked(picked + [ts[|ts| - 1]], ts, indices + [|ts| - 1])
  {
  }

  lemma {:induction false} OthersByIndex(ts: seq<ThreadSnapshot>, crashing: Option<u32>)
    ensures ArePicked(Others(ts, crashing), ts, OtherThreads(ts, crashing))
    decreases |ts|
  {
    hide Others, OtherThreads, ArePicked;
    if ts == [] {
      NoOthers(crashing);
    } else {
      var init := ts[..|ts| - 1];
      OthersByIndex(init, crashing);
      OthersNext(ts, crashing);
      PickedGrow(Others(init, crashing), ts, OtherThreads(init, crashing));
      assert Others(init, crashing) + [] == Others(init, crashing);
      assert OtherThreads(init, crashing) + [] == OtherThreads(init, crashing);
    }
  }

  lemma NoOthers(crashing: Option<u32>)
    ensures ArePicked(Others([], crashing), [], OtherThreads([], crashing))
  {
  }

  ghost predicate FirstOfId(ts: seq<ThreadSnapshot>, k: nat, tid: u32) {
    k < |ts| && ts[k].tid == tid && forall j :: 0 <= j < k ==> ts[j].tid != tid
  }

  lemma {:induction false} NamedIs(ts: seq<ThreadSnapshot>, k: nat, tid: u32)
    requires FirstOfId(ts, k, tid)
    ensures Named(ts, tid) == Some(ts[k])
    decreases k
  {
    if k == 0 {
    } else {
      assert forall j :: 0 <= j < k - 1 ==> ts[1..][j] == ts[j + 1];
      NamedIs(ts[1..], k - 1, tid);
    }
  }

  /** The order is the first thread of the crashing id, and then every thread of another id, in
      the original order. */
  lemma OrderIs(ts: seq<ThreadSnapshot>, k: nat, tid: u32)
    requires FirstOfId(ts, k, tid)
    ensures var ordered, others := Ordered(ts, Some(tid)), OtherThreads(ts, Some(tid));
            && |ordered| == 1 + |others| && ordered[0] == ts[k]
            && forall i :: 0 <= i < |others| ==> ordered[1 + i] == ts[others[i]]
  {
    hide Named, Others, OtherThreads;
    NamedIs(ts, k, tid);
    OthersByIndex(ts, Some(tid));
  }

  /** With one crashing thread, it comes first and the rest keep their order. */
  lemma CrashingFirst(ts: seq<ThreadSnapshot>, tid: u32, k: nat)
    requires k < |ts| && ts[k].tid == tid && forall j :: 0 <= j < |ts| && j != k ==> ts[j].tid != tid
    ensures Ordered(ts, Some(tid)) == [ts[k]] + (ts[..k] + ts[k + 1..])
  {
    hide Named, Others;
    assert ts[k] in ts;
    OthersIs(ts, tid, k);
  }

  lemma {:induction false} OthersIs(ts: seq<ThreadSnapshot>, tid: u32, k: nat)
    requires k < |ts| && ts[k].tid == tid && forall j :: 0 <= j < |ts| && j != k ==> ts[j].tid != tid
    ensures Others(ts, Some(tid)) == ts[..k] + ts[k + 1..]
    decreases |ts|
  {
    var n := |ts| - 1;
    if k == n {
      OthersCount(ts[..n], Some(tid));
    } else {
      OthersIs(ts[..n], tid, k);
      assert ts[..n][..k] + ts[..n][k + 1..] + [ts[n]] == ts[..k] + ts[k + 1..];
    }
  }

  /** Without a thread of that id the order is the original one. */
  lemma NobodyCrashed(ts: seq<ThreadSnapshot>, crashing: Option<u32>)
    requires Crashing(ts, crashing) == 0
    ensures Ordered(ts, crashing) == ts
  {
    hide Named, Others, Crashing;
    OthersCount(ts, crashing);
  }

  /** The order loses no thread exactly when at most one has the crashing thread's id. */
  lemma OrderIsPermutation(ts: seq<ThreadSnapshot>, crashing: Option<u32>)
    ensures multiset(Ordered(ts, crashing)) == multiset(ts) <==> Crashing(ts, crashing) <= 1
  {
    hide Named, Others, Crashing;
    OthersCount(ts, crashing);
    if Crashing(ts, crashing) == 0 {
      NobodyCrashed(ts, crashing);
    } else if Crashing(ts, crashing) == 1 {
      var k := OnlyCrashing(ts, crashing);
      CrashingFirst(ts, crashing.value, k);
      assert ts == ts[..k] + [ts[k]] + ts[k + 1..];
    } else {
      assert |multiset(Ordered(ts, crashing))| <= 1 + |ts| - Crashing(ts, crashing);
      assert |multiset(ts)| == |ts|;
    }
  }

  lemma {:induction false} OnlyCrashing(ts: seq<ThreadSnapshot>, crashing: Option<u32>) returns (k: nat)
    requires Crashing(ts, crashing) == 1
    ensures crashing.Some? && k < |ts| && ts[k].tid == crashing.value
    ensures forall j :: 0 <= j < |ts| && j != k ==> ts[j].tid != crashing.value
    decreases |ts|
  {
    var n := |ts| - 1;
    if Some(ts[n].tid) == crashing {
      k := n;
      OthersCount(ts[..n], crashing);
      assert forall j :: 0 <= j < n ==> ts[j] in ts[..n];
    } else {
      k := OnlyCrashing(ts[..n], crashing);
      assert forall j :: 0 <= j < n ==> ts[..n][j] == ts[j];
    }
  }

  // ---------- the notes of all threads ----------

  function SignalOf(i: nat, fatal: i32): i32 { if i == 0 then fatal else 0 }

  function OverrideOf(i: nat, exception: Option<Context>): Option<Context> { if i == 0 then exception else None }

  /** The notes of the first `n` threads of the order. */
  function NotesUpTo(ordered: seq<ThreadSnapshot>, n: nat, fatal: i32, exception: Option<Context>, word: WordSize)
    : Result<seq<Note>>
    requires n <= |ordered|
  {
    if n == 0 then Ok([])
    else
      var before :- NotesUpTo(ordered, n - 1, fatal, exception, word);
      var last :- NotesOf(ordered[n - 1], SignalOf(n - 1, fatal), OverrideOf(n - 1, exception), word);
      Ok(before + last)
  }

  function StatusNotes(ns: seq<Note>): seq<Note> {
    if ns == [] then []
    else StatusNotes(ns[..|ns| - 1]) + (if ns[|ns| - 1].ntype == 1 then [ns[|ns| - 1]] else [])
  }

  /** The status notes that the order calls for: one for each thread with a context, the fatal
      signal and the exception context only in the first place. */
  function ExpectedStatus(ordered: seq<ThreadSnapshot>, n: nat, fatal: i32, exception: Option<Context>, word: WordSize)
    : seq<Note>
    requires n <= |ordered|
  {
    if n == 0 then []
    else
      ExpectedStatus(ordered, n - 1, fatal, exception, word)
      + match EffectiveContext(ordered[n - 1], OverrideOf(n - 1, exception))
        case None => []
        case Some(c) =>
          if c.prReg.Err? then []
          else [StatusNote(ordered[n - 1], SignalOf(n - 1, fatal), c.prReg.value, c.fpRegs.Some?, word)]
  }

  lemma {:induction false} StatusNotesJoin(xs: seq<Note>, ys: seq<Note>)
    ensures StatusNotes(xs + ys) == StatusNotes(xs) + StatusNotes(ys)
    decreases |ys|
  {
    if ys == [] {
      assert xs + ys == xs;
    } else {
      var n := |ys| - 1;
      assert (xs + ys)[..|xs + ys| - 1] == xs + ys[..n];
      StatusNotesJoin(xs, ys[..n]);
    }
  }

  lemma OneStatus(t: ThreadSnapshot, signal: i32, override: Option<Context>, word: WordSize)
    requires NotesOf(t, signal, override, word).Ok?
    ensures StatusNotes(NotesOf(t, signal, override, word).value) ==
            match EffectiveContext(t, override)
            case None => []
            case Some(c) => [StatusNote(t, signal, c.prReg.value, c.fpRegs.Some?, word)]
  {
    hide Prstatus, EffectiveContext;
    if EffectiveContext(t, override).Some? {
      var c := EffectiveContext(t, override).value;
      var status := StatusNote(t, signal, c.prReg.value, c.fpRegs.Some?, word);
      var fp, xfp := OptionalNote(CORE_NAME, NT_FPREGSET, c.fpRegs), OptionalNote(LINUX_NAME, NT_PRXFPREG, c.xfpRegs);
      StatusNotesJoin([status] + fp, xfp);
      StatusNotesJoin([status], fp);
      assert [status][..0] == [] && StatusNotes([status]) == [status];
      NoStatus(CORE_NAME, NT_FPREGSET, c.fpRegs);
      NoStatus(LINUX_NAME, NT_PRXFPREG, c.xfpRegs);
    }
  }

  lemma NoStatus(name: seq<byte>, ntype: u32, desc: Option<seq<byte>>)
    requires ntype != NT_PRSTATUS
    ensures StatusNotes(OptionalNote(name, ntype, desc)) == []
  {
  }

  /** The NT_PRSTATUS notes match, one to one and in order, the threads that have a context. */
  lemma {:induction false} StatusPerThread(ordered: seq<ThreadSnapshot>, n: nat, fatal: i32, exception: Option<Context>, word: WordSize)
    requires n <= |ordered| && NotesUpTo(ordered, n, fatal, exception, word).Ok?
    ensures StatusNotes(NotesUpTo(ordered, n, fatal, exception, word).value)
            == ExpectedStatus(ordered, n, fatal, exception, word)
  {
    hide StatusNotes, NotesOf, Prstatus;
    if n == 0 {
      NoNotes();
    } else {
      var before := NotesUpTo(ordered, n - 1, fatal, exception, word);
      var last := NotesOf(ordered[n - 1], SignalOf(n - 1, fatal), OverrideOf(n - 1, exception), word);
      StatusPerThread(ordered, n - 1, fatal, exception, word);
      StatusNotesJoin(before.value, last.value);
      OneStatus(ordered[n - 1], SignalOf(n - 1, fatal), OverrideOf(n - 1, exception), word);
      OkHasRegisters(ordered[n - 1], SignalOf(n - 1, fatal), OverrideOf(n - 1, exception), word);
    }
  }

  lemma NoNotes()
    ensures StatusNotes([]) == []
  {
  }

  lemma OkHasRegisters(t: ThreadSnapshot, signal: i32, override: Option<Context>, word: WordSize)
    requires NotesOf(t, signal, override, word).Ok?
    ensures EffectiveContext(t, override).Some? ==> EffectiveContext(t, override).value.prReg.Ok?
  {
  }
}
