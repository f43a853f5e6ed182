/** The NT_FILE payload (src/notes.rs) and a reader of its format. */
module NtFile {
  import opened Bytes
  import opened Model
  import opened Memory
  import opened Mappings

  /** The mappings that have a file, in the given order. */
  function FileBacked(ms: seq<Mapping>): (r: seq<Mapping>)
    ensures forall m :: m in r ==> m.filename.Some? && m in ms
  {
    if ms == [] then []
    else FileBacked(ms[..|ms| - 1]) + (if ms[|ms| - 1].filename.Some? then [ms[|ms| - 1]] else [])
  }

  function PageOffset(m: Mapping): nat { m.offset / DEFAULT_PAGE_SIZE }

  function RangePart(m: Mapping, word: WordSize): seq<byte> {
    LE(m.start, word) + LE(m.end, word) + LE(PageOffset(m), word)
  }

  predicate RangeFits(m: Mapping, word: WordSize) {
    FitsWord(m.start, word) && FitsWord(m.end, word) && FitsWord(PageOffset(m), word)
  }

  function NamePart(m: Mapping): seq<byte>
    requires m.filename.Some?
  {
    m.filename.value + [0]
  }

  function RangeParts(fs: seq<Mapping>, word: WordSize): seq<seq<byte>> {
    seq(|fs|, i requires 0 <= i < |fs| => RangePart(fs[i], word))
  }

  function NameParts(fs: seq<Mapping>): seq<seq<byte>>
    requires forall m :: m in fs ==> m.filename.Some?
  {
    seq(|fs|, i requires 0 <= i < |fs| => NamePart(fs[i]))
  }

  function Counts(fs: seq<Mapping>, word: WordSize): seq<byte> {
    LE(|fs|, word) + LE(DEFAULT_PAGE_SIZE, word)
  }

  function Payload(fs: seq<Mapping>, word: WordSize): seq<byte>
    requires forall m :: m in fs ==> m.filename.Some?
  {
    Counts(fs, word) + Flatten(RangeParts(fs, word)) + Flatten(NameParts(fs))
  }

  /** Every field of the payload can be represented at its width. */
  predicate PayloadFits(fs: seq<Mapping>, word: WordSize) {
    FitsWord(|fs|, word) && forall i :: 0 <= i < |fs| ==> RangeFits(fs[i], word)
  }

  // ---------- building ----------

  method CollectFileBacked(ms: seq<Mapping>) returns (fs: seq<Mapping>)
    ensures fs == FileBacked(ms)
  {
    fs := [];
    var i := 0;
    while i < |ms|
      invariant 0 <= i <= |ms|
      invariant fs == FileBacked(ms[..i])
    {
      assert ms[..i + 1][..i] == ms[..i];
      if ms[i].filename.Some? {
        fs := fs + [ms[i]];
      }
      i := i + 1;
    }
    assert ms[..i] == ms;
  }

  method PushRange(out: seq<byte>, m: Mapping, word: WordSize) returns (r: Result<seq<byte>>)
    ensures RangeFits(m, word) ==> r == Ok(out + RangePart(m, word))
    ensures !RangeFits(m, word) ==> r.Err?
  {
    hide LE;
    var o :- PushWord(out, m.start, word);
    o :- PushWord(o, m.end, word);
    o :- PushWord(o, m.offset / DEFAULT_PAGE_SIZE, word);
    Join3(out, LE(m.start, word), LE(m.end, word), LE(PageOffset(m), word));
    return Ok(o);
  }

  method PushRanges(counts: seq<byte>, fs: seq<Mapping>, word: WordSize) returns (r: Result<seq<byte>>)
    ensures (forall i :: 0 <= i < |fs| ==> RangeFits(fs[i], word)) ==>
      r == Ok(counts + Flatten(RangeParts(fs, word)))
    ensures r.Ok? ==> forall i :: 0 <= i < |fs| ==> RangeFits(fs[i], word)
  {
    hide RangePart, RangeFits, Flatten;
    ghost var parts := RangeParts(fs, word);
    var out := counts;
    FlattenNone(parts);
    var i := 0;
    while i < |fs|
      invariant 0 <= i <= |fs|
      invariant out == counts + Flatten(parts[..i])
      invariant forall j :: 0 <= j < i ==> RangeFits(fs[j], word)
    {
      FlattenNext(parts, i);
      Join2(counts, Flatten(parts[..i]), parts[i]);
      out :- PushRange(out, fs[i], word);
      i := i + 1;
    }
    FlattenAll(parts);
    return Ok(out);
  }

  method PushNames(prefix: seq<byte>, fs: seq<Mapping>) returns (out: seq<byte>)
    requires forall m :: m in fs ==> m.filename.Some?
    ensures out == prefix + Flatten(NameParts(fs))
  {
    hide Flatten;
    ghost var parts := NameParts(fs);
    out := prefix;
    FlattenNone(parts);
    var i := 0;
    while i < |fs|
      invariant 0 <= i <= |fs|
      invariant out == prefix + Flatten(parts[..i])
    {
      FlattenNext(parts, i);
      Join3(prefix, Flatten(parts[..i]), fs[i].filename.value, [0]);
      Join2(Flatten(parts[..i]), fs[i].filename.value, [0]);
      out := out + fs[i].filename.value;
      out := out + [0];
      i := i + 1;
    }
    FlattenAll(parts);
  }

  /** Succeeds exactly when every field fits its width. */
  method BuildNtFilePayload(arch: Architecture, mappings: MappingTable) returns (r: Result<seq<byte>>)
    ensures var fs, word := FileBacked(Values(mappings.entries)), arch.LongSize();
            && (PayloadFits(fs, word) ==> r == Ok(Payload(fs, word)))
            && (!PayloadFits(fs, word) ==> r.Err?)
  {
    hide LE, RangeFits, Flatten;
    var word := arch.LongSize();
    var fs := CollectFileBacked(Values(mappings.entries));
    var out :- PushWord([], |fs|, word);
    assert [] + LE(|fs|, word) == LE(|fs|, word);
    var withPageSize := PushWord(out, DEFAULT_PAGE_SIZE, word);
    assert withPageSize.Ok?;
    out :- PushRanges(withPageSize.value, fs, word);
    out := PushNames(out, fs);
    return Ok(out);
  }

  // ---------- reading ----------

  /** One file-backed range: its addresses, its file offset in bytes and its path. */
  datatype FileRange = FileRange(start: nat, end: nat, offset: nat, name: seq<byte>)

  datatype Range = Range(start: nat, end: nat, pageOffset: nat)

  /** The ranges, and the offset just behind them. */
  datatype Ranges = Ranges(list: seq<Range>, next: nat)

  function ReadRange(bytes: seq<byte>, at: nat, word: WordSize): Option<Range> {
    match ReadLE(bytes, at, word)
    case None => None
    case Some(start) =>
    match ReadLE(bytes, at + word, word)
    case None => None
    case Some(end) =>
    match ReadLE(bytes, at + 2 * word, word)
    case None => None
    case Some(pageOffset) => Some(Range(start, end, pageOffset))
  }

  function ReadRanges(bytes: seq<byte>, at: nat, count: nat, word: WordSize): (r: Option<Ranges>)
    ensures r.Some? ==> |r.value.list| == count
    decreases count
  {
    if count == 0 then Some(Ranges([], at))
    else
      match ReadRange(bytes, at, word)
      case None => None
      case Some(range) =>
        match ReadRanges(bytes, at + 3 * word, count - 1, word)
        case None => None
        case Some(rest) => Some(Ranges([range] + rest.list, rest.next))
  }

  /** The bytes from `at` up to a NUL. */
  function ReadName(bytes: seq<byte>, at: nat): Option<seq<byte>>
    decreases |bytes| - at
  {
    if at >= |bytes| then None
    else if bytes[at] == 0 then Some([])
    else
      match ReadName(bytes, at + 1)
      case None => None
      case Some(rest) => Some([bytes[at]] + rest)
  }

  function ReadNames(bytes: seq<byte>, at: nat, count: nat): (r: Option<seq<seq<byte>>>)
    ensures r.Some? ==> |r.value| == count
    decreases count
  {
    if count == 0 then Some([])
    else
      match ReadName(bytes, at)
      case None => None
      case Some(name) =>
        match ReadNames(bytes, at + |name| + 1, count - 1)
        case None => None
        case Some(rest) => Some([name] + rest)
  }

  /** Ranges and names put together; offsets are page numbers in units of the page size. */
  function Paired(ranges: seq<Range>, names: seq<seq<byte>>, pageSize: nat): seq<FileRange>
    requires |ranges| == |names|
  {
    seq(|names|, i requires 0 <= i < |names| =>
      FileRange(ranges[i].start, ranges[i].end, ranges[i].pageOffset * pageSize, names[i]))
  }

  /** The payload as a debugger reads it. */
  function ReadNtFile(bytes: seq<byte>, word: WordSize): Option<seq<FileRange>> {
    match ReadLE(bytes, 0, word)
    case None => None
    case Some(count) =>
    match ReadLE(bytes, word, word)
    case None => None
    case Some(pageSize) =>
    match ReadRanges(bytes, 2 * word, count, word)
    case None => None
    case Some(ranges) =>
    match ReadNames(bytes, ranges.next, count)
    case None => None
    case Some(names) => Some(Paired(ranges.list, names, pageSize))
  }

  // ---------- round trip ----------

  lemma RangeReads(bytes: seq<byte>, at: nat, m: Mapping, word: WordSize)
    requires RangeFits(m, word) && Holds(FileView(bytes), at, RangePart(m, word))
    ensures ReadRange(bytes, at, word) == Some(Range(m.start, m.end, PageOffset(m)))
  {
    hide LE, ReadLE, Holds, FileView;
    var v := FileView(bytes);
    HoldsParts(v, at, LE(m.start, word) + LE(m.end, word), LE(PageOffset(m), word));
    HoldsParts(v, at, LE(m.start, word), LE(m.end, word));
    FitsWordLimit(m.start, word);
    FitsWordLimit(m.end, word);
    FitsWordLimit(PageOffset(m), word);
    WordInFile(bytes, at, m.start, word);
    WordInFile(bytes, at + word, m.end, word);
    WordInFile(bytes, at + 2 * word, PageOffset(m), word);
  }

  function RangesOf(fs: seq<Mapping>): seq<Range> {
    seq(|fs|, i requires 0 <= i < |fs| => Range(fs[i].start, fs[i].end, PageOffset(fs[i])))
  }

  lemma {:induction false} RangesRead(bytes: seq<byte>, base: nat, fs: seq<Mapping>, word: WordSize, i: nat)
    requires i <= |fs| && forall j :: 0 <= j < |fs| ==> RangeFits(fs[j], word)
    requires Holds(FileView(bytes), base, Flatten(RangeParts(fs, word)))
    ensures var parts := RangeParts(fs, word);
            ReadRanges(bytes, base + PartOffset(parts, i), |fs| - i, word)
            == Some(Ranges(RangesOf(fs)[i..], base + |Flatten(parts)|))
    decreases |fs| - i
  {
    hide ReadRange, RangeFits, Holds, FileView, LE;
    var parts := RangeParts(fs, word);
    if i == |fs| {
      FlattenAll(parts);
      assert RangesOf(fs)[i..] == [];
    } else {
      PartHeld(FileView(bytes), base, parts, i);
      RangeReads(bytes, base + PartOffset(parts, i), fs[i], word);
      FlattenNext(parts, i);
      RangesRead(bytes, base, fs, word, i + 1);
      assert RangesOf(fs)[i..] == [RangesOf(fs)[i]] + RangesOf(fs)[i + 1..];
    }
  }

  lemma {:induction false} NameReads(bytes: seq<byte>, at: nat, name: seq<byte>)
    requires 0 !in name && Holds(FileView(bytes), at, name + [0])
    ensures ReadName(bytes, at) == Some(name)
    decreases |name|
  {
    hide Holds, FileView;
    HeldInFile(bytes, at, name + [0]);
    assert bytes[at] == (name + [0])[0];
    if name == [] {
    } else {
      HoldsSlice(FileView(bytes), at, name + [0], 1, |name| + 1);
      assert (name + [0])[1..|name| + 1] == name[1..] + [0];
      NameReads(bytes, at + 1, name[1..]);
      assert name == [name[0]] + name[1..];
    }
  }

  ghost predicate Named(fs: seq<Mapping>) {
    forall i :: 0 <= i < |fs| ==> fs[i].filename.Some? && 0 !in fs[i].filename.value
  }

  function NamesOf(fs: seq<Mapping>): seq<seq<byte>>
    requires forall m :: m in fs ==> m.filename.Some?
  {
    seq(|fs|, i requires 0 <= i < |fs| => fs[i].filename.value)
  }

  lemma {:induction false} NamesRead(bytes: seq<byte>, base: nat, fs: seq<Mapping>, i: nat)
    requires i <= |fs| && Named(fs) && (forall m :: m in fs ==> m.filename.Some?)
    requires Holds(FileView(bytes), base, Flatten(NameParts(fs)))
    ensures ReadNames(bytes, base + PartOffset(NameParts(fs), i), |fs| - i) == Some(NamesOf(fs)[i..])
    decreases |fs| - i
  {
    hide ReadName, Holds, FileView;
    var parts := NameParts(fs);
    if i == |fs| {
      assert NamesOf(fs)[i..] == [];
    } else {
      PartHeld(FileView(bytes), base, parts, i);
      NameReads(bytes, base + PartOffset(parts, i), fs[i].filename.value);
      FlattenNext(parts, i);
      NamesRead(bytes, base, fs, i + 1);
      assert NamesOf(fs)[i..] == [NamesOf(fs)[i]] + NamesOf(fs)[i + 1..];
    }
  }

  /** The range of one mapping as the kernel format keeps it: whole pages of file offset. */
  function AsFileRange(m: Mapping): FileRange
    requires m.filename.Some?
  {
    FileRange(m.start, m.end, Down(m.offset, DEFAULT_PAGE_SIZE), m.filename.value)
  }

  lemma PageOffsetRoundsDown(m: Mapping)
    ensures PageOffset(m) * DEFAULT_PAGE_SIZE == Down(m.offset, DEFAULT_PAGE_SIZE)
  {
    hide Down;
    RemainderIsOffset(m.offset, DEFAULT_PAGE_SIZE);
  }

  lemma PayloadParts(fs: seq<Mapping>, word: WordSize)
    requires Named(fs) && forall m :: m in fs ==> m.filename.Some?
    ensures var v, ranges := FileView(Payload(fs, word)), RangeParts(fs, word);
            && Holds(v, 0, LE(|fs|, word)) && Holds(v, word, LE(DEFAULT_PAGE_SIZE, word))
            && Holds(v, 2 * word, Flatten(ranges))
            && Holds(v, 2 * word + |Flatten(ranges)|, Flatten(NameParts(fs)))
  {
    hide LE, Holds, Flatten;
    var v := FileView(Payload(fs, word));
    FileHolds(Payload(fs, word));
    HoldsParts(v, 0, Counts(fs, word) + Flatten(RangeParts(fs, word)), Flatten(NameParts(fs)));
    HoldsParts(v, 0, Counts(fs, word), Flatten(RangeParts(fs, word)));
    HoldsParts(v, 0, LE(|fs|, word), LE(DEFAULT_PAGE_SIZE, word));
  }

  /** Reading the payload returns the file-backed mappings in order, each with its addresses,
      its path and its file offset rounded down to a page. */
  lemma NtFileRoundTrip(fs: seq<Mapping>, word: WordSize)
    requires Named(fs) && PayloadFits(fs, word) && forall m :: m in fs ==> m.filename.Some?
    ensures ReadNtFile(Payload(fs, word), word)
            == Some(seq(|fs|, i requires 0 <= i < |fs| => AsFileRange(fs[i])))
  {
    hide ReadLE, ReadRanges, ReadNames, Holds, FileView, LE, Payload, Flatten, RangeFits, Down, PageOffset;
    var bytes := Payload(fs, word);
    PayloadParts(fs, word);
    FitsWordLimit(|fs|, word);
    FitsWordLimit(DEFAULT_PAGE_SIZE, word);
    WordInFile(bytes, 0, |fs|, word);
    WordInFile(bytes, word, DEFAULT_PAGE_SIZE, word);
    FlattenNone(RangeParts(fs, word));
    FlattenNone(NameParts(fs));
    RangesRead(bytes, 2 * word, fs, word, 0);
    NamesRead(bytes, 2 * word + |Flatten(RangeParts(fs, word))|, fs, 0);
    assert RangesOf(fs)[0..] == RangesOf(fs) && NamesOf(fs)[0..] == NamesOf(fs);
    PairedIsFileRanges(fs);
  }

  /** The payload begins with the number of ranges and the unit of their offsets. */
  lemma PayloadBegins(fs: seq<Mapping>, word: WordSize)
    requires Named(fs) && PayloadFits(fs, word) && forall m :: m in fs ==> m.filename.Some?
    ensures ReadLE(Payload(fs, word), 0, word) == Some(|fs|)
    ensures ReadLE(Payload(fs, word), word, word) == Some(4096)
  {
    hide ReadLE, Holds, FileView, LE, Payload, Flatten, RangeFits;
    PayloadParts(fs, word);
    FitsWordLimit(|fs|, word);
    FitsWordLimit(DEFAULT_PAGE_SIZE, word);
    WordInFile(Payload(fs, word), 0, |fs|, word);
    WordInFile(Payload(fs, word), word, DEFAULT_PAGE_SIZE, word);
  }

  lemma PairedIsFileRanges(fs: seq<Mapping>)
    requires forall m :: m in fs ==> m.filename.Some?
    ensures Paired(RangesOf(fs), NamesOf(fs), DEFAULT_PAGE_SIZE)
            == seq(|fs|, i requires 0 <= i < |fs| => AsFileRange(fs[i]))
  {
    hide Down;
    forall i | 0 <= i < |fs|
      ensures PageOffset(fs[i]) * DEFAULT_PAGE_SIZE == Down(fs[i].offset, DEFAULT_PAGE_SIZE)
    {
      PageOffsetRoundsDown(fs[i]);
    }
  }

  // ---------- which mappings, in which order ----------

  ghost predicate StartsAscend(ms: seq<Mapping>) {
    forall i, j :: 0 <= i < j < |ms| ==> ms[i].start < ms[j].start
  }

  /** The payload lists every file-backed mapping, and keeps the order of the table. */
  lemma {:induction false} FileBackedKeepsOrder(ms: seq<Mapping>)
    requires StartsAscend(ms)
    ensures StartsAscend(FileBacked(ms))
    ensures forall m :: m in FileBacked(ms) <==> m in ms && m.filename.Some?
    decreases |ms|
  {
    if ms == [] {
    } else {
      var init, last := ms[..|ms| - 1], ms[|ms| - 1];
      FileBackedKeepsOrder(init);
      assert ms == init + [last];
      assert forall m :: m in init ==> m.start < last.start;
    }
  }
}
