/** The rebuilt r_debug and link_map list (src/augment.rs) and the debugger that walks it. */
module LinkMap {
  import opened Bytes
  import opened Model
  import opened Memory

  /** Address of the page that hosts the rebuilt link map. */
  const LINK_MAP_ADDR: u64 := 4096

  datatype LinkMapEntry = LinkMapEntry(addr: u64, ld: u64, name: seq<byte>)

  datatype DsoDebug = DsoDebug(
    version: u32,
    brk: u64,
    ldbase: u64,
    dynamic: u64,
    linkMap: seq<LinkMapEntry>,
    dynamicData: seq<byte>)

  type Signatures = map<u64, seq<byte>>

  function NameFor(e: LinkMapEntry, signatures: Signatures): seq<byte> {
    if e.addr in signatures then signatures[e.addr] else e.name
  }

  /** Bytes taken by a name with at least one NUL, up to a multiple of eight. */
  function NameBlock(name: seq<byte>): nat {
    |name| + (8 - |name| % 8)
  }

  // ---------- layout ----------

  /** One link_map record, its address and the name stored behind it. */
  datatype Record = Record(at: nat, addr: nat, namePtr: nat, ld: nat, next: nat, prev: nat, name: seq<byte>)

  /** Address of record `i`: behind the r_debug header and each earlier record with its name. */
  function RecordAddr(es: seq<LinkMapEntry>, sigs: Signatures, word: WordSize, i: nat): nat
    requires i <= |es|
  {
    if i == 0 then LINK_MAP_ADDR + 5 * word
    else RecordAddr(es, sigs, word, i - 1) + 5 * word + NameBlock(NameFor(es[i - 1], sigs))
  }

  function RecordOf(es: seq<LinkMapEntry>, sigs: Signatures, word: WordSize, i: nat): Record
    requires i < |es|
  {
    var at := RecordAddr(es, sigs, word, i);
    Record(at, es[i].addr, at + 5 * word, es[i].ld,
           if i + 1 == |es| then 0 else RecordAddr(es, sigs, word, i + 1),
           if i == 0 then 0 else RecordAddr(es, sigs, word, i - 1),
           NameFor(es[i], sigs))
  }

  function Records(es: seq<LinkMapEntry>, sigs: Signatures, word: WordSize): seq<Record> {
    seq(|es|, i requires 0 <= i < |es| => RecordOf(es, sigs, word, i))
  }

  function FirstRecord(es: seq<LinkMapEntry>, word: WordSize): nat {
    if es == [] then 0 else LINK_MAP_ADDR + 5 * word
  }

  // ---------- bytes ----------

  function FiveWords(a: nat, b: nat, c: nat, d: nat, e: nat, word: WordSize): seq<byte> {
    LE(a, word) + LE(b, word) + LE(c, word) + LE(d, word) + LE(e, word)
  }

  predicate FiveFit(a: nat, b: nat, c: nat, d: nat, e: nat, word: WordSize) {
    FitsWord(a, word) && FitsWord(b, word) && FitsWord(c, word) && FitsWord(d, word) && FitsWord(e, word)
  }

  function NameBytes(name: seq<byte>): (s: seq<byte>)
    ensures |s| == NameBlock(name)
  {
    name + Zeros(8 - |name| % 8)
  }

  function RecordBytes(r: Record, word: WordSize): seq<byte> {
    FiveWords(r.addr, r.namePtr, r.ld, r.next, r.prev, word) + NameBytes(r.name)
  }

  predicate RecordFits(r: Record, word: WordSize) {
    FiveFit(r.addr, r.namePtr, r.ld, r.next, r.prev, word)
  }

  function HeaderBytes(dso: DsoDebug, word: WordSize): seq<byte> {
    FiveWords(dso.version, FirstRecord(dso.linkMap, word), dso.brk, 0, dso.ldbase, word)
  }

  predicate HeaderFits(dso: DsoDebug, word: WordSize) {
    FiveFit(dso.version, FirstRecord(dso.linkMap, word), dso.brk, 0, dso.ldbase, word)
  }

  function Parts(rs: seq<Record>, word: WordSize): seq<seq<byte>> {
    seq(|rs|, i requires 0 <= i < |rs| => RecordBytes(rs[i], word))
  }

  function Blob(dso: DsoDebug, sigs: Signatures, word: WordSize): seq<byte> {
    HeaderBytes(dso, word) + Flatten(Parts(Records(dso.linkMap, sigs, word), word))
  }

  predicate RecordsFit(rs: seq<Record>, word: WordSize) {
    forall i :: 0 <= i < |rs| ==> RecordFits(rs[i], word)
  }

  /** Every word of the blob can be represented at its width. */
  predicate BlobFits(dso: DsoDebug, sigs: Signatures, word: WordSize) {
    HeaderFits(dso, word) && RecordsFit(Records(dso.linkMap, sigs, word), word)
  }

  lemma RecordSize(r: Record, word: WordSize)
    ensures |RecordBytes(r, word)| == 5 * word + NameBlock(r.name)
  {
  }

  /** The header and the records before record `i` end at the address of that record. */
  lemma {:induction false} RecordsReach(es: seq<LinkMapEntry>, sigs: Signatures, word: WordSize, i: nat)
    requires i <= |es|
    ensures LINK_MAP_ADDR + 5 * word + PartOffset(Parts(Records(es, sigs, word), word), i)
            == RecordAddr(es, sigs, word, i)
  {
    hide RecordBytes, Flatten, NameFor, NameBlock;
    var rs := Records(es, sigs, word);
    var parts := Parts(rs, word);
    if i > 0 {
      RecordsReach(es, sigs, word, i - 1);
      FlattenNext(parts, i - 1);
      RecordSize(rs[i - 1], word);
    } else {
      FlattenNone(parts);
    }
  }

  // ---------- building ----------

  method PushFiveWords(data: seq<byte>, a: nat, b: nat, c: nat, d: nat, e: nat, word: WordSize)
    returns (r: Result<seq<byte>>)
    ensures FiveFit(a, b, c, d, e, word) ==> r == Ok(data + FiveWords(a, b, c, d, e, word))
    ensures !FiveFit(a, b, c, d, e, word) ==> r.Err?
  {
    var out :- PushWord(data, a, word);
    out :- PushWord(out, b, word);
    out :- PushWord(out, c, word);
    out :- PushWord(out, d, word);
    out :- PushWord(out, e, word);
    Join5(data, LE(a, word), LE(b, word), LE(c, word), LE(d, word), LE(e, word));
    return Ok(out);
  }

  method PushRecord(data: seq<byte>, record: Record, word: WordSize) returns (r: Result<seq<byte>>)
    ensures RecordFits(record, word) ==> r == Ok(data + RecordBytes(record, word))
    ensures !RecordFits(record, word) ==> r.Err?
  {
    var out :- PushFiveWords(data, record.addr, record.namePtr, record.ld, record.next, record.prev, word);
    out := out + record.name;
    var pad := 8 - |record.name| % 8;
    out := out + Zeros(pad);
    ghost var words := FiveWords(record.addr, record.namePtr, record.ld, record.next, record.prev, word);
    Join3(data, words, record.name, Zeros(pad));
    Join2(words, record.name, Zeros(pad));
    return Ok(out);
  }

  /** Record `i`, with its pointers computed from the length of the blob so far. */
  method NextRecord(len: nat, es: seq<LinkMapEntry>, sigs: Signatures, word: WordSize, i: nat)
    returns (r: Record)
    requires i < |es| && LINK_MAP_ADDR + len == RecordAddr(es, sigs, word, i)
    ensures r == RecordOf(es, sigs, word, i)
  {
    var linkMapSize := 5 * word;
    var entry := es[i];
    var filename := NameFor(entry, sigs);
    var nameOffset := LINK_MAP_ADDR + len + linkMapSize;
    var prev := 0;
    if i > 0 {
      prev := LINK_MAP_ADDR + len - NameBlock(NameFor(es[i - 1], sigs)) - linkMapSize;
    }
    var next := 0;
    if i + 1 != |es| {
      next := LINK_MAP_ADDR + len + linkMapSize + NameBlock(filename);
    }
    return Record(LINK_MAP_ADDR + len, entry.addr, nameOffset, entry.ld, next, prev, filename);
  }

  /** One turn of the record loop: appends `parts[i]` if all its words fit. */
  method PushPart(header: seq<byte>, data: seq<byte>, es: seq<LinkMapEntry>, sigs: Signatures, word: WordSize, i: nat,
                  ghost rs: seq<Record>, ghost parts: seq<seq<byte>>)
    returns (r: Result<seq<byte>>)
    requires rs == Records(es, sigs, word) && parts == Parts(rs, word) && i < |es|
    requires |header| == 5 * word && data == header + Flatten(parts[..i])
    ensures RecordFits(rs[i], word) ==> r == Ok(header + Flatten(parts[..i + 1]))
    ensures !RecordFits(rs[i], word) ==> r.Err?
  {
    RecordsReach(es, sigs, word, i);
    var record := NextRecord(|data|, es, sigs, word, i);
    assert record == rs[i];
    r := PushRecord(data, record, word);
    FlattenNext(parts, i);
    Join2(header, Flatten(parts[..i]), parts[i]);
  }

  method PushRecords(header: seq<byte>, es: seq<LinkMapEntry>, sigs: Signatures, word: WordSize)
    returns (r: Result<seq<byte>>)
    requires |header| == 5 * word
    ensures var rs := Records(es, sigs, word);
            && (RecordsFit(rs, word) ==> r == Ok(header + Flatten(Parts(rs, word))))
            && (!RecordsFit(rs, word) ==> r.Err?)
  {
    hide Flatten;
    ghost var rs := Records(es, sigs, word);
    ghost var parts := Parts(rs, word);
    var data := header;
    FlattenNone(parts);
    var i := 0;
    while i < |es|
      invariant 0 <= i <= |es|
      invariant data == header + Flatten(parts[..i])
      invariant forall j :: 0 <= j < i ==> RecordFits(rs[j], word)
    {
      data :- PushPart(header, data, es, sigs, word, i, rs, parts);
      i := i + 1;
    }
    FlattenAll(parts);
    return Ok(data);
  }

  method PushHeader(arch: Architecture, dso: DsoDebug) returns (r: Result<seq<byte>>)
    ensures HeaderFits(dso, arch.LongSize()) ==> r == Ok(HeaderBytes(dso, arch.LongSize()))
    ensures !HeaderFits(dso, arch.LongSize()) ==> r.Err?
  {
    var word := arch.LongSize();
    var rDebugSize := if arch.Is64Bit() then 40 else 20;
    var rMap := if |dso.linkMap| == 0 then 0 else LINK_MAP_ADDR + rDebugSize;
    r := PushFiveWords([], dso.version, rMap, dso.brk, 0, dso.ldbase, word);
    NothingBefore(HeaderBytes(dso, word));
  }

  method BuildLinkMapBlob(arch: Architecture, dso: DsoDebug, sigs: Signatures)
    returns (r: Result<seq<byte>>)
    ensures BlobFits(dso, sigs, arch.LongSize()) ==> r == Ok(Blob(dso, sigs, arch.LongSize()))
    ensures !BlobFits(dso, sigs, arch.LongSize()) ==> r.Err?
  {
    var data :- PushHeader(arch, dso);
    r := PushRecords(data, dso.linkMap, sigs, arch.LongSize());
  }

  // ---------- the debugger's walk ----------

  /** Reads the record at `at` and its name. */
  function ReadRecord(m: View, at: nat, word: WordSize): Option<Record> {
    match FetchWord(m, at, word)
    case None => None
    case Some(addr) =>
    match FetchWord(m, at + word, word)
    case None => None
    case Some(namePtr) =>
    match FetchWord(m, at + 2 * word, word)
    case None => None
    case Some(ld) =>
    match FetchWord(m, at + 3 * word, word)
    case None => None
    case Some(next) =>
    match FetchWord(m, at + 4 * word, word)
    case None => None
    case Some(prev) =>
    match CString(m, namePtr)
    case None => None
    case Some(name) => Some(Record(at, addr, namePtr, ld, next, prev, name))
  }

  /** Reads the record at an address. */
  type Reader = nat -> Option<Record>

  function RecordReader(m: View, word: WordSize): Reader {
    (at: nat) => ReadRecord(m, at, word)
  }

  /** Follows l_next from `at` to the null link, through at most `fuel` records. */
  function WalkNext(read: Reader, at: nat, fuel: nat): Option<seq<Record>>
    decreases fuel
  {
    if at == 0 then Some([])
    else if fuel == 0 then None
    else
      match read(at)
      case None => None
      case Some(r) =>
        match WalkNext(read, r.next, fuel - 1)
        case None => None
        case Some(rest) => Some([r] + rest)
  }

  /** Follows l_prev from `at` to the null link, through at most `fuel` records. */
  function WalkPrev(read: Reader, at: nat, fuel: nat): Option<seq<Record>>
    decreases fuel
  {
    if at == 0 then Some([])
    else if fuel == 0 then None
    else
      match read(at)
      case None => None
      case Some(r) =>
        match WalkPrev(read, r.prev, fuel - 1)
        case None => None
        case Some(rest) => Some([r] + rest)
  }

  /** A record as a NUL-terminated reader sees it. */
  function AsRead(r: Record): Record {
    r.(name := UpToNul(r.name))
  }

  function AllAsRead(rs: seq<Record>): (s: seq<Record>)
    ensures |s| == |rs|
  {
    seq(|rs|, i requires 0 <= i < |rs| => AsRead(rs[i]))
  }

  function Reversed<T>(s: seq<T>): (r: seq<T>)
    ensures |r| == |s|
    ensures forall k :: 0 <= k < |s| ==> r[k] == s[|s| - 1 - k]
  {
    if s == [] then [] else [s[|s| - 1]] + Reversed(s[..|s| - 1])
  }

  /** A null-ended, doubly linked list of records, each readable at its address. */
  ghost predicate Linked(read: Reader, rs: seq<Record>) {
    forall i :: 0 <= i < |rs| ==> LinkedAt(read, rs, i)
  }

  ghost predicate LinkedAt(read: Reader, rs: seq<Record>, i: nat)
    requires i < |rs|
  {
    && rs[i].at != 0
    && read(rs[i].at) == Some(rs[i])
    && rs[i].next == (if i + 1 == |rs| then 0 else rs[i + 1].at)
    && rs[i].prev == (if i == 0 then 0 else rs[i - 1].at)
  }

  lemma {:induction false} NextVisitsAll(read: Reader, rs: seq<Record>, i: nat, fuel: nat)
    requires Linked(read, rs) && i <= |rs| && |rs| - i <= fuel
    ensures WalkNext(read, if i == |rs| then 0 else rs[i].at, fuel) == Some(rs[i..])
    decreases |rs| - i
  {
    if i < |rs| {
      assert LinkedAt(read, rs, i);
      NextVisitsAll(read, rs, i + 1, fuel - 1);
      assert rs[i..] == [rs[i]] + rs[i + 1..];
    } else {
      assert rs[i..] == [];
    }
  }

  lemma {:induction false} PrevVisitsAll(read: Reader, rs: seq<Record>, n: nat, fuel: nat)
    requires Linked(read, rs) && n <= |rs| && n <= fuel
    ensures WalkPrev(read, if n == 0 then 0 else rs[n - 1].at, fuel) == Some(Reversed(rs[..n]))
    decreases n
  {
    if n > 0 {
      assert LinkedAt(read, rs, n - 1);
      PrevVisitsAll(read, rs, n - 1, fuel - 1);
      assert rs[..n][..n - 1] == rs[..n - 1];
    } else {
      assert rs[..n] == [];
    }
  }

  // ---------- the blob holds a linked list ----------

  lemma FetchFiveWords(m: View, at: int, a: nat, b: nat, c: nat, d: nat, e: nat, word: WordSize)
    requires FiveFit(a, b, c, d, e, word) && Holds(m, at, FiveWords(a, b, c, d, e, word))
    ensures FetchWord(m, at, word) == Some(a)
    ensures FetchWord(m, at + word, word) == Some(b)
    ensures FetchWord(m, at + 2 * word, word) == Some(c)
    ensures FetchWord(m, at + 3 * word, word) == Some(d)
    ensures FetchWord(m, at + 4 * word, word) == Some(e)
  {
    var s1, s2, s3, s4, s5 := LE(a, word), LE(b, word), LE(c, word), LE(d, word), LE(e, word);
    HoldsParts(m, at, s1 + s2 + s3 + s4, s5);
    HoldsParts(m, at, s1 + s2 + s3, s4);
    HoldsParts(m, at, s1 + s2, s3);
    HoldsParts(m, at, s1, s2);
    FetchWordHeld(m, at, a, word);
    FetchWordHeld(m, at + word, b, word);
    FetchWordHeld(m, at + 2 * word, c, word);
    FetchWordHeld(m, at + 3 * word, d, word);
    FetchWordHeld(m, at + 4 * word, e, word);
  }

  lemma NameHeld(m: View, at: nat, name: seq<byte>)
    requires Holds(m, at, NameBytes(name)) && at + |NameBytes(name)| <= U64_LIMIT
    ensures CString(m, at) == Some(UpToNul(name))
  {
    var pad := Zeros(8 - |name| % 8);
    assert NameBytes(name) == (name + [0]) + pad[1..];
    HoldsParts(m, at, name + [0], pad[1..]);
    CStringHeld(m, at, name);
  }

  lemma FiveWordsSize(a: nat, b: nat, c: nat, d: nat, e: nat, word: WordSize)
    ensures |FiveWords(a, b, c, d, e, word)| == 5 * word
  {
  }

  lemma RecordReads(m: View, r: Record, word: WordSize)
    requires RecordFits(r, word) && r.namePtr == r.at + 5 * word
    requires Holds(m, r.at, RecordBytes(r, word)) && r.at + |RecordBytes(r, word)| <= U64_LIMIT
    ensures ReadRecord(m, r.at, word) == Some(AsRead(r))
  {
    hide FiveWords, FetchWord, CString, Holds;
    var words := FiveWords(r.addr, r.namePtr, r.ld, r.next, r.prev, word);
    FiveWordsSize(r.addr, r.namePtr, r.ld, r.next, r.prev, word);
    HoldsParts(m, r.at, words, NameBytes(r.name));
    FetchFiveWords(m, r.at, r.addr, r.namePtr, r.ld, r.next, r.prev, word);
    NameHeld(m, r.namePtr, r.name);
  }

  lemma RecordOfShape(es: seq<LinkMapEntry>, sigs: Signatures, word: WordSize, i: nat)
    requires i < |es|
    ensures var rs := Records(es, sigs, word);
            && rs[i].at == RecordAddr(es, sigs, word, i) != 0
            && rs[i].namePtr == rs[i].at + 5 * word
            && rs[i].next == (if i + 1 == |rs| then 0 else rs[i + 1].at)
            && rs[i].prev == (if i == 0 then 0 else rs[i - 1].at)
  {
  }

  /** A memory that holds the blob can read record `i` at its address. */
  lemma RecordInBlob(m: View, dso: DsoDebug, sigs: Signatures, word: WordSize, i: nat)
    requires BlobFits(dso, sigs, word) && Holds(m, LINK_MAP_ADDR, Blob(dso, sigs, word))
    requires LINK_MAP_ADDR + |Blob(dso, sigs, word)| <= U64_LIMIT && i < |dso.linkMap|
    ensures var r := Records(dso.linkMap, sigs, word)[i];
            ReadRecord(m, r.at, word) == Some(AsRead(r))
  {
    var rs := Records(dso.linkMap, sigs, word);
    var parts := Parts(rs, word);
    HoldsParts(m, LINK_MAP_ADDR, HeaderBytes(dso, word), Flatten(parts));
    PartHeld(m, LINK_MAP_ADDR + 5 * word, parts, i);
    RecordsReach(dso.linkMap, sigs, word, i);
    RecordOfShape(dso.linkMap, sigs, word, i);
    RecordReads(m, rs[i], word);
  }

  /** A memory that holds the blob holds the linked list of its records. */
  lemma BlobIsLinked(m: View, dso: DsoDebug, sigs: Signatures, word: WordSize)
    requires BlobFits(dso, sigs, word) && Holds(m, LINK_MAP_ADDR, Blob(dso, sigs, word))
    requires LINK_MAP_ADDR + |Blob(dso, sigs, word)| <= U64_LIMIT
    ensures Linked(RecordReader(m, word), AllAsRead(Records(dso.linkMap, sigs, word)))
  {
    var rs := AllAsRead(Records(dso.linkMap, sigs, word));
    forall i | 0 <= i < |rs|
      ensures LinkedAt(RecordReader(m, word), rs, i)
    {
      RecordInBlob(m, dso, sigs, word, i);
      RecordOfShape(dso.linkMap, sigs, word, i);
    }
  }

  lemma HeaderReads(m: View, dso: DsoDebug, sigs: Signatures, word: WordSize)
    requires BlobFits(dso, sigs, word) && Holds(m, LINK_MAP_ADDR, Blob(dso, sigs, word))
    ensures FetchWord(m, LINK_MAP_ADDR, word) == Some(dso.version)
    ensures FetchWord(m, LINK_MAP_ADDR + word, word) == Some(FirstRecord(dso.linkMap, word))
    ensures FetchWord(m, LINK_MAP_ADDR + 2 * word, word) == Some(dso.brk)
    ensures FetchWord(m, LINK_MAP_ADDR + 3 * word, word) == Some(0)
    ensures FetchWord(m, LINK_MAP_ADDR + 4 * word, word) == Some(dso.ldbase)
  {
    HoldsParts(m, LINK_MAP_ADDR, HeaderBytes(dso, word), Flatten(Parts(Records(dso.linkMap, sigs, word), word)));
    FetchFiveWords(m, LINK_MAP_ADDR, dso.version, FirstRecord(dso.linkMap, word), dso.brk, 0, dso.ldbase, word);
  }

  /** What a debugger visits: every record of the list, with its names as it reads them. */
  function VisitedRecords(dso: DsoDebug, sigs: Signatures, word: WordSize): seq<Record> {
    AllAsRead(Records(dso.linkMap, sigs, word))
  }

  /** Following l_next from r_map visits every entry in order and ends at the null link;
      following l_prev from the last record visits them in reverse.  The memory may hold
      nothing but the blob, so every pointer stays inside it. */
  lemma WalkRecoversLinkMap(m: View, dso: DsoDebug, sigs: Signatures, word: WordSize, fuel: nat)
    requires BlobFits(dso, sigs, word) && Holds(m, LINK_MAP_ADDR, Blob(dso, sigs, word))
    requires LINK_MAP_ADDR + |Blob(dso, sigs, word)| <= U64_LIMIT
    requires |dso.linkMap| <= fuel
    ensures var visited, first := VisitedRecords(dso, sigs, word), FirstRecord(dso.linkMap, word);
            && FetchWord(m, LINK_MAP_ADDR + word, word) == Some(first)
            && WalkNext(RecordReader(m, word), first, fuel) == Some(visited)
            && WalkPrev(RecordReader(m, word), if visited == [] then 0 else visited[|visited| - 1].at, fuel)
               == Some(Reversed(visited))
  {
    var visited := VisitedRecords(dso, sigs, word);
    HeaderReads(m, dso, sigs, word);
    BlobIsLinked(m, dso, sigs, word);
    FirstIsFirst(dso, sigs, word);
    WalksVisitAll(RecordReader(m, word), visited, fuel);
  }

  lemma FirstIsFirst(dso: DsoDebug, sigs: Signatures, word: WordSize)
    ensures var visited := VisitedRecords(dso, sigs, word);
            FirstRecord(dso.linkMap, word) == if visited == [] then 0 else visited[0].at
  {
  }

  lemma WalksVisitAll(read: Reader, rs: seq<Record>, fuel: nat)
    requires Linked(read, rs) && |rs| <= fuel
    ensures WalkNext(read, if rs == [] then 0 else rs[0].at, fuel) == Some(rs)
    ensures WalkPrev(read, if rs == [] then 0 else rs[|rs| - 1].at, fuel) == Some(Reversed(rs))
  {
    NextVisitsAll(read, rs, 0, fuel);
    PrevVisitsAll(read, rs, |rs|, fuel);
    assert rs[0..] == rs && rs[..|rs|] == rs;
  }

  /** What the debugger learns of entry `i`: its load address, its dynamic section, and the name
      that the signatures give its address, or else its own, up to a NUL if it has one. */
  lemma VisitedIsEntry(dso: DsoDebug, sigs: Signatures, word: WordSize, i: nat)
    requires i < |dso.linkMap|
    ensures var visited, entry := VisitedRecords(dso, sigs, word), dso.linkMap[i];
            var name := if entry.addr in sigs then sigs[entry.addr] else entry.name;
            && |visited| == |dso.linkMap|
            && visited[i].addr == entry.addr && visited[i].ld == entry.ld
            && visited[i].name == UpToNul(name)
            && (0 !in name ==> visited[i].name == name)
  {
    NulFree(NameFor(dso.linkMap[i], sigs));
  }

  // ---------- sizes ----------

  /** A name block is the least multiple of eight with room for the name and a NUL. */
  lemma NameBlockIs(name: seq<byte>)
    ensures NameBlock(name) % 8 == 0 && |name| < NameBlock(name) <= |name| + 8
    ensures |NameBytes(name)| == NameBlock(name) && NameBytes(name)[..|name|] == name
    ensures forall i :: |name| <= i < NameBlock(name) ==> NameBytes(name)[i] == 0
  {
  }

  /** The blob is the header, and a record of five words and a name block for each entry. */
  lemma {:induction false} RecordAddrGrows(es: seq<LinkMapEntry>, sigs: Signatures, word: WordSize, i: nat, j: nat)
    requires i < j <= |es|
    ensures RecordAddr(es, sigs, word, i) + 5 * word < RecordAddr(es, sigs, word, j)
    decreases j
  {
    hide NameFor, NameBlock;
    NameBlockIs(NameFor(es[j - 1], sigs));
    if i == j - 1 {
    } else {
      RecordAddrGrows(es, sigs, word, i, j - 1);
    }
  }

  lemma BlobEnds(dso: DsoDebug, sigs: Signatures, word: WordSize)
    ensures LINK_MAP_ADDR + |Blob(dso, sigs, word)| == RecordAddr(dso.linkMap, sigs, word, |dso.linkMap|)
  {
    hide Flatten, RecordAddr, Records, Parts;
    var parts := Parts(Records(dso.linkMap, sigs, word), word);
    PartsCount(Records(dso.linkMap, sigs, word), word);
    RecordsReach(dso.linkMap, sigs, word, |dso.linkMap|);
    FlattenAll(parts);
    RecordsCount(dso.linkMap, sigs, word);
  }

  lemma PartsCount(rs: seq<Record>, word: WordSize)
    ensures |Parts(rs, word)| == |rs|
  {
  }

  lemma RecordsCount(es: seq<LinkMapEntry>, sigs: Signatures, word: WordSize)
    ensures |Records(es, sigs, word)| == |es|
  {
  }

  /** The captured words of entry `e` fit the target: always on 64 bits. */
  predicate EntryFits(e: LinkMapEntry, word: WordSize) {
    word == 4 ==> e.addr < 0x1_0000_0000 && e.ld < 0x1_0000_0000
  }

  lemma RecordFitsWhen(es: seq<LinkMapEntry>, sigs: Signatures, word: WordSize, i: nat)
    requires i < |es|
    requires RecordAddr(es, sigs, word, |es|) <= (if word == 8 then U64_LIMIT else U32_LIMIT)
    ensures RecordFits(RecordOf(es, sigs, word, i), word) <==> EntryFits(es[i], word)
  {
    hide RecordAddr, NameFor;
    RecordAddrGrows(es, sigs, word, i, |es|);
    if i + 1 < |es| { RecordAddrGrows(es, sigs, word, i + 1, |es|); }
    if i > 0 { RecordAddrGrows(es, sigs, word, i - 1, |es|); }
  }

  /** As long as the blob ends inside the address space of the target, it can be encoded
      exactly when all captured words fit. */
  lemma BlobFitsExactlyWhen(dso: DsoDebug, sigs: Signatures, word: WordSize)
    requires LINK_MAP_ADDR + |Blob(dso, sigs, word)| <= (if word == 8 then U64_LIMIT else U32_LIMIT)
    ensures BlobFits(dso, sigs, word) <==>
      && (word == 4 ==> dso.brk < 0x1_0000_0000 && dso.ldbase < 0x1_0000_0000)
      && forall i :: 0 <= i < |dso.linkMap| ==> EntryFits(dso.linkMap[i], word)
  {
    hide Flatten, RecordAddr, RecordOf, NameFor, Blob, RecordFits;
    BlobEnds(dso, sigs, word);
    forall i | 0 <= i < |dso.linkMap|
      ensures RecordFits(Records(dso.linkMap, sigs, word)[i], word) <==> EntryFits(dso.linkMap[i], word)
    {
      RecordFitsWhen(dso.linkMap, sigs, word, i);
    }
  }
}
