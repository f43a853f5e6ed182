/** What a debugger learns from NT_FILE about an address, before and after augmentation. */
module FileMeaning {
  import opened Bytes
  import opened Model
  import Ascending
  import opened Mappings
  import opened InjectionStep
  import opened InjectionRun
  import opened NtFile

  /** A place in a file. */
  datatype Place = Place(name: seq<byte>, position: int)

  /** The place that the first range containing `a` gives it. */
  function LookUp(rs: seq<FileRange>, a: int): Option<Place> {
    if rs == [] then None
    else if rs[0].start <= a < rs[0].end then Some(Place(rs[0].name, rs[0].offset + (a - rs[0].start)))
    else LookUp(rs[1..], a)
  }

  function PlaceOf(b: Option<Backing>): Option<Place> {
    if b.Some? && b.value.InFile? then Some(Place(b.value.name, b.value.position)) else None
  }

  /** Every file offset is a page multiple and every name is free of NULs, as in any table of
      memory-mapped files. */
  ghost predicate MapsFiles(t: Table) {
    forall k :: k in t && t[k].filename.Some? ==>
      Aligned(t[k].offset, DEFAULT_PAGE_SIZE) && 0 !in t[k].filename.value
  }

  // ---------- injections keep it ----------

  lemma SplitMapsFiles(t: Table, k: u64, at: u64, data: seq<byte>)
    requires MapsFiles(t) && k in t && k <= at && Split(t, k, at, data).outcome.Ok?
    requires Aligned(k, DEFAULT_PAGE_SIZE) && Aligned(at, DEFAULT_PAGE_SIZE)
    ensures MapsFiles(Split(t, k, at, data).table)
  {
    hide Aligned;
    AlignedSum(k, at - k, DEFAULT_PAGE_SIZE);
    if t[k].filename.Some? {
      AlignedSum(t[k].offset, at - k, DEFAULT_PAGE_SIZE);
    }
  }

  lemma StepMapsFiles(t: Table, c: Capture)
    requires WellFormed(t, DEFAULT_PAGE_SIZE) && MapsFiles(t) && c.data != []
    requires Inject(t, c, DEFAULT_PAGE_SIZE).outcome.Ok?
    ensures MapsFiles(Inject(t, c, DEFAULT_PAGE_SIZE).table)
  {
    hide Inject, Aligned, PaddedCapture, Split;
    InjectShape(t, c, DEFAULT_PAGE_SIZE);
    if Covered(t, c.address) {
      var k := Owner(t, c.address);
      assert Placed(k, t[k], DEFAULT_PAGE_SIZE);
      SplitMapsFiles(t, k, First(c, DEFAULT_PAGE_SIZE), PaddedCapture(c, DEFAULT_PAGE_SIZE));
    }
  }

  lemma {:induction false} RunMapsFiles(t: Table, cs: seq<Capture>)
    requires WellFormed(t, DEFAULT_PAGE_SIZE) && Reaches(t, cs, DEFAULT_PAGE_SIZE) && MapsFiles(t)
    requires InjectAll(t, cs, DEFAULT_PAGE_SIZE).outcome.Ok?
    ensures MapsFiles(InjectAll(t, cs, DEFAULT_PAGE_SIZE).table)
    decreases |cs|
  {
    hide Inject, MapsFiles, WellFormed;
    if cs == [] {
    } else {
      StepWellFormed(t, cs[0], DEFAULT_PAGE_SIZE);
      StepMapsFiles(t, cs[0]);
      RunMapsFiles(Inject(t, cs[0], DEFAULT_PAGE_SIZE).table, cs[1..]);
    }
  }

  // ---------- looking up an address ----------

  ghost predicate Contains(r: FileRange, a: int) { r.start <= a < r.end }

  /** If every range that contains `a` gives it the same place, that is where it is. */
  lemma {:induction false} LookUpAgrees(rs: seq<FileRange>, a: int, place: Place)
    requires forall i :: 0 <= i < |rs| && Contains(rs[i], a) ==>
      Place(rs[i].name, rs[i].offset + (a - rs[i].start)) == place
    ensures LookUp(rs, a) == if exists i :: 0 <= i < |rs| && Contains(rs[i], a) then Some(place) else None
    decreases |rs|
  {
    if rs == [] {
    } else {
      LookUpAgrees(rs[1..], a, place);
      if i :| 0 < i < |rs| && Contains(rs[i], a) {
        assert rs[1..][i - 1] == rs[i];
      }
    }
  }

  function FileRanges(t: Table): seq<FileRange> {
    var fs := FileBacked(Values(t));
    seq(|fs|, i requires 0 <= i < |fs| => AsFileRange(fs[i]))
  }

  /** A listed mapping is in the table, at its start. */
  lemma ListedInTable(t: Table, m: Mapping)
    requires WellFormed(t, DEFAULT_PAGE_SIZE) && m in Values(t)
    ensures m.start in t && t[m.start] == m
  {
    hide Values, Aligned;
    var i :| 0 <= i < |Values(t)| && Values(t)[i] == m;
    var k := Ascending.Keys(t.Keys)[i];
    assert Placed(k, t[k], DEFAULT_PAGE_SIZE);
  }

  lemma TableIsListed(t: Table, k: u64)
    requires k in t
    ensures t[k] in Values(t)
  {
    hide Values;
    assert k in Ascending.Keys(t.Keys);
    var i :| 0 <= i < |Ascending.Keys(t.Keys)| && Ascending.Keys(t.Keys)[i] == k;
    assert Values(t)[i] == t[k];
  }

  lemma ListedIsComplete(t: Table)
    requires WellFormed(t, DEFAULT_PAGE_SIZE)
    ensures forall m :: m in FileBacked(Values(t)) <==> m in Values(t) && m.filename.Some?
  {
    hide Aligned, FileBacked;
    var ms := Values(t);
    forall i, j | 0 <= i < j < |ms|
      ensures ms[i].start < ms[j].start
    {
      var x, y := Ascending.Keys(t.Keys)[i], Ascending.Keys(t.Keys)[j];
      assert Placed(x, t[x], DEFAULT_PAGE_SIZE) && Placed(y, t[y], DEFAULT_PAGE_SIZE);
    }
    FileBackedKeepsOrder(ms);
  }

  /** A range that contains `a` belongs to the owner of `a` and gives its place. */
  lemma RangeIsOwner(t: Table, m: Mapping, a: int)
    requires WellFormed(t, DEFAULT_PAGE_SIZE) && MapsFiles(t)
    requires m in Values(t) && m.filename.Some? && m.start <= a < m.end
    ensures Covered(t, a) && Owner(t, a) == m.start && t[m.start] == m
    ensures Some(Place(AsFileRange(m).name, AsFileRange(m).offset + (a - m.start))) == PlaceOf(BackingAt(t, a))
  {
    hide Aligned, Values, Down, WellFormed;
    ListedInTable(t, m);
    OwnerIs(t, m.start, a, DEFAULT_PAGE_SIZE);
    AlignedBetween(m.offset, m.offset, DEFAULT_PAGE_SIZE);
  }

  lemma RangeGives(t: Table, i: nat, a: int)
    requires WellFormed(t, DEFAULT_PAGE_SIZE) && MapsFiles(t)
    requires i < |FileRanges(t)| && Contains(FileRanges(t)[i], a)
    ensures var r := FileRanges(t)[i]; Some(Place(r.name, r.offset + (a - r.start))) == PlaceOf(BackingAt(t, a))
  {
    hide WellFormed, MapsFiles, BackingAt, Values, FileBacked, Down, PlaceOf;
    var m := FileBacked(Values(t))[i];
    assert m in FileBacked(Values(t));
    RangeIsOwner(t, m, a);
  }

  lemma SomeRange(t: Table, a: int)
    requires WellFormed(t, DEFAULT_PAGE_SIZE) && PlaceOf(BackingAt(t, a)).Some?
    ensures exists i :: 0 <= i < |FileRanges(t)| && Contains(FileRanges(t)[i], a)
  {
    hide WellFormed, BackingAt, Values, FileBacked, Down, PlaceOf;
    ListedIsComplete(t);
    PlacedIsListed(t, a);
    var fs := FileBacked(Values(t));
    var i :| 0 <= i < |fs| && fs[i] == t[Owner(t, a)];
    assert Contains(FileRanges(t)[i], a);
  }

  /** NT_FILE gives every address the place that backs it, and no other address a place. */
  lemma RangesLocate(t: Table, a: int)
    requires WellFormed(t, DEFAULT_PAGE_SIZE) && MapsFiles(t)
    ensures LookUp(FileRanges(t), a) == PlaceOf(BackingAt(t, a))
  {
    hide WellFormed, MapsFiles, BackingAt, PlaceOf, FileRanges, LookUp;
    var rs, backing := FileRanges(t), PlaceOf(BackingAt(t, a));
    forall i | 0 <= i < |rs| && Contains(rs[i], a)
      ensures Some(Place(rs[i].name, rs[i].offset + (a - rs[i].start))) == backing
    {
      RangeGives(t, i, a);
    }
    if backing.Some? {
      SomeRange(t, a);
      LookUpAgrees(rs, a, backing.value);
    } else {
      LookUpAgrees(rs, a, Place([], 0));
    }
  }

  lemma PlacedIsListed(t: Table, a: int)
    requires PlaceOf(BackingAt(t, a)).Some?
    ensures Covered(t, a) && t[Owner(t, a)] in Values(t) && t[Owner(t, a)].filename.Some?
    ensures t[Owner(t, a)].start <= a < t[Owner(t, a)].end
  {
    hide Values;
    TableIsListed(t, Owner(t, a));
  }

  lemma ListedAreNamed(t: Table)
    requires WellFormed(t, DEFAULT_PAGE_SIZE) && MapsFiles(t)
    ensures Named(FileBacked(Values(t)))
  {
    hide Aligned, Values;
    var fs := FileBacked(Values(t));
    forall i | 0 <= i < |fs|
      ensures fs[i].filename.Some? && 0 !in fs[i].filename.value
    {
      assert fs[i] in fs;
      ListedInTable(t, fs[i]);
    }
  }

  /** Augmentation does not change what NT_FILE says: after any successful run whose captures
      land, the payload reads back, and it gives every address the file and the
      position that backed it before the run, and a place to no other address. */
  lemma NtFileSurvivesAugmentation(t: Table, cs: seq<Capture>, word: WordSize, a: int)
    requires WellFormed(t, DEFAULT_PAGE_SIZE) && Reaches(t, cs, DEFAULT_PAGE_SIZE) && MapsFiles(t)
    requires InjectAll(t, cs, DEFAULT_PAGE_SIZE).outcome.Ok?
    requires PayloadFits(FileBacked(Values(InjectAll(t, cs, DEFAULT_PAGE_SIZE).table)), word)
    ensures var payload := Payload(FileBacked(Values(InjectAll(t, cs, DEFAULT_PAGE_SIZE).table)), word);
            && ReadNtFile(payload, word).Some?
            && LookUp(ReadNtFile(payload, word).value, a) == PlaceOf(BackingAt(t, a))
  {
    hide InjectAll, WellFormed, Reaches, MapsFiles, Values, FileBacked, Payload, PayloadFits, ReadNtFile, BackingAt, LookUp;
    var t' := InjectAll(t, cs, DEFAULT_PAGE_SIZE).table;
    RunKeepsTable(t, cs, DEFAULT_PAGE_SIZE);
    RunMapsFiles(t, cs);
    ListedAreNamed(t');
    NtFileRoundTrip(FileBacked(Values(t')), word);
    RangesLocate(t', a);
    BackingKept(t, cs, a);
  }

  lemma BackingKept(t: Table, cs: seq<Capture>, a: int)
    requires WellFormed(t, DEFAULT_PAGE_SIZE) && Reaches(t, cs, DEFAULT_PAGE_SIZE)
    requires InjectAll(t, cs, DEFAULT_PAGE_SIZE).outcome.Ok?
    ensures PlaceOf(BackingAt(InjectAll(t, cs, DEFAULT_PAGE_SIZE).table, a)) == PlaceOf(BackingAt(t, a))
  {
    hide InjectAll, WellFormed, Reaches;
    if Covered(t, a) {
      RunKeepsBacking(t, cs, DEFAULT_PAGE_SIZE, a);
    } else {
      RunCovers(t, cs, DEFAULT_PAGE_SIZE, a);
    }
  }
}
