/** How a written core file lets every address be accessed. */
module CoreAccess {
  import opened Bytes
  import opened Model
  import Ascending
  import opened Mappings
  import opened InjectionStep
  import opened InjectionRun
  import opened NoteSegment
  import opened CoreWriter
  import opened CoreReader
  import opened Ingestion
  import opened IngestedCore
  import opened Pipeline

  /** The first segment that contains `a`. */
  function SegmentAt(segments: seq<Segment>, a: int): Option<Segment> {
    if segments == [] then None
    else if segments[0].Contains(a) then Some(segments[0])
    else SegmentAt(segments[1..], a)
  }

  /** The flags with which a loader maps `a`. */
  function FlagsAt(bytes: seq<byte>, a: int): Option<nat> {
    match Load(bytes)
    case None => None
    case Some(segments) =>
      match SegmentAt(segments, a)
      case None => None
      case Some(segment) => Some(segment.flags)
  }

  /** The flags of the ELF standard: 4 to read, 2 to write, 1 to execute; no permissions at all
      stand for no information and read as 4. */
  function FlagsFor(p: Permissions): nat {
    if !p.read && !p.write && !p.execute then 4
    else (if p.read then 4 else 0) + (if p.write then 2 else 0) + (if p.execute then 1 else 0)
  }

  function AccessOf(b: Backing): Permissions { b.access }

  lemma {:induction false} FirstSegment(segments: seq<Segment>, a: int, j: nat)
    requires j < |segments| && segments[j].Contains(a)
    requires forall i :: 0 <= i < j ==> !segments[i].Contains(a)
    ensures SegmentAt(segments, a) == Some(segments[j])
    decreases j
  {
    if j == 0 {
    } else {
      FirstSegment(segments[1..], a, j - 1);
    }
  }

  lemma {:induction false} NoSegment(segments: seq<Segment>, a: int)
    requires forall i :: 0 <= i < |segments| ==> !segments[i].Contains(a)
    ensures SegmentAt(segments, a) == None
    decreases |segments|
  {
    if segments == [] {
    } else {
      NoSegment(segments[1..], a);
    }
  }

  lemma SegmentIsOwner(t: Table, i: nat, a: int)
    requires WellFormed(t, DEFAULT_PAGE_SIZE) && RangesProper(Values(t)) && i < |Values(t)|
    ensures var segment, k := SegmentsFor(Values(t))[i], Ascending.Keys(t.Keys)[i];
            && (segment.Contains(a) <==> t[k].Contains(a))
            && segment.flags == FlagsFor(t[k].permissions)
            && (t[k].Contains(a) ==> Covered(t, a) && Owner(t, a) == k)
  {
    hide Aligned, Ascending.Keys, Values;
    var k := Ascending.Keys(t.Keys)[i];
    assert Placed(k, t[k], DEFAULT_PAGE_SIZE);
    if t[k].Contains(a) { OwnerIs(t, k, a, DEFAULT_PAGE_SIZE); }
  }

  lemma SegmentsShowAccess(t: Table, a: int)
    requires WellFormed(t, DEFAULT_PAGE_SIZE) && RangesProper(Values(t))
    ensures var found := SegmentAt(SegmentsFor(Values(t)), a);
            if Covered(t, a) then found.Some? && found.value.flags == FlagsFor(t[Owner(t, a)].permissions)
            else found.None?
  {
    hide Ascending.Keys, Values, WellFormed, RangesProper, SegmentsFor, SegmentAt, FlagsFor;
    var keys, segments := Ascending.Keys(t.Keys), SegmentsFor(Values(t));
    forall i | 0 <= i < |keys|
      ensures segments[i].Contains(a) <==> t[keys[i]].Contains(a)
      ensures t[keys[i]].Contains(a) ==> Covered(t, a) && Owner(t, a) == keys[i]
    {
      SegmentIsOwner(t, i, a);
    }
    if Covered(t, a) {
      assert Owner(t, a) in keys;
      var j :| 0 <= j < |keys| && keys[j] == Owner(t, a);
      SegmentIsOwner(t, j, a);
      FirstSegment(segments, a, j);
    } else {
      NoSegment(segments, a);
    }
  }

  /** A loader maps every address of the table, and no other, with the flags of its mapping. */
  lemma CoreShowsAccess(arch: Architecture, s: Source, t: Table, a: int)
    requires WellFormed(t, DEFAULT_PAGE_SIZE) && CanWrite(arch, s, t)
    ensures FlagsAt(Written(arch, s, t), a)
            == match BackingAt(t, a)
               case None => None
               case Some(b) => Some(FlagsFor(AccessOf(b)))
  {
    hide WellFormed, Values, Load, CoreFile, SegmentAt, SegmentNotes, LayoutOf, Writable, FlagsFor;
    WellFormedIsProper(t);
    FileLoadsBack(Header(arch, s, t), NoteBytes(arch, s, t), Values(t));
    SegmentsShowAccess(t, a);
  }

  /** Augmentation keeps the flags of every address, and lets what fills a gap be read and
      written. */
  lemma AugmentedAccess(arch: Architecture, s: Source, t: Table, cs: seq<Capture>, a: int)
    requires WellFormed(t, DEFAULT_PAGE_SIZE) && Reaches(t, cs, DEFAULT_PAGE_SIZE)
    requires InjectAll(t, cs, DEFAULT_PAGE_SIZE).outcome.Ok?
    requires CanWrite(arch, s, InjectAll(t, cs, DEFAULT_PAGE_SIZE).table)
    ensures FlagsAt(Written(arch, s, InjectAll(t, cs, DEFAULT_PAGE_SIZE).table), a)
            == match BackingAt(t, a)
               case Some(b) => Some(FlagsFor(AccessOf(b)))
               case None => if Fills(t, cs, a, DEFAULT_PAGE_SIZE) then Some(6) else None
  {
    hide WellFormed, Reaches, InjectAll, CanWrite, Written, FlagsAt, Fills;
    RunKeepsTable(t, cs, DEFAULT_PAGE_SIZE);
    CoreShowsAccess(arch, s, InjectAll(t, cs, DEFAULT_PAGE_SIZE).table, a);
    if Covered(t, a) {
      RunKeepsBacking(t, cs, DEFAULT_PAGE_SIZE, a);
    } else {
      RunCovers(t, cs, DEFAULT_PAGE_SIZE, a);
    }
  }

  /** Ingested modules can be read only. */
  lemma IngestedAccess(arch: Architecture, s: Source, t: Table, ms: seq<Module>, cs: seq<Capture>, i: nat, a: int)
    requires AllAddressable(ms) && WellFormed(t, DEFAULT_PAGE_SIZE) && ModulesFit(t, ms, DEFAULT_PAGE_SIZE)
    requires Reaches(WithModules(t, ms), cs, DEFAULT_PAGE_SIZE)
    requires InjectAll(WithModules(t, ms), cs, DEFAULT_PAGE_SIZE).outcome.Ok?
    requires CanWrite(arch, s, InjectAll(WithModules(t, ms), cs, DEFAULT_PAGE_SIZE).table)
    requires InModule(t, ms, i, a)
    ensures FlagsAt(Written(arch, s, InjectAll(WithModules(t, ms), cs, DEFAULT_PAGE_SIZE).table), a) == Some(4)
  {
    hide WithModules, WellFormed, ModulesFit, Reaches, InjectAll, CanWrite, Written, FlagsAt, InModule, Covered;
    FitIsWellFormed(t, ms, DEFAULT_PAGE_SIZE);
    IngestedBacking(t, ms, a);
    AugmentedAccess(arch, s, WithModules(t, ms), cs, a);
  }
}
