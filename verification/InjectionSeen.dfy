/** What the table shows at every address after a run of injections. */
module InjectionSeen {
  import opened Bytes
  import opened Model
  import opened Mappings
  import opened InjectionStep
  import opened InjectionRun

  // ---------- captures survive ----------

  /** At an address in the pages of a capture that capture is seen, in a mapping that begins
      nowhere before it. */
  ghost predicate Seen(t: Table, c: Capture, a: int, page: nat)
    requires page > 0
  {
    Covered(t, a) && First(c, page) <= Owner(t, a) && ByteAt(t, a) == Some(CaptureByte(c, a))
  }

  /** An injection makes its capture seen, whatever bytes its pages held before. */
  lemma StepSeen(t: Table, c: Capture, page: u64, a: int)
    requires page > 0 && WellFormed(t, page) && c.data != [] && Fits(t, c, page)
    requires Spans(c, a, page) && Inject(t, c, page).outcome.Ok?
    ensures Seen(Inject(t, c, page).table, c, a, page)
  {
    hide Inject, Split, WellFormed, Fits, ByteAt;
    var F, L, bytes := First(c, page), Last(c, page), PaddedCapture(c, page);
    FitsGap(t, c, page);
    FitsLands(t, c, page);
    SpanFacts(c, page);
    InjectShape(t, c, page);
    InjectBytes(t, c, page, a);
    if Covered(t, c.address) {
      SplitOwner(t, Owner(t, c.address), F, bytes, a, page);
    } else {
      StepWellFormed(t, c, page);
      SyntheticOwner(t, F, L, bytes, a, page);
    }
  }

  /** A capture that shares no page with it leaves it seen. */
  lemma StepLeavesSeen(t: Table, c: Capture, d: Capture, page: u64, a: int)
    requires page > 0 && WellFormed(t, page) && Lands(t, d, page)
    requires Spans(c, a, page) && Seen(t, c, a, page) && Apart(c, d, page)
    requires Inject(t, d, page).outcome.Ok?
    ensures Seen(Inject(t, d, page).table, c, a, page)
  {
    hide Inject, Split, ByteAt;
    var F, L, bytes := First(d, page), Last(d, page), PaddedCapture(d, page);
    SpanFacts(d, page);
    InjectShape(t, d, page);
    InjectBytes(t, d, page, a);
    if Covered(t, d.address) {
      var k: u64 := Owner(t, d.address);
      assert Placed(k, t[k], page);
      SplitOwner(t, k, F, bytes, a, page);
    } else {
      StepWellFormed(t, d, page);
      SyntheticOwner(t, F, L, bytes, a, page);
    }
  }

  lemma {:induction false} RunLeavesSeen(t: Table, c: Capture, cs: seq<Capture>, page: u64, a: int)
    requires page > 0 && WellFormed(t, page) && Reaches(t, cs, page) && InjectAll(t, cs, page).outcome.Ok?
    requires Spans(c, a, page) && Seen(t, c, a, page)
    requires forall i :: 0 <= i < |cs| ==> Apart(c, cs[i], page)
    ensures Seen(InjectAll(t, cs, page).table, c, a, page)
    decreases |cs|
  {
    hide Inject, Seen, WellFormed, Lands, Apart;
    if cs == [] {
    } else {
      StepWellFormed(t, cs[0], page);
      StepLeavesSeen(t, c, cs[0], page, a);
      RunLeavesSeen(Inject(t, cs[0], page).table, c, cs[1..], page, a);
    }
  }

  /** Capture `i` fits at its turn, and no later capture shares a page with it. */
  ghost predicate Lasts(t: Table, cs: seq<Capture>, i: nat, page: u64)
    requires page > 0 && i < |cs|
  {
    && Fits(After(t, cs, i, page), cs[i], page)
    && forall j :: i < j < |cs| ==> Apart(cs[i], cs[j], page)
  }

  lemma LastsInTail(t: Table, cs: seq<Capture>, i: nat, page: u64)
    requires page > 0 && 0 < i < |cs| && Inject(t, cs[0], page).outcome.Ok?
    ensures Lasts(t, cs, i, page) <==> Lasts(Inject(t, cs[0], page).table, cs[1..], i - 1, page)
  {
    hide Inject, Fits, After, Apart;
    AfterHead(t, cs, i, page);
    assert forall j :: i < j < |cs| ==> cs[1..][j - 1] == cs[j];
    assert forall j :: i - 1 < j < |cs[1..]| ==> cs[1..][j] == cs[j + 1];
  }

  /** Captures that fit and share no page last. */
  lemma {:induction false} PlaceableLasts(t: Table, cs: seq<Capture>, i: nat, page: u64)
    requires page > 0 && Placeable(t, cs, page) && InjectAll(t, cs, page).outcome.Ok? && i < |cs|
    ensures Lasts(t, cs, i, page)
    decreases i
  {
    hide Inject, WellFormed, Fits, After;
    if i == 0 {
      AfterNone(t, cs, page);
    } else {
      StepPlaceable(t, cs, page);
      PlaceableLasts(Inject(t, cs[0], page).table, cs[1..], i - 1, page);
      LastsInTail(t, cs, i, page);
    }
  }

  /** After a run, an address in the pages of a capture that lasts shows that capture. */
  lemma {:induction false} RunWrites(t: Table, cs: seq<Capture>, page: u64, i: nat, a: int)
    requires page > 0 && WellFormed(t, page) && Reaches(t, cs, page) && InjectAll(t, cs, page).outcome.Ok?
    requires i < |cs| && Lasts(t, cs, i, page) && Spans(cs[i], a, page)
    ensures ByteAt(InjectAll(t, cs, page).table, a) == Some(CaptureByte(cs[i], a))
    decreases |cs|
  {
    hide Inject, WellFormed, Lands, Fits, After, Apart, Spans, CaptureByte;
    StepWellFormed(t, cs[0], page);
    var t1 := Inject(t, cs[0], page).table;
    if i == 0 {
      AfterNone(t, cs, page);
      LandsHasData(t, cs[0], page);
      StepSeen(t, cs[0], page, a);
      RunLeavesSeen(t1, cs[0], cs[1..], page, a);
    } else {
      assert cs[1..][i - 1] == cs[i];
      LastsInTail(t, cs, i, page);
      RunWrites(t1, cs[1..], page, i - 1, a);
    }
  }

  lemma LandsHasData(t: Table, c: Capture, page: nat)
    requires page > 0 && Lands(t, c, page)
    ensures c.data != []
  {
  }

  lemma CaptureReadsBack(t: Table, cs: seq<Capture>, page: u64, i: nat, j: nat)
    requires page > 0 && WellFormed(t, page) && Reaches(t, cs, page) && InjectAll(t, cs, page).outcome.Ok?
    requires i < |cs| && Lasts(t, cs, i, page) && j < |cs[i].data|
    ensures ByteAt(InjectAll(t, cs, page).table, cs[i].address + j) == Some(cs[i].data[j])
  {
    hide InjectAll, WellFormed, Reaches, Lasts;
    RunWrites(t, cs, page, i, cs[i].address + j);
  }

  /** After every prefix of a run, every byte of every capture injected so far is read
      back at its own address. */
  lemma CapturesSurvive(t: Table, cs: seq<Capture>, page: u64, n: nat, i: nat, j: nat)
    requires page > 0 && Placeable(t, cs, page) && InjectAll(t, cs, page).outcome.Ok?
    requires i < n <= |cs| && j < |cs[i].data|
    ensures InjectAll(t, cs[..n], page).outcome.Ok?
    ensures ByteAt(InjectAll(t, cs[..n], page).table, cs[i].address + j) == Some(cs[i].data[j])
  {
    hide InjectAll, WellFormed, Reaches, Lasts;
    PrefixSucceeds(t, cs, n, page);
    PlaceablePrefix(t, cs, n, page);
    PlaceableReaches(t, cs[..n], page);
    PlaceableLasts(t, cs[..n], i, page);
    CaptureReadsBack(t, cs[..n], page, i, j);
  }

  // ---------- what a run hides, and what it leaves ----------

  /** A capture was put into the mapping of `a`, below `a`: a split drops what its owner showed
      from there on. */
  ghost predicate CutBelow(t: Table, c: Capture, a: int, page: nat)
    requires page > 0
  {
    Covered(t, a) && Owner(t, a) <= First(c, page) && Last(c, page) <= a
  }

  ghost predicate Cut(t: Table, cs: seq<Capture>, a: int, page: nat)
    requires page > 0
  {
    exists i :: 0 <= i < |cs| && CutBelow(t, cs[i], a, page)
  }

  /** Outside its pages an injection hides what is cut and leaves the rest. */
  lemma StepOutside(t: Table, c: Capture, page: u64, a: int)
    requires page > 0 && WellFormed(t, page) && Lands(t, c, page)
    requires Inject(t, c, page).outcome.Ok? && !Spans(c, a, page)
    ensures ByteAt(Inject(t, c, page).table, a) == if CutBelow(t, c, a, page) then None else ByteAt(t, a)
  {
    hide Inject, Split, ByteAt;
    SpanFacts(c, page);
    InjectShape(t, c, page);
    InjectBytes(t, c, page, a);
    if Covered(t, a) {
      var o: u64 := Owner(t, a);
      assert Placed(o, t[o], page);
      if Covered(t, c.address) {
        var k: u64 := Owner(t, c.address);
        assert Placed(k, t[k], page);
        if k <= a < t[k].end { OwnerIs(t, k, a, page); }
      }
    } else if Covered(t, c.address) {
      var k: u64 := Owner(t, c.address);
      assert Placed(k, t[k], page) && !t[k].Contains(a);
    }
  }

  /** Outside its pages an injection changes no owner, but for what it cuts. */
  lemma StepOwner(t: Table, c: Capture, page: u64, a: int)
    requires page > 0 && WellFormed(t, page) && Lands(t, c, page)
    requires Inject(t, c, page).outcome.Ok? && !Spans(c, a, page)
    ensures var t' := Inject(t, c, page).table;
            && (Covered(t', a) <==> Covered(t, a))
            && (Covered(t, a) && !CutBelow(t, c, a, page) ==> Owner(t', a) == Owner(t, a))
  {
    hide Inject, Split;
    var F, L, bytes := First(c, page), Last(c, page), PaddedCapture(c, page);
    SpanFacts(c, page);
    InjectShape(t, c, page);
    if Covered(t, c.address) {
      SplitOwner(t, Owner(t, c.address), F, bytes, a, page);
    } else {
      StepWellFormed(t, c, page);
      SyntheticOwner(t, F, L, bytes, a, page);
    }
  }

  /** What a run shows outside the pages of its captures: nothing where it cut a mapping below,
      and otherwise what was there before. */
  lemma {:induction false} RunLeaves(t: Table, cs: seq<Capture>, page: u64, a: int)
    requires page > 0 && WellFormed(t, page) && Reaches(t, cs, page) && InjectAll(t, cs, page).outcome.Ok?
    requires forall i :: 0 <= i < |cs| ==> !Spans(cs[i], a, page)
    ensures ByteAt(InjectAll(t, cs, page).table, a) == if Cut(t, cs, a, page) then None else ByteAt(t, a)
    decreases |cs|
  {
    hide Inject, WellFormed, Lands, Spans, ByteAt, Covered;
    if cs == [] {
    } else {
      var t1 := Inject(t, cs[0], page).table;
      StepWellFormed(t, cs[0], page);
      StepOutside(t, cs[0], page, a);
      StepOwner(t, cs[0], page, a);
      RunLeaves(t1, cs[1..], page, a);
      CutInTail(t, t1, cs, page, a);
    }
  }

  lemma CutInTail(t: Table, t1: Table, cs: seq<Capture>, page: nat, a: int)
    requires page > 0 && cs != [] && (Covered(t1, a) <==> Covered(t, a))
    requires Covered(t, a) && !CutBelow(t, cs[0], a, page) ==> Owner(t1, a) == Owner(t, a)
    ensures CutBelow(t, cs[0], a, page) ==> Cut(t, cs, a, page)
    ensures !CutBelow(t, cs[0], a, page) ==> (Cut(t, cs, a, page) <==> Cut(t1, cs[1..], a, page))
  {
    hide First, Last;
    if i :| 0 < i < |cs| && CutBelow(t, cs[i], a, page) && !CutBelow(t, cs[0], a, page) {
      assert CutBelow(t1, cs[1..][i - 1], a, page);
    }
    if i :| 0 <= i < |cs[1..]| && CutBelow(t1, cs[1..][i], a, page) && !CutBelow(t, cs[0], a, page) {
      assert CutBelow(t, cs[i + 1], a, page);
    }
  }
}
