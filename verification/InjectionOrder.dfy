/** Page-disjoint injections commute, so a run gives the same table in any order. */
module InjectionOrder {
  import opened Bytes
  import opened Model
  import opened Mappings
  import opened InjectionStep
  import opened InjectionRun

  /** Both fail, or both succeed with the same table. */
  ghost predicate SameResult(x: Injection, y: Injection) {
    (x.outcome.Ok? <==> y.outcome.Ok?) && (x.outcome.Ok? ==> x.table == y.table)
  }

  // ---------- when an injection succeeds ----------

  predicate OffsetFits(m: Mapping, k: u64, at: u64) {
    m.filename.Some? ==> m.offset + (at - k) < U64_LIMIT
  }

  predicate SizeFits(c: Capture, page: nat)
    requires page > 0
  {
    Up(c.address - First(c, page) + |c.data|, page) < U64_LIMIT
  }

  lemma SplitSucceedsWhen(t: Table, c: Capture, page: u64, k: u64)
    requires page > 0 && k in t && k <= First(c, page)
    ensures InjectAt(t, c, page, Some(k)).outcome.Ok? <==>
            SizeFits(c, page) && OffsetFits(t[k], k, First(c, page))
  {
  }

  lemma FillSucceedsWhen(t: Table, c: Capture, page: u64)
    requires page > 0 && First(c, page) < Last(c, page)
    ensures InjectAt(t, c, page, None).outcome.Ok? <==> SizeFits(c, page) && Last(c, page) < U64_LIMIT
  {
  }

  /** An injection fails only on arithmetic: the sizes of the capture do not fit, the file
      offset of the new mapping does not fit, or the last page ends past the address space. */
  lemma SucceedsWhen(t: Table, c: Capture, page: u64)
    requires page > 0 && WellFormed(t, page) && c.data != []
    ensures Inject(t, c, page).outcome.Ok? <==>
            && SizeFits(c, page)
            && (if Covered(t, c.address)
                then OffsetFits(t[Owner(t, c.address)], Owner(t, c.address), First(c, page))
                else Last(c, page) < U64_LIMIT)
  {
    FindsOwner(t, c.address, page);
    if Covered(t, c.address) {
      OwnerHoldsPage(t, c, Owner(t, c.address), page);
      SplitSucceedsWhen(t, c, page, Owner(t, c.address));
    } else {
      SpanFacts(c, page);
      FillSucceedsWhen(t, c, page);
    }
  }

  // ---------- map updates ----------

  lemma UpdatesApart(t: Table, j: u64, a: Mapping, F: u64, x: Mapping, k: u64, b: Mapping, G: u64, y: Mapping)
    requires j != k && F != G && F != k && G != j
    ensures t[j := a][F := x][k := b][G := y] == t[k := b][G := y][j := a][F := x]
  {
  }

  lemma SplitsApart(t: Table, j: u64, F: u64, x: seq<byte>, k: u64, G: u64, y: seq<byte>)
    requires j in t && k in t && j != k && F != G && F != k && G != j
    requires Split(t, j, F, x).outcome.Ok? && Split(t, k, G, y).outcome.Ok?
    ensures Split(Split(t, j, F, x).table, k, G, y).outcome.Ok?
    ensures Split(Split(t, j, F, x).table, k, G, y) == Split(Split(t, k, G, y).table, j, F, x)
  {
    var a, b := Split(t, j, F, x).table, Split(t, k, G, y).table;
    assert a[k] == t[k] && b[j] == t[j];
    UpdatesApart(t, j, Below(t[j], j, F), F, a[F], k, Below(t[k], k, G), G, b[G]);
  }

  lemma SplitAndFillApart(t: Table, j: u64, F: u64, x: seq<byte>, G: u64, m: Mapping)
    requires j in t && F != G && G != j
    requires Split(t, j, F, x).outcome.Ok?
    ensures Split(t[G := m], j, F, x) == Injection(Split(t, j, F, x).table[G := m], Ok(()))
  {
    assert t[G := m][j] == t[j];
    assert Split(t[G := m], j, F, x).table == Split(t, j, F, x).table[G := m];
  }

  lemma FillsApart(t: Table, F: u64, x: Mapping, G: u64, y: Mapping)
    requires F != G
    ensures t[F := x][G := y] == t[G := y][F := x]
  {
  }

  /** Cutting one mapping at two places gives the same three pieces in either order. */
  lemma SplitsNested(t: Table, k: u64, F: u64, x: seq<byte>, G: u64, y: seq<byte>)
    requires k in t && k <= F < G
    ensures OffsetFits(t[k], k, G) ==> OffsetFits(t[k], k, F)
    ensures OffsetFits(t[k], k, G) ==>
      var s1, s2 := Split(t, k, F, x), Split(t, k, G, y);
      && s1.outcome.Ok? && s2.outcome.Ok? && F in s1.table && k in s2.table
      && OffsetFits(s1.table[F], F, G) && OffsetFits(s2.table[k], k, F)
      && SameResult(Split(s1.table, F, G, y), Split(s2.table, k, F, x))
    ensures !OffsetFits(t[k], k, G) && OffsetFits(t[k], k, F) ==>
      var s1 := Split(t, k, F, x);
      s1.outcome.Ok? && F in s1.table && !OffsetFits(s1.table[F], F, G)
  {
    if OffsetFits(t[k], k, G) {
      var s1, s2 := Split(t, k, F, x), Split(t, k, G, y);
      assert Split(s1.table, F, G, y).table == Split(s2.table, k, F, x).table;
    }
  }

  // ---------- two captures ----------

  /** Both captures lie in one mapping. */
  ghost predicate SameOwner(t: Table, c: Capture, d: Capture) {
    && Covered(t, c.address) && Covered(t, d.address)
    && Owner(t, c.address) == Owner(t, d.address)
  }

  lemma SplitUnseen(t: Table, k: u64, at: u64, data: seq<byte>, a: int, page: nat)
    requires page > 0 && WellFormed(t, page)
    requires k in t && k <= at < t[k].end && Aligned(at, page)
    requires Split(t, k, at, data).outcome.Ok?
    requires Covered(t, a) ==> Owner(t, a) != k
    ensures var t' := Split(t, k, at, data).table;
            && (Covered(t', a) <==> Covered(t, a))
            && (Covered(t, a) ==> Owner(t', a) == Owner(t, a) && t'[Owner(t, a)] == t[Owner(t, a)])
  {
    SplitOwner(t, k, at, data, a, page);
    if Covered(t, a) {
      assert Placed(k, t[k], page) && Placed(Owner(t, a), t[Owner(t, a)], page);
    }
  }

  /** Two captures with different owners do not see each other. */
  lemma OthersUnseen(t: Table, c: Capture, d: Capture, page: u64)
    requires page > 0 && Placeable(t, [c, d], page) && !SameOwner(t, c, d)
    requires Inject(t, c, page).outcome.Ok?
    ensures var t' := Inject(t, c, page).table;
            && (Covered(t', d.address) <==> Covered(t, d.address))
            && (Covered(t, d.address) ==>
                  var o := Owner(t, d.address); Owner(t', d.address) == o && t'[o] == t[o])
  {
    hide Inject, Split, Padded, WellFormed;
    assert [c, d][0] == c && [c, d][1] == d;
    var F, L, bytes := First(c, page), Last(c, page), PaddedCapture(c, page);
    FitsGap(t, c, page);
    InjectShape(t, c, page);
    if Covered(t, c.address) {
      SplitUnseen(t, Owner(t, c.address), F, bytes, d.address, page);
    } else {
      SyntheticWellFormed(t, F, L, bytes, page);
      SyntheticOwner(t, F, L, bytes, d.address, page);
    }
  }

  lemma PlaceableSwap(t: Table, c: Capture, d: Capture, page: nat)
    requires page > 0 && Placeable(t, [c, d], page)
    ensures Placeable(t, [d, c], page)
    ensures WellFormed(t, page) && c.data != [] && d.data != [] && Apart(c, d, page)
    ensures Fits(t, c, page) && Fits(t, d, page) && Lands(t, c, page) && Lands(t, d, page)
  {
    assert [c, d][0] == c && [c, d][1] == d;
    assert [d, c][0] == d && [d, c][1] == c;
    FitsLands(t, c, page);
    FitsLands(t, d, page);
  }

  /** Whether a capture goes in does not depend on a capture with another owner. */
  lemma SameOutcome(t: Table, c: Capture, d: Capture, page: u64)
    requires page > 0 && Placeable(t, [c, d], page) && !SameOwner(t, c, d)
    requires Inject(t, c, page).outcome.Ok?
    ensures Inject(Inject(t, c, page).table, d, page).outcome.Ok? <==> Inject(t, d, page).outcome.Ok?
  {
    PlaceableSwap(t, c, d, page);
    StepWellFormed(t, c, page);
    OthersUnseen(t, c, d, page);
    SucceedsWhen(t, d, page);
    SucceedsWhen(Inject(t, c, page).table, d, page);
  }

  /** The table after a second injection, in terms of the owner in the first table. */
  lemma SecondTable(t: Table, c: Capture, d: Capture, page: u64)
    requires page > 0 && Placeable(t, [c, d], page) && !SameOwner(t, c, d)
    requires Inject(t, c, page).outcome.Ok? && Inject(t, d, page).outcome.Ok?
    ensures var t1 := Inject(t, c, page).table;
            var G, M, y := First(d, page), Last(d, page), PaddedCapture(d, page);
            if Covered(t, d.address) then
              Owner(t, d.address) in t1 && Inject(t1, d, page) == Split(t1, Owner(t, d.address), G, y)
            else
              G < M < U64_LIMIT && Inject(t1, d, page).table == t1[G := Synthetic(G, M, y)]
  {
    PlaceableSwap(t, c, d, page);
    StepWellFormed(t, c, page);
    OthersUnseen(t, c, d, page);
    SameOutcome(t, c, d, page);
    InjectShape(Inject(t, c, page).table, d, page);
  }

  lemma FirstsDiffer(t: Table, c: Capture, d: Capture, page: u64)
    requires page > 0 && Placeable(t, [c, d], page) && !SameOwner(t, c, d)
    ensures First(c, page) != First(d, page)
    ensures Covered(t, d.address) ==> Owner(t, d.address) != First(c, page)
  {
    PlaceableSwap(t, c, d, page);
    SpanFacts(c, page);
    SpanFacts(d, page);
    if Covered(t, d.address) {
      var o := Owner(t, d.address);
      assert Placed(o, t[o], page);
      if o == First(c, page) { OwnerIs(t, o, c.address, page); }
    }
  }

  lemma SplitsCommute(t: Table, c: Capture, d: Capture, page: u64)
    requires page > 0 && Placeable(t, [c, d], page) && !SameOwner(t, c, d)
    requires Inject(t, c, page).outcome.Ok? && Inject(t, d, page).outcome.Ok?
    requires Covered(t, c.address) && Covered(t, d.address)
    ensures Inject(Inject(t, c, page).table, d, page).table
            == Inject(Inject(t, d, page).table, c, page).table
  {
    hide Inject, Split, WellFormed, Padded, Placeable;
    PlaceableSwap(t, c, d, page);
    InjectShape(t, c, page);
    InjectShape(t, d, page);
    SecondTable(t, c, d, page);
    SecondTable(t, d, c, page);
    FirstsDiffer(t, c, d, page);
    FirstsDiffer(t, d, c, page);
    SplitsApart(t, Owner(t, c.address), First(c, page), PaddedCapture(c, page),
                Owner(t, d.address), First(d, page), PaddedCapture(d, page));
  }

  lemma SplitAndFillCommute(t: Table, c: Capture, d: Capture, page: u64)
    requires page > 0 && Placeable(t, [c, d], page)
    requires Inject(t, c, page).outcome.Ok? && Inject(t, d, page).outcome.Ok?
    requires Covered(t, c.address) && !Covered(t, d.address)
    ensures Inject(Inject(t, c, page).table, d, page).table
            == Inject(Inject(t, d, page).table, c, page).table
  {
    hide Inject, Split, WellFormed, Padded, Placeable;
    PlaceableSwap(t, c, d, page);
    InjectShape(t, c, page);
    InjectShape(t, d, page);
    SecondTable(t, c, d, page);
    SecondTable(t, d, c, page);
    FirstsDiffer(t, c, d, page);
    FirstsDiffer(t, d, c, page);
    SplitAndFillApart(t, Owner(t, c.address), First(c, page), PaddedCapture(c, page),
                      First(d, page), Synthetic(First(d, page), Last(d, page), PaddedCapture(d, page)));
  }

  lemma FillsCommute(t: Table, c: Capture, d: Capture, page: u64)
    requires page > 0 && Placeable(t, [c, d], page)
    requires Inject(t, c, page).outcome.Ok? && Inject(t, d, page).outcome.Ok?
    requires !Covered(t, c.address) && !Covered(t, d.address)
    ensures Inject(Inject(t, c, page).table, d, page).table
            == Inject(Inject(t, d, page).table, c, page).table
  {
    hide Inject, Split, WellFormed, Padded, Placeable;
    PlaceableSwap(t, c, d, page);
    InjectShape(t, c, page);
    InjectShape(t, d, page);
    SecondTable(t, c, d, page);
    SecondTable(t, d, c, page);
    FirstsDiffer(t, c, d, page);
    FillsApart(t, First(c, page), Synthetic(First(c, page), Last(c, page), PaddedCapture(c, page)),
               First(d, page), Synthetic(First(d, page), Last(d, page), PaddedCapture(d, page)));
  }

  lemma ApartCommute(t: Table, c: Capture, d: Capture, page: u64)
    requires page > 0 && Placeable(t, [c, d], page) && !SameOwner(t, c, d)
    requires Inject(t, c, page).outcome.Ok? && Inject(t, d, page).outcome.Ok?
    ensures Inject(Inject(t, c, page).table, d, page).table
            == Inject(Inject(t, d, page).table, c, page).table
  {
    PlaceableSwap(t, c, d, page);
    if Covered(t, c.address) && Covered(t, d.address) {
      SplitsCommute(t, c, d, page);
    } else if Covered(t, c.address) {
      SplitAndFillCommute(t, c, d, page);
    } else if Covered(t, d.address) {
      SplitAndFillCommute(t, d, c, page);
    } else {
      FillsCommute(t, c, d, page);
    }
  }

  /** Two captures in one mapping go in, in either order, when the upper offset fits. */
  lemma NestedSucceeds(t: Table, c: Capture, d: Capture, page: u64)
    requires page > 0 && Placeable(t, [c, d], page) && SameOwner(t, c, d)
    requires First(c, page) < First(d, page) && SizeFits(c, page) && SizeFits(d, page)
    requires OffsetFits(t[Owner(t, c.address)], Owner(t, c.address), First(d, page))
    ensures InjectAll(t, [c, d], page).outcome.Ok? && InjectAll(t, [d, c], page).outcome.Ok?
    ensures InjectAll(t, [c, d], page).table == InjectAll(t, [d, c], page).table
  {
    hide Inject, InjectAll, Split, Placeable, WellFormed, SizeFits, OffsetFits, Padded, PaddedCapture;
    var k := Owner(t, c.address);
    PlaceableSwap(t, c, d, page);
    OwnerHoldsPage(t, c, k, page);
    SplitsNested(t, k, First(c, page), PaddedCapture(c, page), First(d, page), PaddedCapture(d, page));
    SucceedsWhen(t, c, page);
    SucceedsWhen(t, d, page);
    LowerThenUpper(t, c, d, page);
    UpperThenLower(t, c, d, page);
    TwoSteps(t, c, d, page);
    TwoSteps(t, d, c, page);
  }

  lemma NestedFails(t: Table, c: Capture, d: Capture, page: u64)
    requires page > 0 && Placeable(t, [c, d], page) && SameOwner(t, c, d)
    requires First(c, page) < First(d, page)
    requires !SizeFits(c, page) || !SizeFits(d, page)
             || !OffsetFits(t[Owner(t, c.address)], Owner(t, c.address), First(d, page))
    ensures InjectAll(t, [c, d], page).outcome.Err? && InjectAll(t, [d, c], page).outcome.Err?
  {
    var k := Owner(t, c.address);
    PlaceableSwap(t, c, d, page);
    OwnerHoldsPage(t, c, k, page);
    SplitsNested(t, k, First(c, page), PaddedCapture(c, page), First(d, page), PaddedCapture(d, page));
    TwoSteps(t, c, d, page);
    TwoSteps(t, d, c, page);
    SucceedsWhen(t, c, page);
    SucceedsWhen(t, d, page);
    if Inject(t, c, page).outcome.Ok? { LowerThenUpper(t, c, d, page); }
    if Inject(t, d, page).outcome.Ok? { UpperThenLower(t, c, d, page); }
  }

  /** Two captures in one mapping, the lower one first. */
  lemma NestedCommute(t: Table, c: Capture, d: Capture, page: u64)
    requires page > 0 && Placeable(t, [c, d], page) && SameOwner(t, c, d)
    requires First(c, page) < First(d, page)
    ensures SameResult(InjectAll(t, [c, d], page), InjectAll(t, [d, c], page))
  {
    if SizeFits(c, page) && SizeFits(d, page)
       && OffsetFits(t[Owner(t, c.address)], Owner(t, c.address), First(d, page)) {
      NestedSucceeds(t, c, d, page);
    } else {
      NestedFails(t, c, d, page);
    }
  }

  lemma TwoSteps(t: Table, c: Capture, d: Capture, page: u64)
    ensures var s := Inject(t, c, page);
            InjectAll(t, [c, d], page) == if s.outcome.Err? then s else Inject(s.table, d, page)
  {
    var s := Inject(t, c, page);
    assert [c, d][1..] == [d];
    if s.outcome.Ok? {
      var s' := Inject(s.table, d, page);
      assert InjectAll(s.table, [d], page)
          == if s'.outcome.Err? then s' else InjectAll(s'.table, [d][1..], page);
    }
  }

  lemma LowerThenUpper(t: Table, c: Capture, d: Capture, page: u64)
    requires page > 0 && Placeable(t, [c, d], page) && SameOwner(t, c, d)
    requires First(c, page) < First(d, page) && Inject(t, c, page).outcome.Ok?
    ensures var k := Owner(t, c.address);
            var F, x := First(c, page), PaddedCapture(c, page);
            var G, y := First(d, page), PaddedCapture(d, page);
            var t1 := Inject(t, c, page).table;
            && Inject(t, c, page) == Split(t, k, F, x) && F in t1
            && (Inject(t1, d, page).outcome.Ok? <==> SizeFits(d, page) && OffsetFits(t1[F], F, G))
            && (Inject(t1, d, page).outcome.Ok? ==> Inject(t1, d, page) == Split(t1, F, G, y))
  {
    var k := Owner(t, c.address);
    PlaceableSwap(t, c, d, page);
    var t1 := Inject(t, c, page).table;
    InjectShape(t, c, page);
    StepWellFormed(t, c, page);
    SplitOwner(t, k, First(c, page), PaddedCapture(c, page), d.address, page);
    SucceedsWhen(t1, d, page);
    if Inject(t1, d, page).outcome.Ok? { InjectShape(t1, d, page); }
  }

  lemma UpperThenLower(t: Table, c: Capture, d: Capture, page: u64)
    requires page > 0 && Placeable(t, [c, d], page) && SameOwner(t, c, d)
    requires First(c, page) < First(d, page) && Inject(t, d, page).outcome.Ok?
    ensures var k := Owner(t, c.address);
            var F, x := First(c, page), PaddedCapture(c, page);
            var G, y := First(d, page), PaddedCapture(d, page);
            var t2 := Inject(t, d, page).table;
            && Inject(t, d, page) == Split(t, k, G, y) && k in t2
            && (Inject(t2, c, page).outcome.Ok? <==> SizeFits(c, page) && OffsetFits(t2[k], k, F))
            && (Inject(t2, c, page).outcome.Ok? ==> Inject(t2, c, page) == Split(t2, k, F, x))
  {
    var k := Owner(t, c.address);
    PlaceableSwap(t, c, d, page);
    var t2 := Inject(t, d, page).table;
    InjectShape(t, d, page);
    StepWellFormed(t, d, page);
    SplitOwner(t, k, First(d, page), PaddedCapture(d, page), c.address, page);
    SucceedsWhen(t2, c, page);
    if Inject(t2, c, page).outcome.Ok? { InjectShape(t2, c, page); }
  }

  /** Two page-disjoint captures that fit give the same table in either order, and both orders
      succeed or neither does. */
  lemma InjectionsCommute(t: Table, c: Capture, d: Capture, page: u64)
    requires page > 0 && Placeable(t, [c, d], page)
    ensures SameResult(InjectAll(t, [c, d], page), InjectAll(t, [d, c], page))
  {
    PlaceableSwap(t, c, d, page);
    if SameOwner(t, c, d) {
      SpanFacts(c, page);
      SpanFacts(d, page);
      if First(c, page) < First(d, page) {
        NestedCommute(t, c, d, page);
      } else {
        NestedCommute(t, d, c, page);
      }
    } else {
      TwoSteps(t, c, d, page);
      TwoSteps(t, d, c, page);
      if Inject(t, c, page).outcome.Ok? { SameOutcome(t, c, d, page); }
      if Inject(t, d, page).outcome.Ok? { SameOutcome(t, d, c, page); }
      if Inject(t, c, page).outcome.Ok? && Inject(t, d, page).outcome.Ok? {
        ApartCommute(t, c, d, page);
      }
    }
  }

  // ---------- any order ----------

  lemma SwapInRun(t: Table, c: Capture, d: Capture, rest: seq<Capture>, page: u64)
    requires page > 0 && Placeable(t, [c, d] + rest, page)
    ensures SameResult(InjectAll(t, [c, d] + rest, page), InjectAll(t, [d, c] + rest, page))
  {
    assert forall i :: 0 <= i < 2 ==> [c, d][i] == ([c, d] + rest)[i];
    InjectionsCommute(t, c, d, page);
    RunInTwo(t, [c, d], rest, page);
    RunInTwo(t, [d, c], rest, page);
  }

  function Without(cs: seq<Capture>, i: nat): (r: seq<Capture>)
    requires i < |cs|
    ensures |r| == |cs| - 1
    ensures forall j :: 0 <= j < |r| ==> r[j] == if j < i then cs[j] else cs[j + 1]
  {
    cs[..i] + cs[i + 1..]
  }

  lemma Cons(t: Table, c: Capture, cs: seq<Capture>, page: nat)
    requires page > 0 && Placeable(t, cs, page)
    requires c.data != [] && Fits(t, c, page)
    requires forall j :: 0 <= j < |cs| ==> Apart(c, cs[j], page)
    ensures Placeable(t, [c] + cs, page)
  {
    var ds := [c] + cs;
    forall i, j | 0 <= i < j < |ds|
      ensures Apart(ds[i], ds[j], page)
    {
      if i > 0 { assert Apart(cs[i - 1], cs[j - 1], page); }
    }
  }

  lemma Remove(t: Table, cs: seq<Capture>, i: nat, page: nat)
    requires page > 0 && i < |cs| && Placeable(t, cs, page)
    ensures Placeable(t, Without(cs, i), page)
    ensures forall j :: 0 <= j < |cs| - 1 ==> Apart(cs[i], Without(cs, i)[j], page)
  {
    var ds := Without(cs, i);
    forall j | 0 <= j < |ds|
      ensures Apart(cs[i], ds[j], page) && ds[j].data != [] && Fits(t, ds[j], page)
    {
      if j < i { assert Apart(cs[j], cs[i], page); } else { assert Apart(cs[i], cs[j + 1], page); }
    }
    forall j, k | 0 <= j < k < |ds|
      ensures Apart(ds[j], ds[k], page)
    {
      assert Apart(cs[if j < i then j else j + 1], cs[if k < i then k else k + 1], page);
    }
  }

  lemma PlaceableFront(t: Table, cs: seq<Capture>, i: nat, page: nat)
    requires page > 0 && i < |cs| && Placeable(t, cs, page)
    ensures Placeable(t, [cs[i]] + Without(cs, i), page)
  {
    Remove(t, cs, i, page);
    Cons(t, cs[i], Without(cs, i), page);
  }

  lemma SameAfterHead(t: Table, c: Capture, xs: seq<Capture>, ys: seq<Capture>, page: u64)
    requires var s := Inject(t, c, page);
             s.outcome.Ok? ==> SameResult(InjectAll(s.table, xs, page), InjectAll(s.table, ys, page))
    ensures SameResult(InjectAll(t, [c] + xs, page), InjectAll(t, [c] + ys, page))
  {
    assert ([c] + xs)[1..] == xs && ([c] + ys)[1..] == ys;
  }

  lemma FrontSequences(cs: seq<Capture>, i: nat)
    requires 0 < i < |cs|
    ensures var others := Without(cs[1..], i - 1);
            && [cs[i]] + Without(cs, i) == [cs[i], cs[0]] + others
            && [cs[0]] + ([cs[i]] + others) == [cs[0], cs[i]] + others
  {
  }

  lemma SwapWithHead(t: Table, cs: seq<Capture>, i: nat, page: u64)
    requires page > 0 && 0 < i < |cs| && Placeable(t, cs, page)
    ensures SameResult(InjectAll(t, [cs[0]] + ([cs[i]] + Without(cs[1..], i - 1)), page),
                       InjectAll(t, [cs[i]] + Without(cs, i), page))
  {
    PlaceableFront(t, cs, i, page);
    FrontSequences(cs, i);
    SwapInRun(t, cs[i], cs[0], Without(cs[1..], i - 1), page);
  }

  /** Moving one capture to the front of a run. */
  lemma {:induction false} BringToFront(t: Table, cs: seq<Capture>, i: nat, page: u64)
    requires page > 0 && i < |cs| && Placeable(t, cs, page)
    ensures SameResult(InjectAll(t, cs, page), InjectAll(t, [cs[i]] + Without(cs, i), page))
    decreases i
  {
    if i == 0 {
      assert cs == [cs[0]] + Without(cs, 0);
    } else {
      var rest := cs[1..];
      if Inject(t, cs[0], page).outcome.Ok? {
        StepPlaceable(t, cs, page);
        BringToFront(Inject(t, cs[0], page).table, rest, i - 1, page);
      }
      SameAfterHead(t, cs[0], rest, [cs[i]] + Without(rest, i - 1), page);
      assert cs == [cs[0]] + rest;
      SwapWithHead(t, cs, i, page);
    }
  }

  lemma WithoutOne(cs: seq<Capture>, i: nat)
    requires i < |cs|
    ensures multiset(Without(cs, i)) == multiset(cs) - multiset{cs[i]}
  {
    assert cs == cs[..i] + [cs[i]] + cs[i + 1..];
  }

  lemma WithoutFirst(cs: seq<Capture>)
    requires cs != []
    ensures Without(cs, 0) == cs[1..]
  {
  }

  lemma SameMembers(cs: seq<Capture>, ds: seq<Capture>, i: nat)
    requires cs != [] && i < |ds| && ds[i] == cs[0] && multiset(cs) == multiset(ds)
    ensures multiset(cs[1..]) == multiset(Without(ds, i))
  {
    hide Without;
    WithoutFirst(cs);
    WithoutOne(cs, 0);
    WithoutOne(ds, i);
  }

  lemma RestPlaceable(t: Table, cs: seq<Capture>, i: nat, page: u64)
    requires page > 0 && i < |cs| && Placeable(t, cs, page) && Inject(t, cs[i], page).outcome.Ok?
    ensures Placeable(Inject(t, cs[i], page).table, Without(cs, i), page)
  {
    hide Inject, Placeable;
    var front := [cs[i]] + Without(cs, i);
    PlaceableFront(t, cs, i, page);
    assert front[1..] == Without(cs, i) && front[0] == cs[i];
    StepPlaceable(t, front, page);
  }

  /** A run of page-disjoint captures that fit ends in the same table in every order. */
  lemma {:induction false} OrderIrrelevant(t: Table, cs: seq<Capture>, ds: seq<Capture>, page: u64)
    requires page > 0 && Placeable(t, cs, page) && multiset(cs) == multiset(ds)
    ensures SameResult(InjectAll(t, cs, page), InjectAll(t, ds, page))
    decreases |ds|
  {
    hide Inject, InjectAll, Placeable, Without;
    if ds == [] {
      assert |multiset(cs)| == 0;
    } else {
      assert ds[0] in multiset(cs);
      var i :| 0 <= i < |cs| && cs[i] == ds[0];
      var others := Without(cs, i);
      BringToFront(t, cs, i, page);
      SameMembers(ds, cs, i);
      if Inject(t, ds[0], page).outcome.Ok? {
        RestPlaceable(t, cs, i, page);
        OrderIrrelevant(Inject(t, ds[0], page).table, others, ds[1..], page);
      }
      SameAfterHead(t, ds[0], others, ds[1..], page);
      assert ds == [ds[0]] + ds[1..];
    }
  }

  // ---------- when a run succeeds ----------

  /** Whether a capture goes in does not depend on another one in the same mapping: the pieces
      keep the file positions of the whole. */
  lemma NestedOutcome(t: Table, c: Capture, d: Capture, page: u64)
    requires page > 0 && Placeable(t, [c, d], page) && SameOwner(t, c, d)
    requires Inject(t, c, page).outcome.Ok?
    ensures Inject(Inject(t, c, page).table, d, page).outcome.Ok? <==> Inject(t, d, page).outcome.Ok?
  {
    hide Inject, Placeable, WellFormed, SizeFits, Padded;
    var k := Owner(t, c.address);
    PlaceableSwap(t, c, d, page);
    SpanFacts(c, page);
    SpanFacts(d, page);
    OwnerHoldsPage(t, c, k, page);
    OwnerHoldsPage(t, d, k, page);
    SucceedsWhen(t, c, page);
    SucceedsWhen(t, d, page);
    if First(c, page) < First(d, page) {
      LowerThenUpper(t, c, d, page);
    } else {
      UpperThenLower(t, d, c, page);
    }
  }

  lemma StepOutcome(t: Table, c: Capture, d: Capture, page: u64)
    requires page > 0 && Placeable(t, [c, d], page) && Inject(t, c, page).outcome.Ok?
    ensures Inject(Inject(t, c, page).table, d, page).outcome.Ok? <==> Inject(t, d, page).outcome.Ok?
  {
    if SameOwner(t, c, d) {
      NestedOutcome(t, c, d, page);
    } else {
      SameOutcome(t, c, d, page);
    }
  }

  lemma PlaceablePair(t: Table, cs: seq<Capture>, i: nat, j: nat, page: nat)
    requires page > 0 && Placeable(t, cs, page) && i < j < |cs|
    ensures Placeable(t, [cs[i], cs[j]], page)
  {
    hide WellFormed, Fits;
    assert Apart(cs[i], cs[j], page);
  }

  /** A run of page-disjoint captures that fit succeeds exactly when each of them, alone, goes
      into the table the run starts from. */
  lemma {:induction false} RunSucceedsWhen(t: Table, cs: seq<Capture>, page: u64)
    requires page > 0 && Placeable(t, cs, page)
    ensures InjectAll(t, cs, page).outcome.Ok? <==>
            forall i :: 0 <= i < |cs| ==> Inject(t, cs[i], page).outcome.Ok?
    decreases |cs|
  {
    hide Inject, Placeable;
    if cs == [] || Inject(t, cs[0], page).outcome.Err? {
    } else {
      var t1 := Inject(t, cs[0], page).table;
      StepPlaceable(t, cs, page);
      RunSucceedsWhen(t1, cs[1..], page);
      forall i | 0 < i < |cs|
        ensures Inject(t1, cs[1..][i - 1], page).outcome.Ok? <==> Inject(t, cs[i], page).outcome.Ok?
      {
        PlaceablePair(t, cs, 0, i, page);
        StepOutcome(t, cs[0], cs[i], page);
      }
    }
  }
}
