/** Whole runs of injections, and what they keep. */
module InjectionRun {
  import opened Bytes
  import opened Model
  import opened Mappings
  import opened InjectionStep

  /** Injects the captures in order and stops at the first failure. */
  function InjectAll(t: Table, cs: seq<Capture>, page: u64): Injection
    decreases |cs|
  {
    if cs == [] then Injection(t, Ok(()))
    else
      var s := Inject(t, cs[0], page);
      if s.outcome.Err? then s else InjectAll(s.table, cs[1..], page)
  }

  /** The captures share no page. */
  ghost predicate Apart(c: Capture, d: Capture, page: nat)
    requires page > 0
  {
    Last(c, page) <= First(d, page) || Last(d, page) <= First(c, page)
  }

  ghost predicate AllApart(cs: seq<Capture>, page: nat)
    requires page > 0
  {
    forall i, j :: 0 <= i < j < |cs| ==> Apart(cs[i], cs[j], page)
  }

  /** A well-formed table and non-empty, page-disjoint captures that fit it. */
  ghost predicate Placeable(t: Table, cs: seq<Capture>, page: nat)
    requires page > 0
  {
    && WellFormed(t, page)
    && (forall i :: 0 <= i < |cs| ==> cs[i].data != [] && Fits(t, cs[i], page))
    && AllApart(cs, page)
  }

  /** The byte a capture puts at an address of its pages: its own data, or padding. */
  function CaptureByte(c: Capture, a: int): byte {
    if c.address <= a < c.address + |c.data| then c.data[a - c.address] else 0
  }

  ghost predicate Spans(c: Capture, a: int, page: nat)
    requires page > 0
  {
    First(c, page) <= a < Last(c, page)
  }

  // ---------- one step ----------

  lemma FitsGap(t: Table, c: Capture, page: nat)
    requires page > 0 && WellFormed(t, page) && c.data != [] && Fits(t, c, page)
    ensures Covered(t, c.address) ==>
      var k := Owner(t, c.address); k <= First(c, page) && Last(c, page) <= t[k].end
    ensures !Covered(t, c.address) ==> NoneBegins(t, First(c, page), Last(c, page))
  {
    if Covered(t, c.address) {
      assert t[Owner(t, c.address)].Contains(c.address);
      OwnerHoldsPage(t, c, Owner(t, c.address), page);
    } else {
      forall k | k in t
        ensures !(First(c, page) <= k < Last(c, page))
      {
        assert Placed(k, t[k], page) && !t[k].Contains(c.address);
      }
    }
  }

  /** A capture goes into a mapping, or into a gap where no mapping begins in its pages. */
  ghost predicate Lands(t: Table, c: Capture, page: nat)
    requires page > 0
  {
    c.data != [] && (Covered(t, c.address) || NoneBegins(t, First(c, page), Last(c, page)))
  }

  lemma SplitLeavesRoom(t: Table, k: u64, at: u64, data: seq<byte>, d: Capture, page: nat)
    requires page > 0 && k in t && t[k].start == k && k <= at && at + |data| <= t[k].end
    requires Split(t, k, at, data).outcome.Ok?
    requires Last(d, page) <= at || at + |data| <= First(d, page)
    ensures Fits(t, d, page) ==> Fits(Split(t, k, at, data).table, d, page)
  {
    var t' := Split(t, k, at, data).table;
    assert forall j :: j in t' ==> j == at || j == k || (j in t && t'[j] == t[j]);
  }

  lemma SyntheticLeavesRoom(t: Table, start: u64, end: u64, data: seq<byte>, d: Capture, page: nat)
    requires page > 0 && start + |data| == end
    requires Last(d, page) <= start || end <= First(d, page)
    ensures Fits(t, d, page) ==> Fits(t[start := Synthetic(start, end, data)], d, page)
  {
  }

  lemma StepLeavesRoom(t: Table, c: Capture, d: Capture, page: u64)
    requires page > 0 && WellFormed(t, page) && c.data != [] && Fits(t, c, page)
    requires Apart(c, d, page) && Inject(t, c, page).outcome.Ok?
    ensures Fits(t, d, page) ==> Fits(Inject(t, c, page).table, d, page)
  {
    var F, L, bytes := First(c, page), Last(c, page), PaddedCapture(c, page);
    SpanFacts(c, page);
    FitsGap(t, c, page);
    InjectShape(t, c, page);
    if Covered(t, c.address) {
      var k := Owner(t, c.address);
      assert Placed(k, t[k], page);
      SplitLeavesRoom(t, k, F, bytes, d, page);
    } else {
      SyntheticLeavesRoom(t, F, L, bytes, d, page);
    }
  }

  lemma FitsLands(t: Table, c: Capture, page: nat)
    requires page > 0 && WellFormed(t, page) && c.data != [] && Fits(t, c, page)
    ensures Lands(t, c, page)
  {
    FitsGap(t, c, page);
  }

  lemma StepWellFormed(t: Table, c: Capture, page: u64)
    requires page > 0 && WellFormed(t, page) && Lands(t, c, page)
    requires Inject(t, c, page).outcome.Ok?
    ensures WellFormed(Inject(t, c, page).table, page)
  {
    InjectKeepsTable(t, c, page);
  }

  lemma StepPlaceable(t: Table, cs: seq<Capture>, page: u64)
    requires page > 0 && cs != [] && Placeable(t, cs, page)
    requires Inject(t, cs[0], page).outcome.Ok?
    ensures Placeable(Inject(t, cs[0], page).table, cs[1..], page)
  {
    var t' := Inject(t, cs[0], page).table;
    FitsLands(t, cs[0], page);
    StepWellFormed(t, cs[0], page);
    forall i | 0 <= i < |cs[1..]|
      ensures cs[1..][i].data != [] && Fits(t', cs[1..][i], page)
    {
      StepLeavesRoom(t, cs[0], cs[i + 1], page);
    }
  }

  // ---------- parts of a run ----------

  lemma {:induction false} RunInTwo(t: Table, xs: seq<Capture>, ys: seq<Capture>, page: u64)
    ensures var s := InjectAll(t, xs, page);
            InjectAll(t, xs + ys, page) == if s.outcome.Err? then s else InjectAll(s.table, ys, page)
    decreases |xs|
  {
    if xs == [] {
      assert xs + ys == ys;
    } else {
      assert (xs + ys)[1..] == xs[1..] + ys;
      if Inject(t, xs[0], page).outcome.Ok? {
        RunInTwo(Inject(t, xs[0], page).table, xs[1..], ys, page);
      }
    }
  }

  lemma PlaceablePrefix(t: Table, cs: seq<Capture>, n: nat, page: nat)
    requires page > 0 && n <= |cs| && Placeable(t, cs, page)
    ensures Placeable(t, cs[..n], page)
  {
  }

  lemma {:induction false} PlaceableRest(t: Table, xs: seq<Capture>, ys: seq<Capture>, page: u64)
    requires page > 0 && Placeable(t, xs + ys, page) && InjectAll(t, xs, page).outcome.Ok?
    ensures Placeable(InjectAll(t, xs, page).table, ys, page)
    decreases |xs|
  {
    hide Inject, Placeable;
    if xs == [] {
      assert xs + ys == ys;
    } else {
      assert (xs + ys)[1..] == xs[1..] + ys && (xs + ys)[0] == xs[0];
      StepPlaceable(t, xs + ys, page);
      PlaceableRest(Inject(t, xs[0], page).table, xs[1..], ys, page);
    }
  }

  lemma PrefixSucceeds(t: Table, cs: seq<Capture>, n: nat, page: u64)
    requires page > 0 && n <= |cs| && InjectAll(t, cs, page).outcome.Ok?
    ensures InjectAll(t, cs[..n], page).outcome.Ok?
  {
    assert cs == cs[..n] + cs[n..];
    RunInTwo(t, cs[..n], cs[n..], page);
  }

  /** The table after the first `n` captures. */
  function After(t: Table, cs: seq<Capture>, n: nat, page: u64): Table
    requires n <= |cs|
  {
    InjectAll(t, cs[..n], page).table
  }

  lemma AfterNone(t: Table, cs: seq<Capture>, page: u64)
    ensures After(t, cs, 0, page) == t
  {
  }

  lemma AfterAll(t: Table, cs: seq<Capture>, page: u64)
    ensures After(t, cs, |cs|, page) == InjectAll(t, cs, page).table
  {
    assert cs[..|cs|] == cs;
  }

  lemma AfterHead(t: Table, cs: seq<Capture>, n: nat, page: u64)
    requires 0 < n <= |cs| && Inject(t, cs[0], page).outcome.Ok?
    ensures After(t, cs, n, page) == After(Inject(t, cs[0], page).table, cs[1..], n - 1, page)
  {
    hide Inject;
    assert cs[..n][1..] == cs[1..][..n - 1];
  }

  // ---------- runs that keep the table disjoint ----------

  /** Every capture, at its turn, lands. */
  ghost predicate Reaches(t: Table, cs: seq<Capture>, page: u64)
    requires page > 0
    decreases |cs|
  {
    cs == []
    || (Lands(t, cs[0], page)
        && (Inject(t, cs[0], page).outcome.Ok? ==> Reaches(Inject(t, cs[0], page).table, cs[1..], page)))
  }

  /** Captures that fit and share no page land. */
  lemma {:induction false} PlaceableReaches(t: Table, cs: seq<Capture>, page: u64)
    requires page > 0 && Placeable(t, cs, page)
    ensures WellFormed(t, page) && Reaches(t, cs, page)
    decreases |cs|
  {
    hide Inject, WellFormed, Fits;
    if cs == [] {
    } else {
      FitsLands(t, cs[0], page);
      if Inject(t, cs[0], page).outcome.Ok? {
        StepPlaceable(t, cs, page);
        PlaceableReaches(Inject(t, cs[0], page).table, cs[1..], page);
      }
    }
  }

  /** A run keeps the table page-aligned, disjoint and keyed by start. */
  lemma {:induction false} RunKeepsTable(t: Table, cs: seq<Capture>, page: u64)
    requires page > 0 && WellFormed(t, page) && Reaches(t, cs, page) && InjectAll(t, cs, page).outcome.Ok?
    ensures WellFormed(InjectAll(t, cs, page).table, page)
    decreases |cs|
  {
    hide Inject, WellFormed;
    if cs == [] {
    } else {
      StepWellFormed(t, cs[0], page);
      RunKeepsTable(Inject(t, cs[0], page).table, cs[1..], page);
    }
  }

  /** The table before capture `n` is well formed, and capture `n` lands in it. */
  lemma {:induction false} ReachesAt(t: Table, cs: seq<Capture>, n: nat, page: u64)
    requires page > 0 && WellFormed(t, page) && Reaches(t, cs, page) && InjectAll(t, cs, page).outcome.Ok?
    requires n < |cs|
    ensures WellFormed(After(t, cs, n, page), page) && Lands(After(t, cs, n, page), cs[n], page)
    ensures Inject(After(t, cs, n, page), cs[n], page).outcome.Ok?
    ensures After(t, cs, n + 1, page) == Inject(After(t, cs, n, page), cs[n], page).table
    decreases n
  {
    hide Inject, WellFormed, Lands, After;
    AfterHead(t, cs, n + 1, page);
    if n == 0 {
      AfterNone(t, cs, page);
      AfterNone(Inject(t, cs[0], page).table, cs[1..], page);
    } else {
      AfterHead(t, cs, n, page);
      StepWellFormed(t, cs[0], page);
      ReachesAt(Inject(t, cs[0], page).table, cs[1..], n - 1, page);
    }
  }

  /** The table is well formed after every number of captures. */
  ghost predicate StaysWellFormed(t: Table, cs: seq<Capture>, page: u64)
    requires page > 0
  {
    forall n: nat :: n <= |cs| ==> WellFormed(After(t, cs, n, page), page)
  }

  lemma StaysInTail(t: Table, cs: seq<Capture>, page: u64)
    requires page > 0 && cs != [] && WellFormed(t, page) && Inject(t, cs[0], page).outcome.Ok?
    ensures StaysWellFormed(t, cs, page) <==> StaysWellFormed(Inject(t, cs[0], page).table, cs[1..], page)
    ensures StaysWellFormed(t, cs, page) ==> WellFormed(Inject(t, cs[0], page).table, page)
  {
    hide Inject, WellFormed, After;
    var t1 := Inject(t, cs[0], page).table;
    AfterNone(t, cs, page);
    AfterNone(t1, cs[1..], page);
    forall n: nat | n <= |cs[1..]|
      ensures After(t1, cs[1..], n, page) == After(t, cs, n + 1, page)
    {
      AfterHead(t, cs, n + 1, page);
    }
    if StaysWellFormed(t1, cs[1..], page) {
      forall n: nat | n <= |cs|
        ensures WellFormed(After(t, cs, n, page), page)
      {
        if n > 0 { assert WellFormed(After(t1, cs[1..], n - 1, page), page); }
      }
    }
  }

  /** Exactly the runs whose captures land keep the table well formed at every turn. */
  lemma {:induction false} ReachesExactlyWhen(t: Table, cs: seq<Capture>, page: u64)
    requires page > 0 && WellFormed(t, page) && InjectAll(t, cs, page).outcome.Ok?
    requires forall i :: 0 <= i < |cs| ==> cs[i].data != []
    ensures Reaches(t, cs, page) <==> StaysWellFormed(t, cs, page)
    decreases |cs|
  {
    hide Inject, WellFormed, StaysWellFormed;
    if cs == [] {
      StaysAlone(t, page);
    } else {
      InjectKeepsTable(t, cs[0], page);
      StaysInTail(t, cs, page);
      if Lands(t, cs[0], page) {
        ReachesExactlyWhen(Inject(t, cs[0], page).table, cs[1..], page);
      }
    }
  }

  lemma StaysAlone(t: Table, page: u64)
    requires page > 0 && WellFormed(t, page)
    ensures StaysWellFormed(t, [], page)
  {
    hide WellFormed;
  }

  // ---------- what backs an address ----------

  /** A run never changes the file position or the permissions behind a covered address. */
  lemma {:induction false} RunKeepsBacking(t: Table, cs: seq<Capture>, page: u64, a: int)
    requires page > 0 && WellFormed(t, page) && Reaches(t, cs, page) && InjectAll(t, cs, page).outcome.Ok?
    requires Covered(t, a)
    ensures BackingAt(InjectAll(t, cs, page).table, a) == BackingAt(t, a)
    decreases |cs|
  {
    hide Inject, WellFormed;
    if cs == [] {
    } else {
      StepWellFormed(t, cs[0], page);
      InjectBacking(t, cs[0], page, a);
      RunKeepsBacking(Inject(t, cs[0], page).table, cs[1..], page, a);
    }
  }

  /** Some capture, at its turn, lies in a gap, and `a` in its pages. */
  ghost predicate Fills(t: Table, cs: seq<Capture>, a: int, page: u64)
    requires page > 0
    decreases |cs|
  {
    cs != []
    && ((!Covered(t, cs[0].address) && Spans(cs[0], a, page)) || Fills(Inject(t, cs[0], page).table, cs[1..], a, page))
  }

  /** A run covers, with anonymous memory, exactly the pages that fill gaps. */
  lemma {:induction false} RunCovers(t: Table, cs: seq<Capture>, page: u64, a: int)
    requires page > 0 && WellFormed(t, page) && Reaches(t, cs, page) && InjectAll(t, cs, page).outcome.Ok?
    requires !Covered(t, a)
    ensures BackingAt(InjectAll(t, cs, page).table, a)
            == if Fills(t, cs, a, page) then Some(Anonymous(READ_WRITE)) else None
    decreases |cs|
  {
    hide Inject, WellFormed;
    if cs == [] {
    } else {
      var t1 := Inject(t, cs[0], page).table;
      StepWellFormed(t, cs[0], page);
      InjectBacking(t, cs[0], page, a);
      if !Covered(t, cs[0].address) && Spans(cs[0], a, page) {
        RunKeepsBacking(t1, cs[1..], page, a);
      } else {
        RunCovers(t1, cs[1..], page, a);
      }
    }
  }

  ghost predicate InSomeSpan(cs: seq<Capture>, a: int, page: nat)
    requires page > 0
  {
    exists i :: 0 <= i < |cs| && Spans(cs[i], a, page)
  }

  lemma InTail(cs: seq<Capture>, a: int, page: nat)
    requires page > 0 && cs != []
    ensures InSomeSpan(cs, a, page) <==> Spans(cs[0], a, page) || InSomeSpan(cs[1..], a, page)
  {
    if i :| 0 <= i < |cs[1..]| && Spans(cs[1..][i], a, page) {
      assert Spans(cs[i + 1], a, page);
    }
    if i :| 0 < i < |cs| && Spans(cs[i], a, page) {
      assert Spans(cs[1..][i - 1], a, page);
    }
  }

  /** Where captures fit and share no page, these are the pages of the captures that were not
      covered before. */
  lemma {:induction false} PlaceableFills(t: Table, cs: seq<Capture>, page: u64, a: int)
    requires page > 0 && Placeable(t, cs, page) && InjectAll(t, cs, page).outcome.Ok?
    requires !Covered(t, a)
    ensures Fills(t, cs, a, page) <==> InSomeSpan(cs, a, page)
    decreases |cs|
  {
    hide Inject, WellFormed, Fits;
    if cs == [] {
    } else {
      StepPlaceable(t, cs, page);
      FitsLands(t, cs[0], page);
      InjectBacking(t, cs[0], page, a);
      InTail(cs, a, page);
      if Spans(cs[0], a, page) {
        if Covered(t, cs[0].address) { SpanOwned(t, cs[0], page, a); }
      } else {
        PlaceableFills(Inject(t, cs[0], page).table, cs[1..], page, a);
      }
    }
  }

  /** A capture inside a mapping has all its pages covered. */
  lemma SpanOwned(t: Table, c: Capture, page: u64, a: int)
    requires page > 0 && WellFormed(t, page) && c.data != [] && Fits(t, c, page)
    requires Spans(c, a, page) && Covered(t, c.address)
    ensures Covered(t, a)
  {
    FitsGap(t, c, page);
    assert Placed(Owner(t, c.address), t[Owner(t, c.address)], page);
    assert t[Owner(t, c.address)].Contains(a);
  }
}
