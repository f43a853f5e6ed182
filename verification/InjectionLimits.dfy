/** Where injection stops meeting its promises, and exactly when it meets them. */
module InjectionLimits {
  import opened Bytes
  import opened Model
  import opened Mappings
  import opened InjectionStep
  import opened InjectionRun
  import opened InjectionSeen
  import opened InjectionOrder

  // ---------- an empty table ----------

  /** On an empty table a capture goes in exactly when it has a page to go to and its sizes
      fit: without bytes, at a page boundary, it has none. */
  lemma EmptyTableAccepts(c: Capture, page: u64)
    ensures Inject(map[], c, page).outcome.Ok? <==>
      && page > 0
      && Up(c.address - First(c, page) + |c.data|, page) < U64_LIMIT
      && Last(c, page) < U64_LIMIT
      && (c.data != [] || c.address != First(c, page))
  {
    hide Padded;
    if page > 0 {
      var F, L := First(c, page), Last(c, page);
      if c.data == [] && c.address == F {
        AlignedBetween(c.address, F, page);
      } else {
        assert F < L;
      }
    }
  }

  /** So a capture without bytes at address 0 is refused. */
  lemma EmptyCaptureRefused()
    ensures Inject(map[], Capture(0, []), 4096).outcome == Err(InvalidAddressRange)
  {
    hide Padded;
    AlignedBetween(0, 0, 4096);
    assert Down(0, 4096) == 0 && Up(0, 4096) == 0;
  }

  // ---------- failures ----------

  /** A failed injection leaves the table as it was, except when the file offset of the new
      mapping does not fit: its owner has then already been shortened. */
  lemma FailureShortens(t: Table, c: Capture, page: u64)
    requires page > 0 && WellFormed(t, page) && c.data != [] && Inject(t, c, page).outcome.Err?
    ensures var t', F := Inject(t, c, page).table, First(c, page);
            if SizeFits(c, page) && Covered(t, c.address) then
              var k := Owner(t, c.address);
              && !OffsetFits(t[k], k, F)
              && k < F < t[k].end && t' == t[k := t[k].(end := F)] && t' != t
            else
              t' == t
  {
    hide Padded, FindContaining, WellFormed;
    SucceedsWhen(t, c, page);
    FindsOwner(t, c.address, page);
    SpanFacts(c, page);
    if Covered(t, c.address) {
      OwnerHoldsPage(t, c, Owner(t, c.address), page);
    }
  }

  // ---------- two captures on one page ----------

  /** Byte `j` of a capture is seen at its address. */
  ghost predicate ShowsByte(t: Table, c: Capture, j: nat)
    requires j < |c.data|
  {
    ByteAt(t, c.address + j) == Some(c.data[j])
  }

  ghost predicate Shows(t: Table, c: Capture) {
    forall j :: 0 <= j < |c.data| ==> ShowsByte(t, c, j)
  }

  /** An injection replaces what was seen from the first page of the capture to the end of the
      mapping it splits, or of its own pages in a gap. */
  ghost predicate Replaces(t: Table, d: Capture, page: nat, a: int)
    requires page > 0
  {
    First(d, page) <= a < if Covered(t, d.address) then t[Owner(t, d.address)].end else Last(d, page)
  }

  /** Where `d` replaces byte `j` of `c`, it shows the same byte. */
  ghost predicate Spares(t: Table, d: Capture, page: nat, c: Capture, j: nat)
    requires page > 0 && j < |c.data|
  {
    var a := c.address + j;
    Replaces(t, d, page, a) ==> a < Last(d, page) && CaptureByte(d, a) == c.data[j]
  }

  lemma PaddedIs(c: Capture, page: nat, a: int)
    requires page > 0 && c.data != []
    ensures First(c, page) <= a < First(c, page) + |PaddedCapture(c, page)| ==>
      PaddedCapture(c, page)[a - First(c, page)] == CaptureByte(c, a)
    ensures |PaddedCapture(c, page)| == Last(c, page) - First(c, page)
  {
    hide Padded;
    SpanFacts(c, page);
  }

  lemma ByteSurvivesExactlyWhen(t: Table, c: Capture, d: Capture, page: u64, j: nat)
    requires page > 0 && WellFormed(t, page) && d.data != [] && j < |c.data| && ShowsByte(t, c, j)
    requires Inject(t, d, page).outcome.Ok?
    requires Covered(t, d.address) || NoneBegins(t, First(d, page), Last(d, page))
    ensures ShowsByte(Inject(t, d, page).table, c, j) <==> Spares(t, d, page, c, j)
  {
    hide Inject, WellFormed, Padded, PaddedCapture, ByteAt;
    InjectBytes(t, d, page, c.address + j);
    PaddedIs(d, page, c.address + j);
  }

  /** An earlier capture survives a later one exactly when the later one shows the same byte
      wherever it replaces a byte of the earlier one. */
  lemma SurvivesExactlyWhen(t: Table, c: Capture, d: Capture, page: u64)
    requires page > 0 && WellFormed(t, page) && d.data != [] && Shows(t, c)
    requires Inject(t, d, page).outcome.Ok?
    requires Covered(t, d.address) || NoneBegins(t, First(d, page), Last(d, page))
    ensures Shows(Inject(t, d, page).table, c) <==> forall j :: 0 <= j < |c.data| ==> Spares(t, d, page, c, j)
  {
    hide Inject, WellFormed, ShowsByte, Spares;
    forall j | 0 <= j < |c.data|
      ensures ShowsByte(Inject(t, d, page).table, c, j) <==> Spares(t, d, page, c, j)
    {
      ByteSurvivesExactlyWhen(t, c, d, page, j);
    }
  }

  lemma EmptyIsWellFormed()
    ensures WellFormed(map[], 4096) && forall a :: !Covered(map[], a)
  {
  }

  lemma FirstPage(a: nat, n: nat)
    requires 4096 <= a && 0 < n && a + n <= 8192
    ensures Down(a, 4096) == 4096 && Up(a + n, 4096) == 8192
  {
    AlignedBetween(a, 4096, 4096);
    AlignedBetween(a + n, 8192, 4096);
  }

  /** Two stacks that share a page: after the second, the first byte of the first reads 0. */
  lemma SharedPageLosesBytes()
    ensures var run := InjectAll(map[], [Capture(4096, [1]), Capture(4097, [2])], 4096);
            run.outcome.Ok? && ByteAt(run.table, 4096) == Some(0)
  {
    hide Padded, FindContaining, WellFormed, ByteAt;
    var c, d := Capture(4096, [1]), Capture(4097, [2]);
    var t0: Table := map[];
    var t1 := t0[4096 := Synthetic(4096, 8192, PaddedCapture(c, 4096))];
    EmptyIsWellFormed();
    FirstPage(4096, 1);
    FirstPage(4097, 1);
    SharedFirst(c);
    SharedSecond(t1, d);
    assert [c, d][1..] == [d] && [d][1..] == [];
    assert InjectAll(t0, [c, d], 4096) == InjectAll(t1, [d], 4096);
  }

  lemma SharedFirst(c: Capture)
    requires c == Capture(4096, [1])
    ensures Inject(map[], c, 4096).outcome.Ok?
    ensures Inject(map[], c, 4096).table == map[4096 := Synthetic(4096, 8192, PaddedCapture(c, 4096))]
    ensures WellFormed(Inject(map[], c, 4096).table, 4096)
  {
    hide Padded, FindContaining, WellFormed;
    EmptyIsWellFormed();
    FirstPage(4096, 1);
    AlignedBetween(1, 4096, 4096);
    EmptyTableAccepts(c, 4096);
    InjectShape(map[], c, 4096);
    InjectKeepsTable(map[], c, 4096);
  }

  lemma SharedSecond(t: Table, d: Capture)
    requires d == Capture(4097, [2]) && WellFormed(t, 4096) && 4096 in t && t[4096].start == 4096 && t[4096].end == 8192
    requires t[4096].filename.None?
    ensures Inject(t, d, 4096).outcome.Ok? && ByteAt(Inject(t, d, 4096).table, 4096) == Some(0)
  {
    hide Padded, FindContaining, WellFormed, ByteAt;
    FirstPage(4097, 1);
    OwnerIs(t, 4096, 4097, 4096);
    FindsOwner(t, 4097, 4096);
    AlignedBetween(2, 4096, 4096);
    InjectBytes(t, d, 4096, 4096);
    PaddedIs(d, 4096, 4096);
  }

  // ---------- captures that do not fit ----------

  /** The two pages of two bytes around the address 8192. */
  lemma StraddlePages(c: Capture)
    requires c == Capture(8191, [1, 2])
    ensures First(c, 4096) == 4096 && Last(c, 4096) == 12288 && SizeFits(c, 4096)
  {
    AlignedBetween(8191, 4096, 4096);
    AlignedBetween(8193, 12288, 4096);
    AlignedBetween(4097, 8192, 4096);
  }

  lemma OneMappingWellFormed(m: Mapping)
    requires m.start < m.end && Aligned(m.start, 4096) && Aligned(m.end, 4096) && m.data == []
    ensures WellFormed(map[m.start := m], 4096) && DataInside(map[m.start := m])
  {
  }

  /** A capture that runs past the mapping it starts in leaves more bytes than addresses. */
  lemma PastItsMapping(t: Table, c: Capture)
    requires t == map[4096 := Synthetic(4096, 8192, [])] && c == Capture(8191, [1, 2])
    ensures WellFormed(t, 4096) && DataInside(t)
    ensures Inject(t, c, 4096).outcome.Ok? && !DataInside(Inject(t, c, 4096).table)
  {
    hide Inject, WellFormed, DataInside, First, Last, SizeFits;
    StraddlePages(c);
    OneMappingWellFormed(Synthetic(4096, 8192, []));
    OwnerIs(t, 4096, 8191, 4096);
    SucceedsWhen(t, c, 4096);
    InjectKeepsDataInside(t, c, 4096);
  }

  /** A capture in the middle of a mapping full of bytes: the part below keeps all its bytes, and
      the part above loses them. */
  lemma InTheMiddle(t: Table, data: seq<byte>, c: Capture)
    requires |data| == 12288 && t == map[4096 := Synthetic(4096, 16384, data)] && c == Capture(8192, [1])
    ensures Placeable(t, [c], 4096) && DataInside(t) && Inject(t, c, 4096).outcome.Ok?
    ensures !DataInside(Inject(t, c, 4096).table)
    ensures ByteAt(t, 12288) == Some(data[8192]) && ByteAt(Inject(t, c, 4096).table, 12288) == None
  {
    hide Inject, Padded, FindContaining, Up, Down, Aligned, First, Last;
    MiddlePages(c);
    assert WellFormed(t, 4096);
    OwnerIs(t, 4096, 8192, 4096);
    OwnerIs(t, 4096, 12288, 4096);
    SucceedsWhen(t, c, 4096);
    InjectKeepsDataInside(t, c, 4096);
    StepOutside(t, c, 4096, 12288);
  }

  lemma MiddlePages(c: Capture)
    requires c == Capture(8192, [1])
    ensures Aligned(4096, 4096) && Aligned(16384, 4096)
    ensures First(c, 4096) == 8192 && Last(c, 4096) == 12288 && SizeFits(c, 4096)
  {
    ThreePages();
    PageAt(c, 4096, 8192);
    AlignedBetween(1, 4096, 4096);
  }

  /** A capture in a gap that runs into the next mapping leaves overlapping mappings. */
  lemma IntoTheNext(t: Table, c: Capture)
    requires t == map[8192 := Synthetic(8192, 12288, [])] && c == Capture(8191, [1, 2])
    ensures WellFormed(t, 4096) && Inject(t, c, 4096).outcome.Ok? && !WellFormed(Inject(t, c, 4096).table, 4096)
  {
    hide Inject, WellFormed, First, Last, SizeFits;
    StraddlePages(c);
    OneMappingWellFormed(Synthetic(8192, 12288, []));
    SucceedsWhen(t, c, 4096);
    InjectKeepsTable(t, c, 4096);
    assert 8192 in t;
  }

  /** The file offset of the new mapping does not fit: the injection fails, and the mapping has
      lost its second page. */
  lemma ShortenedByFailure(t: Table, m: Mapping)
    requires m == Mapping(4096, 12288, 0xFFFF_FFFF_FFFF_FFFF, READ_WRITE, Some([47]), []) && t == map[4096 := m]
    ensures WellFormed(t, 4096)
    ensures Inject(t, Capture(8192, [1]), 4096) == Injection(map[4096 := m.(end := 8192)], Err(IntegerOverflow))
  {
    hide WellFormed, Padded, FindContaining, Up, Down, Aligned;
    var c := Capture(8192, [1]);
    assert Aligned(4096, 4096) && Aligned(8192, 4096) && Aligned(12288, 4096) by { ThreePages(); }
    PageAt(c, 4096, 8192);
    AlignedBetween(1, 4096, 4096);
    OneMappingWellFormed(m);
    OwnerIs(t, 4096, 8192, 4096);
    FindsOwner(t, 8192, 4096);
  }

  lemma ThreePages()
    ensures Aligned(4096, 4096) && Aligned(8192, 4096) && Aligned(12288, 4096)
  {
  }

  // ---------- a run that meets the conditions ----------

  lemma PageAt(c: Capture, page: nat, at: nat)
    requires page > 0 && Aligned(at, page) && c.data != []
    requires at <= c.address && c.address + |c.data| <= at + page
    ensures First(c, page) == at && Last(c, page) == at + page
  {
    AlignedSum(at, page, page);
    AlignedBetween(c.address, at, page);
    AlignedBetween(c.address + |c.data|, at + page, page);
  }

  /** One capture inside a file mapping and one in the gap above it meet the conditions on a
      run, and the run succeeds. */
  lemma PlaceableRunExists(t: Table, cs: seq<Capture>)
    requires t == map[4096 := Mapping(4096, 12288, 0, READ_WRITE, Some([47]), [])]
    requires cs == [Capture(8197, [1]), Capture(12288, [2])]
    ensures Placeable(t, cs, 4096) && InjectAll(t, cs, 4096).outcome.Ok?
  {
    hide Inject, InjectAll, Padded, FindContaining, Up, Down;
    assert Aligned(8192, 4096) && Aligned(12288, 4096);
    PageAt(cs[0], 4096, 8192);
    PageAt(cs[1], 4096, 12288);
    AlignedBetween(6, 4096, 4096);
    AlignedBetween(1, 4096, 4096);
    OwnerIs(t, 4096, 8197, 4096);
    SucceedsWhen(t, cs[0], 4096);
    SucceedsWhen(t, cs[1], 4096);
    RunSucceedsWhen(t, cs, 4096);
  }
}
