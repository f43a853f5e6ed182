/** What one injection does to a page-aligned, disjoint mapping table. */
module InjectionStep {
  import opened Bytes
  import opened Model
  import opened Mappings

  // ---------- the table invariant ----------

  ghost predicate Placed(k: u64, m: Mapping, page: nat)
    requires page > 0
  {
    m.start == k && k < m.end && Aligned(k, page) && Aligned(m.end, page)
  }

  ghost predicate WellFormed(t: Table, page: nat)
    requires page > 0
  {
    && (forall k :: k in t ==> Placed(k, t[k], page))
    && (forall j, k :: j in t && k in t && j < k ==> t[j].end <= k)
  }

  /** No mapping holds more bytes than it has addresses. */
  ghost predicate DataInside(t: Table) {
    forall k :: k in t ==> |t[k].data| <= t[k].end - t[k].start
  }

  // ---------- the pages of a capture ----------

  function First(c: Capture, page: nat): (r: nat)
    requires page > 0
    ensures Aligned(r, page) && r <= c.address < r + page
  {
    Down(c.address, page)
  }

  function Last(c: Capture, page: nat): (r: nat)
    requires page > 0
    ensures Aligned(r, page) && c.address + |c.data| <= r
  {
    Up(c.address + |c.data|, page)
  }

  function PaddedCapture(c: Capture, page: nat): seq<byte>
    requires page > 0
  {
    Padded(c.address - First(c, page), c.data, page)
  }

  /** Every mapping holds all the pages of the capture or none of them. */
  ghost predicate Fits(t: Table, c: Capture, page: nat)
    requires page > 0
  {
    forall k :: k in t ==>
      (k <= First(c, page) && Last(c, page) <= t[k].end)
      || Last(c, page) <= k
      || t[k].end <= First(c, page)
  }

  lemma PageInside(k: nat, end: nat, a: nat, page: nat)
    requires page > 0 && Aligned(k, page) && Aligned(end, page)
    ensures k <= a < end ==> k <= Down(a, page) && Down(a, page) + page <= end
    ensures a < k ==> Down(a, page) + page <= k
    ensures end <= a ==> end <= Down(a, page)
  {
    var d := Down(a, page);
    if d < k { AlignedGap(d, k, page); }
    if d < end { AlignedGap(d, end, page); }
  }

  lemma SpanFacts(c: Capture, page: nat)
    requires page > 0 && c.data != []
    ensures First(c, page) + page <= Last(c, page)
    ensures |PaddedCapture(c, page)| == Last(c, page) - First(c, page)
  {
    AlignedGap(First(c, page), Last(c, page), page);
    PaddedFillsPages(c.address, c.data, page);
  }

  // ---------- what a reader of the table sees ----------

  /** The captured byte a mapping holds for one of its addresses. */
  function ByteOf(m: Mapping, a: int): Option<byte>
    requires m.Contains(a)
  {
    if a - m.start < |m.data| then Some(m.data[a - m.start]) else None
  }

  /** What backs an address: a position in a named file, or anonymous memory. */
  datatype Backing =
    | InFile(name: seq<byte>, position: int, access: Permissions)
    | Anonymous(access: Permissions)

  function BackingOf(m: Mapping, a: int): Backing
    requires m.Contains(a)
  {
    match m.filename
    case Some(name) => InFile(name, m.offset + (a - m.start), m.permissions)
    case None => Anonymous(m.permissions)
  }

  ghost predicate Covered(t: Table, a: int) {
    exists k :: k in t && t[k].Contains(a)
  }

  ghost function Owner(t: Table, a: int): (k: u64)
    requires Covered(t, a)
    ensures k in t && t[k].Contains(a)
  {
    var k :| k in t && t[k].Contains(a);
    k
  }

  /** The captured byte a debugger finds at `a`. */
  ghost function ByteAt(t: Table, a: int): Option<byte> {
    if Covered(t, a) then ByteOf(t[Owner(t, a)], a) else None
  }

  ghost function BackingAt(t: Table, a: int): Option<Backing> {
    if Covered(t, a) then Some(BackingOf(t[Owner(t, a)], a)) else None
  }

  /** In a disjoint table an address has one owner. */
  lemma OwnerIs(t: Table, k: u64, a: int, page: nat)
    requires page > 0 && WellFormed(t, page)
    requires k in t && t[k].Contains(a)
    ensures Covered(t, a) && Owner(t, a) == k
  {
    var o := Owner(t, a);
    assert Placed(k, t[k], page) && Placed(o, t[o], page);
  }

  lemma FindsOwner(t: Table, a: int, page: nat)
    requires page > 0 && WellFormed(t, page)
    ensures FindContaining(t, a) == if Covered(t, a) then Some(Owner(t, a)) else None
  {
    if Covered(t, a) {
      var k := FindContaining(t, a).value;
      OwnerIs(t, k, a, page);
    }
  }

  // ---------- the two shapes of a successful injection ----------

  lemma OwnerHoldsPage(t: Table, c: Capture, k: u64, page: nat)
    requires page > 0 && WellFormed(t, page)
    requires k in t && t[k].Contains(c.address)
    ensures k <= First(c, page) && First(c, page) + page <= t[k].end
  {
    assert Placed(k, t[k], page);
    PageInside(k, t[k].end, c.address, page);
  }

  lemma GapHoldsPage(t: Table, c: Capture, page: nat)
    requires page > 0 && WellFormed(t, page)
    requires FindContaining(t, c.address).None?
    ensures forall k :: k in t ==> t[k].end <= First(c, page) || First(c, page) + page <= k
  {
    forall k | k in t
      ensures t[k].end <= First(c, page) || First(c, page) + page <= k
    {
      assert Placed(k, t[k], page) && !t[k].Contains(c.address);
      PageInside(k, t[k].end, c.address, page);
    }
  }

  /** Inside a mapping, an injection splits the owner at the first page of the capture. */
  lemma InjectSplits(t: Table, c: Capture, page: u64, k: u64)
    requires page > 0 && FindContaining(t, c.address) == Some(k)
    requires Inject(t, c, page).outcome.Ok?
    ensures Inject(t, c, page) == Split(t, k, First(c, page), PaddedCapture(c, page))
  {
  }

  /** Outside every mapping, an injection adds the pages of the capture. */
  lemma InjectFills(t: Table, c: Capture, page: u64)
    requires page > 0 && FindContaining(t, c.address).None?
    requires Inject(t, c, page).outcome.Ok?
    ensures First(c, page) < Last(c, page) < U64_LIMIT
    ensures Inject(t, c, page).table ==
            t[First(c, page) := Synthetic(First(c, page), Last(c, page), PaddedCapture(c, page))]
  {
  }

  // ---------- splitting ----------

  lemma SplitWellFormed(t: Table, k: u64, at: u64, data: seq<byte>, page: nat)
    requires page > 0 && WellFormed(t, page)
    requires k in t && k <= at < t[k].end && Aligned(at, page)
    requires Split(t, k, at, data).outcome.Ok?
    ensures WellFormed(Split(t, k, at, data).table, page)
  {
    var t' := Split(t, k, at, data).table;
    assert Placed(k, t[k], page);
    forall j | j in t'
      ensures Placed(j, t'[j], page)
    {
      if j != at && j != k { assert Placed(j, t[j], page); }
    }
    forall i, j | i in t' && j in t' && i < j
      ensures t'[i].end <= j
    {
      assert i != at && i != k ==> i in t && t'[i] == t[i];
      assert j != at && j != k ==> j in t;
    }
  }

  /** The owners after a split: the new mapping from `at` on, the old owners elsewhere. */
  ghost predicate OwnersAfterSplit(t: Table, t': Table, k: u64, at: u64, a: int) {
    && k in t && at in t'
    && (Covered(t', a) <==> Covered(t, a))
    && (at <= a < t[k].end ==> Covered(t, a) && Owner(t, a) == k && Owner(t', a) == at)
    && (Covered(t, a) && !(at <= a < t[k].end) ==>
          var o := Owner(t, a); Owner(t', a) == o && t'[o] == t[o].(end := t'[o].end))
  }

  lemma SplitOwner(t: Table, k: u64, at: u64, data: seq<byte>, a: int, page: nat)
    requires page > 0 && WellFormed(t, page)
    requires k in t && k <= at < t[k].end && Aligned(at, page)
    requires Split(t, k, at, data).outcome.Ok?
    ensures OwnersAfterSplit(t, Split(t, k, at, data).table, k, at, a)
    ensures t[k].start == k
  {
    var t' := Split(t, k, at, data).table;
    SplitWellFormed(t, k, at, data, page);
    assert Placed(k, t[k], page);
    if at <= a < t[k].end {
      OwnerIs(t, k, a, page);
      OwnerIs(t', at, a, page);
    } else if Covered(t, a) {
      var o := Owner(t, a);
      assert Placed(o, t[o], page);
      OwnerIs(t', o, a, page);
    } else {
      SplitUncovered(t, k, at, data, a);
    }
  }

  lemma SplitUncovered(t: Table, k: u64, at: u64, data: seq<byte>, a: int)
    requires k in t && t[k].start == k && k <= at < t[k].end && !Covered(t, a)
    requires Split(t, k, at, data).outcome.Ok?
    ensures !Covered(Split(t, k, at, data).table, a)
  {
    var t' := Split(t, k, at, data).table;
    forall o | o in t'
      ensures !t'[o].Contains(a)
    {
      assert o != at && o != k ==> o in t && t'[o] == t[o];
      assert !t[k].Contains(a);
    }
  }

  lemma BytesFromOwners(t: Table, k: u64, at: u64, data: seq<byte>, a: int)
    requires k in t && t[k].start == k && k <= at && Split(t, k, at, data).outcome.Ok?
    requires OwnersAfterSplit(t, Split(t, k, at, data).table, k, at, a)
    ensures ByteAt(Split(t, k, at, data).table, a) ==
            if at <= a < t[k].end then (if a - at < |data| then Some(data[a - at]) else None)
            else ByteAt(t, a)
  {
  }

  lemma BackingFromOwners(t: Table, k: u64, at: u64, data: seq<byte>, a: int)
    requires k in t && t[k].start == k && k <= at && Split(t, k, at, data).outcome.Ok?
    requires OwnersAfterSplit(t, Split(t, k, at, data).table, k, at, a)
    ensures BackingAt(Split(t, k, at, data).table, a) == BackingAt(t, a)
  {
  }

  lemma SplitBytes(t: Table, k: u64, at: u64, data: seq<byte>, a: int, page: nat)
    requires page > 0 && WellFormed(t, page)
    requires k in t && k <= at < t[k].end && Aligned(at, page)
    requires Split(t, k, at, data).outcome.Ok?
    ensures ByteAt(Split(t, k, at, data).table, a) ==
            if at <= a < t[k].end then (if a - at < |data| then Some(data[a - at]) else None)
            else ByteAt(t, a)
  {
    SplitOwner(t, k, at, data, a, page);
    BytesFromOwners(t, k, at, data, a);
  }

  lemma SplitBacking(t: Table, k: u64, at: u64, data: seq<byte>, a: int, page: nat)
    requires page > 0 && WellFormed(t, page)
    requires k in t && k <= at < t[k].end && Aligned(at, page)
    requires Split(t, k, at, data).outcome.Ok?
    ensures BackingAt(Split(t, k, at, data).table, a) == BackingAt(t, a)
  {
    SplitOwner(t, k, at, data, a, page);
    BackingFromOwners(t, k, at, data, a);
  }

  // ---------- filling a gap ----------

  /** No mapping begins between two addresses. */
  ghost predicate NoneBegins(t: Table, from: int, to: int) {
    forall k :: k in t ==> !(from <= k < to)
  }

  lemma SyntheticWellFormed(t: Table, start: u64, end: u64, data: seq<byte>, page: nat)
    requires page > 0 && WellFormed(t, page) && start < end
    requires Aligned(start, page) && Aligned(end, page)
    requires forall k :: k in t ==> t[k].end <= start || start < k
    ensures WellFormed(t[start := Synthetic(start, end, data)], page) <==> NoneBegins(t, start, end)
  {
    var t' := t[start := Synthetic(start, end, data)];
    if NoneBegins(t, start, end) {
      forall j | j in t'
        ensures Placed(j, t'[j], page)
      {
        if j != start { assert Placed(j, t[j], page); }
      }
      forall i, j | i in t' && j in t' && i < j
        ensures t'[i].end <= j
      {
        assert i != start ==> i in t && Placed(i, t[i], page);
        assert j != start ==> j in t && Placed(j, t[j], page);
      }
    } else {
      var k :| k in t && start <= k < end;
      assert Placed(k, t[k], page);
      assert start in t' && k in t' && start < k && t'[start].end > k;
    }
  }

  lemma SyntheticOwner(t: Table, start: u64, end: u64, data: seq<byte>, a: int, page: nat)
    requires page > 0 && WellFormed(t, page) && start < end && start !in t
    requires WellFormed(t[start := Synthetic(start, end, data)], page)
    ensures var t' := t[start := Synthetic(start, end, data)];
            && (Covered(t', a) <==> start <= a < end || Covered(t, a))
            && (start <= a < end ==> !Covered(t, a) && Owner(t', a) == start)
            && (Covered(t, a) ==> Owner(t', a) == Owner(t, a))
  {
    var t' := t[start := Synthetic(start, end, data)];
    if start <= a < end {
      OwnerIs(t', start, a, page);
      forall o | o in t
        ensures !t[o].Contains(a)
      {
        assert o in t' && Placed(o, t'[o], page);
      }
    } else if Covered(t, a) {
      OwnerIs(t', Owner(t, a), a, page);
    } else {
      forall o | o in t'
        ensures !t'[o].Contains(a)
      {
        assert o != start ==> o in t && t'[o] == t[o];
      }
    }
  }

  lemma SyntheticBytes(t: Table, start: u64, end: u64, data: seq<byte>, a: int, page: nat)
    requires page > 0 && WellFormed(t, page) && start < end && start !in t
    requires WellFormed(t[start := Synthetic(start, end, data)], page)
    ensures ByteAt(t[start := Synthetic(start, end, data)], a) ==
            if start <= a < end then (if a - start < |data| then Some(data[a - start]) else None)
            else ByteAt(t, a)
  {
    SyntheticOwner(t, start, end, data, a, page);
  }

  lemma SplitDataInside(t: Table, k: u64, at: u64, data: seq<byte>, page: nat)
    requires page > 0 && WellFormed(t, page) && DataInside(t)
    requires k in t && k <= at < t[k].end
    requires Split(t, k, at, data).outcome.Ok?
    ensures DataInside(Split(t, k, at, data).table) <==>
            |data| <= t[k].end - at && (k == at || |t[k].data| <= at - k)
  {
    var t' := Split(t, k, at, data).table;
    assert Placed(k, t[k], page);
    assert at in t' && t'[at].data == data && t'[at].start == at && t'[at].end == t[k].end;
    assert k != at ==> k in t' && t'[k] == t[k].(end := at);
    forall j | j in t' && j != at && j != k
      ensures j in t && t'[j] == t[j]
    {
    }
  }

  // ---------- one successful injection ----------

  lemma InjectShape(t: Table, c: Capture, page: u64)
    requires page > 0 && WellFormed(t, page) && c.data != []
    requires Inject(t, c, page).outcome.Ok?
    ensures var F, L, bytes := First(c, page), Last(c, page), PaddedCapture(c, page);
            if Covered(t, c.address) then
              var k := Owner(t, c.address);
              k <= F && F + page <= t[k].end && Inject(t, c, page) == Split(t, k, F, bytes)
            else
              && F + page <= L < U64_LIMIT && F !in t
              && (forall k :: k in t ==> t[k].end <= F || F + page <= k)
              && Inject(t, c, page).table == t[F := Synthetic(F, L, bytes)]
  {
    SpanFacts(c, page);
    FindsOwner(t, c.address, page);
    if Covered(t, c.address) {
      OwnerHoldsPage(t, c, Owner(t, c.address), page);
      InjectSplits(t, c, page, Owner(t, c.address));
    } else {
      GapHoldsPage(t, c, page);
      InjectFills(t, c, page);
    }
  }

  /** An injection keeps the table page-aligned and disjoint, with every key the start of its
      mapping, exactly when it splits a mapping or its pages reach no later mapping. */
  lemma InjectKeepsTable(t: Table, c: Capture, page: u64)
    requires page > 0 && WellFormed(t, page) && c.data != []
    requires Inject(t, c, page).outcome.Ok?
    ensures WellFormed(Inject(t, c, page).table, page) <==>
            Covered(t, c.address) || NoneBegins(t, First(c, page), Last(c, page))
  {
    hide Inject, Split, WellFormed, Padded;
    var F, L, bytes := First(c, page), Last(c, page), PaddedCapture(c, page);
    InjectShape(t, c, page);
    if Covered(t, c.address) {
      SplitWellFormed(t, Owner(t, c.address), F, bytes, page);
    } else {
      SyntheticWellFormed(t, F, L, bytes, page);
    }
  }

  /** An injection leaves no mapping with more bytes than addresses exactly when its pages
      end inside the mapping that it splits and that mapping has no bytes from there on. */
  lemma InjectKeepsDataInside(t: Table, c: Capture, page: u64)
    requires page > 0 && WellFormed(t, page) && DataInside(t) && c.data != []
    requires Inject(t, c, page).outcome.Ok?
    ensures DataInside(Inject(t, c, page).table) <==>
            (Covered(t, c.address) ==>
              var k := Owner(t, c.address);
              && Last(c, page) <= t[k].end
              && (k == First(c, page) || k + |t[k].data| <= First(c, page)))
  {
    var F, L, bytes := First(c, page), Last(c, page), PaddedCapture(c, page);
    var t' := Inject(t, c, page).table;
    SpanFacts(c, page);
    InjectShape(t, c, page);
    if Covered(t, c.address) {
      SplitDataInside(t, Owner(t, c.address), F, bytes, page);
    } else {
      assert forall j :: j in t' && j != F ==> j in t && t'[j] == t[j];
    }
  }

  /** Every byte seen after an injection.  A split replaces all that its owner showed from the
      first page of the capture to the end of the owner; nothing else changes. */
  lemma InjectBytes(t: Table, c: Capture, page: u64, a: int)
    requires page > 0 && WellFormed(t, page) && c.data != []
    requires Inject(t, c, page).outcome.Ok?
    requires Covered(t, c.address) || NoneBegins(t, First(c, page), Last(c, page))
    ensures var F, bytes := First(c, page), PaddedCapture(c, page);
            var end := if Covered(t, c.address) then t[Owner(t, c.address)].end else Last(c, page);
            ByteAt(Inject(t, c, page).table, a) ==
            if F <= a < end then (if a - F < |bytes| then Some(bytes[a - F]) else None)
            else ByteAt(t, a)
  {
    hide Inject, Split, WellFormed, Padded;
    var F, L, bytes := First(c, page), Last(c, page), PaddedCapture(c, page);
    InjectShape(t, c, page);
    if Covered(t, c.address) {
      SplitBytes(t, Owner(t, c.address), F, bytes, a, page);
    } else {
      SyntheticWellFormed(t, F, L, bytes, page);
      SyntheticBytes(t, F, L, bytes, a, page);
    }
  }

  /** Splitting never changes what backs an address or its permissions; filling a gap backs
      exactly the pages of the capture with anonymous memory. */
  lemma InjectBacking(t: Table, c: Capture, page: u64, a: int)
    requires page > 0 && WellFormed(t, page) && c.data != []
    requires Inject(t, c, page).outcome.Ok?
    requires Covered(t, c.address) || NoneBegins(t, First(c, page), Last(c, page))
    ensures BackingAt(Inject(t, c, page).table, a) ==
            if !Covered(t, c.address) && First(c, page) <= a < Last(c, page)
            then Some(Anonymous(READ_WRITE)) else BackingAt(t, a)
    ensures !Covered(t, c.address) && First(c, page) <= a < Last(c, page) ==> !Covered(t, a)
  {
    hide Inject, Split, WellFormed, Padded;
    var F, L, bytes := First(c, page), Last(c, page), PaddedCapture(c, page);
    InjectShape(t, c, page);
    if Covered(t, c.address) {
      SplitBacking(t, Owner(t, c.address), F, bytes, a, page);
    } else {
      SyntheticWellFormed(t, F, L, bytes, page);
      SyntheticOwner(t, F, L, bytes, a, page);
    }
  }

  /** A synthetic mapping is filled exactly: its bytes are as many as its addresses, whole
      pages, with the capture at its own addresses and zeros around it. */
  lemma SyntheticIsFilled(t: Table, c: Capture, page: u64)
    requires page > 0 && WellFormed(t, page) && c.data != [] && !Covered(t, c.address)
    requires Inject(t, c, page).outcome.Ok?
    ensures var t' := Inject(t, c, page).table;
            && First(c, page) in t'
            && var m := t'[First(c, page)];
               && |m.data| == m.end - m.start && Aligned(|m.data|, page)
               && m.start <= c.address && c.address + |c.data| <= m.end
               && forall i :: 0 <= i < |m.data| ==>
                    m.data[i] == if c.address <= m.start + i < c.address + |c.data|
                                 then c.data[m.start + i - c.address] else 0
  {
    hide Inject, WellFormed;
    SpanFacts(c, page);
    InjectShape(t, c, page);
    AlignedSum(First(c, page), Last(c, page) - First(c, page), page);
  }
}
