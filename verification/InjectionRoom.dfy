/** When a run of injections leaves no mapping with more bytes than addresses. */
module InjectionRoom {
  import opened Bytes
  import opened Model
  import opened Mappings
  import opened InjectionStep
  import opened InjectionRun

  /** The bytes of a mapping end where it ends, and where the first page of each capture that
      splits it begins. */
  ghost predicate EndsBefore(t: Table, k: u64, cs: seq<Capture>, page: nat)
    requires page > 0 && k in t
  {
    && |t[k].data| <= t[k].end - k
    && forall i :: 0 <= i < |cs| && k < First(cs[i], page) < t[k].end ==> |t[k].data| <= First(cs[i], page) - k
  }

  ghost predicate BeginsAt(cs: seq<Capture>, k: u64, page: nat)
    requires page > 0
  {
    exists i :: 0 <= i < |cs| && First(cs[i], page) == k
  }

  /** A mapping is replaced from its start, or its bytes end in time. */
  ghost predicate Bounded(t: Table, k: u64, cs: seq<Capture>, page: nat)
    requires page > 0 && k in t
  {
    BeginsAt(cs, k, page) || EndsBefore(t, k, cs, page)
  }

  ghost predicate AllBounded(t: Table, cs: seq<Capture>, page: nat)
    requires page > 0
  {
    forall k :: k in t ==> Bounded(t, k, cs, page)
  }

  lemma BeginsInTail(cs: seq<Capture>, k: u64, page: nat)
    requires page > 0 && cs != []
    ensures BeginsAt(cs, k, page) <==> First(cs[0], page) == k || BeginsAt(cs[1..], k, page)
  {
    if i :| 0 < i < |cs| && First(cs[i], page) == k {
      assert First(cs[1..][i - 1], page) == k;
    }
    if i :| 0 <= i < |cs[1..]| && First(cs[1..][i], page) == k {
      assert First(cs[i + 1], page) == k;
    }
  }

  lemma EndsInTail(t: Table, t1: Table, k: u64, cs: seq<Capture>, page: nat)
    requires page > 0 && cs != [] && k in t && k in t1 && First(cs[0], page) != k && t1[k].data == t[k].data
    requires t1[k].end == if k < First(cs[0], page) < t[k].end then First(cs[0], page) else t[k].end
    ensures EndsBefore(t, k, cs, page) <==> EndsBefore(t1, k, cs[1..], page)
  {
    var F := First(cs[0], page);
    if EndsBefore(t, k, cs, page) {
      assert forall i :: 0 <= i < |cs[1..]| ==> cs[1..][i] == cs[i + 1];
    }
    if EndsBefore(t1, k, cs[1..], page) {
      forall i | 0 <= i < |cs| && k < First(cs[i], page) < t[k].end
        ensures |t[k].data| <= First(cs[i], page) - k
      {
        if i > 0 { assert cs[1..][i - 1] == cs[i]; }
      }
    }
  }

  /** What one injection does to the other mappings. */
  lemma StepOthers(t: Table, c: Capture, page: u64, k: u64)
    requires page > 0 && WellFormed(t, page) && c.data != [] && Fits(t, c, page)
    requires Inject(t, c, page).outcome.Ok? && k != First(c, page)
    ensures var t1, F := Inject(t, c, page).table, First(c, page);
            && (k in t1 <==> k in t)
            && (k in t ==> t1[k].data == t[k].data
                           && t1[k].end == if k < F < t[k].end then F else t[k].end)
  {
    hide Inject, Aligned, Padded;
    InjectShape(t, c, page);
    if Covered(t, c.address) {
      var o: u64 := Owner(t, c.address);
      assert Placed(o, t[o], page) && (k in t ==> Placed(k, t[k], page));
    }
  }

  lemma StepNew(t: Table, c: Capture, page: u64)
    requires page > 0 && WellFormed(t, page) && c.data != [] && Fits(t, c, page)
    requires Inject(t, c, page).outcome.Ok?
    ensures var t1, F := Inject(t, c, page).table, First(c, page);
            F in t1 && |t1[F].data| == Last(c, page) - F && Last(c, page) <= t1[F].end
  {
    hide Inject, Aligned, Padded;
    FitsGap(t, c, page);
    SpanFacts(c, page);
    InjectShape(t, c, page);
  }

  lemma StepBounded(t: Table, cs: seq<Capture>, page: u64)
    requires page > 0 && cs != [] && Placeable(t, cs, page) && Inject(t, cs[0], page).outcome.Ok?
    ensures AllBounded(Inject(t, cs[0], page).table, cs[1..], page) <==> AllBounded(t, cs, page)
  {
    hide Inject, WellFormed, Fits, EndsBefore, BeginsAt;
    var t1, F := Inject(t, cs[0], page).table, First(cs[0], page);
    forall k: u64 | k != F
      ensures k in t1 <==> k in t
      ensures k in t ==> (Bounded(t1, k, cs[1..], page) <==> Bounded(t, k, cs, page))
    {
      StepOthers(t, cs[0], page, k);
      BeginsInTail(cs, k, page);
      if k in t { EndsInTail(t, t1, k, cs, page); }
    }
    NewBounded(t, cs, page);
    BeginsInTail(cs, F, page);
  }

  lemma NewBounded(t: Table, cs: seq<Capture>, page: u64)
    requires page > 0 && cs != [] && Placeable(t, cs, page) && Inject(t, cs[0], page).outcome.Ok?
    ensures var t1, F := Inject(t, cs[0], page).table, First(cs[0], page);
            F in t1 && EndsBefore(t1, F, cs[1..], page)
  {
    hide Inject, WellFormed, Fits;
    var F := First(cs[0], page);
    StepNew(t, cs[0], page);
    forall i | 0 <= i < |cs[1..]| && F < First(cs[1..][i], page)
      ensures Last(cs[0], page) <= First(cs[1..][i], page)
    {
      assert Apart(cs[0], cs[i + 1], page);
      SpanFacts(cs[i + 1], page);
    }
  }

  /** A run leaves no mapping with more bytes than addresses exactly when the bytes of every
      mapping end before the captures that split it, or the mapping is replaced from its start. */
  lemma {:induction false} RunKeepsDataInside(t: Table, cs: seq<Capture>, page: u64)
    requires page > 0 && Placeable(t, cs, page) && InjectAll(t, cs, page).outcome.Ok?
    ensures DataInside(InjectAll(t, cs, page).table) <==> AllBounded(t, cs, page)
    decreases |cs|
  {
    hide Inject, Fits;
    if cs == [] {
      forall k | k in t
        ensures Bounded(t, k, cs, page) <==> |t[k].data| <= t[k].end - t[k].start
      {
        assert Placed(k, t[k], page);
      }
    } else {
      StepPlaceable(t, cs, page);
      StepBounded(t, cs, page);
      RunKeepsDataInside(Inject(t, cs[0], page).table, cs[1..], page);
    }
  }
}
