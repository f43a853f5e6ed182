/** Which captures survive a whole run, when they may share pages. */
module Survival {
  import opened Bytes
  import opened Model
  import opened Mappings
  import opened InjectionStep
  import opened InjectionRun
  import opened InjectionLimits

  /** The capture is seen whole as soon as it is injected: what runs past the mapping it starts
      in would have to be seen there already. */
  ghost predicate ShownAtOnce(t: Table, c: Capture) {
    forall j :: 0 <= j < |c.data| ==> ByteShownAtOnce(t, c, j)
  }

  ghost predicate ByteShownAtOnce(t: Table, c: Capture, j: nat)
    requires j < |c.data|
  {
    Covered(t, c.address) && t[Owner(t, c.address)].end <= c.address + j ==> ShowsByte(t, c, j)
  }

  lemma ByteAtOnceExactlyWhen(t: Table, c: Capture, page: u64, j: nat)
    requires page > 0 && WellFormed(t, page) && Lands(t, c, page) && Inject(t, c, page).outcome.Ok?
    requires j < |c.data|
    ensures ShowsByte(Inject(t, c, page).table, c, j) <==> ByteShownAtOnce(t, c, j)
  {
    hide Inject, WellFormed, Padded, PaddedCapture, ByteAt;
    InjectBytes(t, c, page, c.address + j);
    PaddedIs(c, page, c.address + j);
  }

  lemma AtOnceExactlyWhen(t: Table, c: Capture, page: u64)
    requires page > 0 && WellFormed(t, page) && Lands(t, c, page) && Inject(t, c, page).outcome.Ok?
    ensures Shows(Inject(t, c, page).table, c) <==> ShownAtOnce(t, c)
  {
    hide Inject, WellFormed, Lands, ShowsByte, ByteShownAtOnce;
    forall j | 0 <= j < |c.data|
      ensures ShowsByte(Inject(t, c, page).table, c, j) <==> ByteShownAtOnce(t, c, j)
    {
      ByteAtOnceExactlyWhen(t, c, page, j);
    }
  }

  /** Where `d` replaces a byte of `c`, it shows the same byte. */
  ghost predicate SparesAll(t: Table, d: Capture, page: nat, c: Capture)
    requires page > 0
  {
    forall j :: 0 <= j < |c.data| ==> Spares(t, d, page, c, j)
  }

  /** The first `n` captures are all seen whole. */
  ghost predicate FirstShown(t: Table, cs: seq<Capture>, n: nat)
    requires n <= |cs|
  {
    forall i :: 0 <= i < n ==> Shows(t, cs[i])
  }

  /** Capture `n` is seen at once, and spares all the captures before it. */
  ghost predicate SparesEarlier(t: Table, cs: seq<Capture>, n: nat, page: nat)
    requires page > 0 && n < |cs|
  {
    ShownAtOnce(t, cs[n]) && forall i :: 0 <= i < n ==> SparesAll(t, cs[n], page, cs[i])
  }

  lemma StepSurvives(t: Table, cs: seq<Capture>, n: nat, page: u64)
    requires page > 0 && n < |cs| && WellFormed(t, page) && Lands(t, cs[n], page)
    requires Inject(t, cs[n], page).outcome.Ok? && FirstShown(t, cs, n)
    ensures FirstShown(Inject(t, cs[n], page).table, cs, n + 1) <==> SparesEarlier(t, cs, n, page)
  {
    hide Inject, WellFormed, Shows, ShownAtOnce, Spares;
    AtOnceExactlyWhen(t, cs[n], page);
    forall i | 0 <= i < n
      ensures Shows(Inject(t, cs[n], page).table, cs[i]) <==> SparesAll(t, cs[n], page, cs[i])
    {
      SurvivesExactlyWhen(t, cs[i], cs[n], page);
    }
  }

  ghost predicate AllSurvive(t: Table, cs: seq<Capture>, m: nat, page: u64)
    requires m <= |cs|
  {
    forall n: nat :: n <= m ==> FirstShown(After(t, cs, n, page), cs, n)
  }

  ghost predicate AllSpare(t: Table, cs: seq<Capture>, m: nat, page: u64)
    requires page > 0 && m <= |cs|
  {
    forall n: nat :: n < m ==> SparesEarlier(After(t, cs, n, page), cs, n, page)
  }

  lemma {:induction false} SurviveUpTo(t: Table, cs: seq<Capture>, m: nat, page: u64)
    requires page > 0 && WellFormed(t, page) && Reaches(t, cs, page) && InjectAll(t, cs, page).outcome.Ok?
    requires m <= |cs|
    ensures AllSurvive(t, cs, m, page) <==> AllSpare(t, cs, m, page)
    decreases m
  {
    hide Inject, InjectAll, WellFormed, Reaches, Lands, After, FirstShown, SparesEarlier;
    if m == 0 {
      NoneShown(After(t, cs, 0, page), cs);
    } else {
      var n := m - 1;
      SurviveUpTo(t, cs, n, page);
      ReachesAt(t, cs, n, page);
      if AllSurvive(t, cs, n, page) {
        StepSurvives(After(t, cs, n, page), cs, n, page);
      }
    }
  }

  lemma NoneShown(t: Table, cs: seq<Capture>)
    ensures FirstShown(t, cs, 0)
  {
  }

  /** All captures are read back whole after every prefix of a run exactly when each, at its
      turn, stays in its mapping or repeats what is seen beyond it, and shows the same bytes
      wherever it replaces earlier captures. */
  lemma RunSurvivesExactlyWhen(t: Table, cs: seq<Capture>, page: u64)
    requires page > 0 && WellFormed(t, page) && Reaches(t, cs, page) && InjectAll(t, cs, page).outcome.Ok?
    ensures (forall n: nat :: n <= |cs| ==> FirstShown(After(t, cs, n, page), cs, n)) <==>
            (forall n: nat :: n < |cs| ==> SparesEarlier(After(t, cs, n, page), cs, n, page))
  {
    hide InjectAll, WellFormed, Reaches, After, FirstShown, SparesEarlier;
    SurviveUpTo(t, cs, |cs|, page);
  }
}
