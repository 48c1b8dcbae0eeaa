/** Close time resolutions and effective close times along a chain of ledgers. */
module LedgerTiming {

  const RESOLUTIONS: seq<nat> := [10, 20, 30, 60, 90, 120]
  const INCREASE_EVERY: nat := 8
  const DECREASE_EVERY: nat := 1

  /** The resolution of bin b. */
  function BinResolution(b: nat): nat
    requires b < 6
  {
    RESOLUTIONS[b]
  }

  lemma BinsDiffer(a: nat, b: nat)
    requires a < 6 && b < 6
    ensures BinResolution(a) == BinResolution(b) <==> a == b
  {
  }

  lemma NotInTable(resolution: nat)
    requires forall k | 0 <= k < 6 :: BinResolution(k) != resolution
    ensures resolution !in {10, 20, 30, 60, 90, 120}
  {
    assert BinResolution(0) == 10 && BinResolution(1) == 20 && BinResolution(2) == 30;
    assert BinResolution(3) == 60 && BinResolution(4) == 90 && BinResolution(5) == 120;
  }

  /** The bin that follows bin b. */
  function NextBin(b: nat, agree: bool, ledgerSeq: nat): (r: nat)
    requires b < 6
    ensures r < 6 && b <= r + 1 && r <= b + 1
  {
    if !agree then (if b == 5 then 5 else b + 1)
    else if ledgerSeq % INCREASE_EVERY == 0 && b > 0 then b - 1
    else b
  }

  method GetNextLedgerTimeResolution(previous: nat, previousAgree: bool, ledgerSeq: nat) returns (r: nat)
    requires ledgerSeq != 0
    ensures previous !in {10, 20, 30, 60, 90, 120} ==> r == previous
    ensures !previousAgree ==>
      && (previous == 10 ==> r == 20) && (previous == 20 ==> r == 30) && (previous == 30 ==> r == 60)
      && (previous == 60 ==> r == 90) && (previous in {90, 120} ==> r == 120)
    ensures previousAgree && ledgerSeq % 8 == 0 ==>
      && (previous in {10, 20} ==> r == 10) && (previous == 30 ==> r == 20) && (previous == 60 ==> r == 30)
      && (previous == 90 ==> r == 60) && (previous == 120 ==> r == 90)
    ensures previousAgree && ledgerSeq % 8 != 0 ==> r == previous
    ensures forall b | 0 <= b < 6 && BinResolution(b) == previous ::
              r == BinResolution(NextBin(b, previousAgree, ledgerSeq))
  {
    var iter := 0;
    while iter < |RESOLUTIONS| && RESOLUTIONS[iter] != previous
      invariant iter <= |RESOLUTIONS| && forall k | 0 <= k < iter :: BinResolution(k) != previous
    {
      iter := iter + 1;
    }
    if iter == |RESOLUTIONS| {
      NotInTable(previous);
      return previous;
    }
    forall b | 0 <= b < 6 && BinResolution(b) == previous ensures b == iter {
      BinsDiffer(b, iter);
    }
    if !previousAgree && ledgerSeq % DECREASE_EVERY == 0 {
      iter := iter + 1;
      if iter != |RESOLUTIONS| {
        return RESOLUTIONS[iter];
      }
    }
    if previousAgree && ledgerSeq % INCREASE_EVERY == 0 {
      var was := iter;
      iter := iter - 1;
      if was != 0 {
        return RESOLUTIONS[iter];
      }
    }
    return previous;
  }

  // ---- Rounding ----

  function RoundCloseTime(closeTime: nat, resolution: nat): (r: nat)
    requires resolution > 0
  {
    if closeTime == 0 then closeTime
    else
      var t := closeTime + resolution / 2;
      t - t % resolution
  }

  /** The nearest multiple of the resolution, the upper one when two are equally near. */
  lemma RoundsToNearest(t: nat, resolution: nat)
    requires resolution > 0
    ensures var r := RoundCloseTime(t, resolution);
            && r % resolution == 0
            && 2 * (r - t) <= resolution
            && 2 * (t - r) < resolution
  {
    if t != 0 {
      var u := t + resolution / 2;
      MultipleLeft(u, resolution);
    }
  }

  lemma MultipleLeft(u: nat, d: nat)
    requires d > 0
    ensures (u - u % d) % d == 0
  {
    var q := u / d;
    assert u - u % d == d * q;
    MultipleHasNoRemainder(d, q);
  }

  lemma MultipleHasNoRemainder(d: int, q: int)
    requires d > 0
    ensures (d * q) % d == 0
  {
    var z := d * q;
    var k := z / d;
    assert z == d * k + z % d;
    assert d * q - d * k == d * (q - k);
    if q - k > 0 { Scaled(d, q - k); } else if q - k < 0 { Scaled(d, k - q); }
  }

  lemma Scaled(d: int, k: int)
    requires d > 0 && k >= 1
    ensures d * k >= d
  {}

  lemma Apart(d: int, a: int, b: int)
    requires d > 0 && a < b
    ensures d * b >= d * a + d
  {
    Scaled(d, b - a);
    assert d * b - d * a == d * (b - a);
  }

  /** No other multiple meets the same bounds. */
  lemma NearestIsUnique(t: nat, resolution: nat, a: int, b: int)
    requires resolution > 0
    requires 2 * (resolution * a - t) <= resolution && 2 * (t - resolution * a) < resolution
    requires 2 * (resolution * b - t) <= resolution && 2 * (t - resolution * b) < resolution
    ensures a == b
  {
    if a < b {
      Apart(resolution, a, b);
    } else if b < a {
      Apart(resolution, b, a);
    }
  }

  /** Which window of one resolution, centred on a multiple, a time falls in. */
  function Window(t: nat, resolution: nat): int
    requires resolution > 0
  {
    (t + resolution / 2) / resolution
  }

  /** Proposals round to the same time exactly when they fall in the same window. */
  lemma SameWindow(t: nat, u: nat, resolution: nat)
    requires resolution > 0
    ensures RoundCloseTime(t, resolution) == RoundCloseTime(u, resolution) <==>
      Window(t, resolution) == Window(u, resolution)
  {
    WindowOf(t, resolution);
    WindowOf(u, resolution);
    var a, b := Window(t, resolution), Window(u, resolution);
    if a < b {
      Apart(resolution, a, b);
    } else if b < a {
      Apart(resolution, b, a);
    }
  }

  lemma WindowOf(t: nat, resolution: nat)
    requires resolution > 0
    ensures RoundCloseTime(t, resolution) == resolution * Window(t, resolution)
  {
    var u := t + resolution / 2;
    assert u == resolution * (u / resolution) + u % resolution;
    if t == 0 {
      assert u < resolution;
      SmallQuotient(u, resolution);
    }
  }

  lemma SmallQuotient(u: nat, d: nat)
    requires u < d
    ensures u / d == 0
  {}

  function EffCloseTime(closeTime: nat, resolution: nat, prior: nat): nat
    requires resolution > 0
  {
    if closeTime == 0 then closeTime
    else
      var rounded := RoundCloseTime(closeTime, resolution);
      if rounded < prior + 1 then prior + 1 else rounded
  }

  // ---- Chains ----

  /** A ledger: its sequence number, resolution bin, raw and effective close time, and whether
      consensus agreed on that time. */
  datatype Ledger = Ledger(ledgerSeq: nat, bin: nat, raw: nat, close: nat, agree: bool)

  ghost predicate IsChain(ledgers: seq<Ledger>) {
    && |ledgers| > 0
    && ledgers[0].bin < 6
    && forall i | 0 <= i < |ledgers| - 1 :: Follows(ledgers[i], ledgers[i + 1])
  }

  predicate Follows(p: Ledger, l: Ledger) {
    && l.ledgerSeq == p.ledgerSeq + 1
    && p.bin < 6
    && l.bin == NextBin(p.bin, p.agree, l.ledgerSeq)
    && l.close == EffCloseTime(l.raw, BinResolution(l.bin), p.close)
  }

  lemma {:induction false} ChainBins(ledgers: seq<Ledger>, n: nat)
    requires IsChain(ledgers) && n < |ledgers|
    ensures ledgers[n].bin < 6 && ledgers[n].ledgerSeq == ledgers[0].ledgerSeq + n
    decreases n
  {
    if n > 0 {
      ChainBins(ledgers, n - 1);
      assert Follows(ledgers[n - 1], ledgers[n]);
    }
  }

  /** Effective close times strictly increase along every chain whose raw close times are not zero. */
  lemma {:induction false} CloseTimesIncrease(ledgers: seq<Ledger>, i: nat, j: nat)
    requires IsChain(ledgers) && i < j < |ledgers|
    requires forall k | i < k <= j :: ledgers[k].raw != 0
    ensures ledgers[i].close < ledgers[j].close
    decreases j
  {
    assert Follows(ledgers[j - 1], ledgers[j]);
    if i < j - 1 {
      CloseTimesIncrease(ledgers, i, j - 1);
    }
  }

  /** The close time is the rounded one unless that does not come after the previous ledger; no raw time gives none. */
  lemma CloseTimeIsRounded(ledgers: seq<Ledger>, n: nat)
    requires IsChain(ledgers) && 0 < n < |ledgers|
    ensures ledgers[n].bin < 6 && (ledgers[n].raw == 0 ==> ledgers[n].close == 0)
    ensures var rounded := RoundCloseTime(ledgers[n].raw, BinResolution(ledgers[n].bin));
            ledgers[n].raw != 0 ==>
              if ledgers[n - 1].close < rounded then ledgers[n].close == rounded
              else ledgers[n].close == ledgers[n - 1].close + 1
  {
    assert Follows(ledgers[n - 1], ledgers[n]);
  }

  /** A close time comes after the previous one exactly when there is a raw time. */
  lemma CloseTimeIncreasesIff(ledgers: seq<Ledger>, n: nat)
    requires IsChain(ledgers) && 0 < n < |ledgers|
    ensures ledgers[n - 1].close < ledgers[n].close <==> ledgers[n].raw != 0
  {
    CloseTimeIsRounded(ledgers, n);
  }

  /** k disagreements in a row move k bins towards the coarsest. */
  lemma {:induction false} Disagreements(ledgers: seq<Ledger>, i: nat, k: nat)
    requires IsChain(ledgers) && i + k < |ledgers|
    requires forall j | i <= j < i + k :: !ledgers[j].agree
    ensures ledgers[i].bin < 6
    ensures ledgers[i + k].bin == if ledgers[i].bin + k < 5 then ledgers[i].bin + k else 5
    decreases k
  {
    ChainBins(ledgers, i);
    if k > 0 {
      Disagreements(ledgers, i, k - 1);
      assert Follows(ledgers[i + k - 1], ledgers[i + k]);
    }
  }

  /** Agreements in a row move one bin towards the finest for every multiple of eight passed. */
  lemma {:induction false} Agreements(ledgers: seq<Ledger>, i: nat, k: nat)
    requires IsChain(ledgers) && i + k < |ledgers|
    requires forall j | i <= j < i + k :: ledgers[j].agree
    ensures ledgers[i].bin < 6
    ensures var s := ledgers[i].ledgerSeq;
            var moves := (s + k) / 8 - s / 8;
            ledgers[i + k].bin == if ledgers[i].bin > moves then ledgers[i].bin - moves else 0
    decreases k
  {
    ChainBins(ledgers, i);
    ChainBins(ledgers, i + k);
    if k > 0 {
      Agreements(ledgers, i, k - 1);
      assert Follows(ledgers[i + k - 1], ledgers[i + k]);
    }
  }

  /** Five disagreements reach 120 seconds and forty agreements reach 10 seconds, from any bin. */
  lemma Extremes(ledgers: seq<Ledger>, i: nat, n: nat)
    requires IsChain(ledgers) && i < n < |ledgers|
    ensures ledgers[n].bin < 6
    ensures n >= i + 5 && (forall j | i <= j < n :: !ledgers[j].agree) ==> BinResolution(ledgers[n].bin) == 120
    ensures n >= i + 40 && (forall j | i <= j < n :: ledgers[j].agree) ==> BinResolution(ledgers[n].bin) == 10
  {
    ChainBins(ledgers, n);
    if forall j | i <= j < n :: !ledgers[j].agree {
      Disagreements(ledgers, i, n - i);
    } else if forall j | i <= j < n :: ledgers[j].agree {
      Agreements(ledgers, i, n - i);
    }
  }
}
