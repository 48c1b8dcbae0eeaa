/** The two algorithms on ordered ranges, with duplicates and an arbitrary strict weak order. */
module SortedRanges {

  ghost predicate StrictWeakOrder<T(!new)>(less: (T, T) -> bool) {
    && (forall x :: !less(x, x))
    && (forall x, y, z :: less(x, y) && less(y, z) ==> less(x, z))
    && (forall x, y, z :: Equiv(less, x, y) && Equiv(less, y, z) ==> Equiv(less, x, z))
  }

  predicate Equiv<T>(less: (T, T) -> bool, x: T, y: T) {
    !less(x, y) && !less(y, x)
  }

  lemma EquivTrans<T(!new)>(less: (T, T) -> bool, x: T, y: T, z: T)
    requires StrictWeakOrder(less) && Equiv(less, x, y)
    ensures Equiv(less, y, x)
    ensures Equiv(less, y, z) <==> Equiv(less, x, z)
    ensures Equiv(less, z, y) <==> Equiv(less, z, x)
  {
    assert Equiv(less, y, x);
    assert Equiv(less, z, y) ==> Equiv(less, z, x);
    assert Equiv(less, z, x) ==> Equiv(less, z, y);
  }

  lemma LessTrans<T(!new)>(less: (T, T) -> bool, x: T, y: T, z: T)
    requires StrictWeakOrder(less) && less(x, y) && !less(z, y)
    ensures less(x, z)
  {
    if !less(x, z) {
      if !less(y, z) { EquivTrans(less, z, y, x); }
    }
  }

  ghost predicate Ordered<T>(less: (T, T) -> bool, s: seq<T>) {
    forall i, j | 0 <= i < j < |s| :: !less(s[j], s[i])
  }

  /** How many of the first n elements of s are equivalent to x. */
  ghost function Count<T>(less: (T, T) -> bool, s: seq<T>, n: nat, x: T): nat
    requires n <= |s|
  {
    if n == 0 then 0 else Count(less, s, n - 1, x) + if Equiv(less, s[n - 1], x) then 1 else 0
  }

  lemma {:induction false} CountEquiv<T(!new)>(less: (T, T) -> bool, s: seq<T>, n: nat, x: T, y: T)
    requires StrictWeakOrder(less) && n <= |s| && Equiv(less, x, y)
    ensures Count(less, s, n, x) == Count(less, s, n, y)
  {
    if n > 0 {
      CountEquiv(less, s, n - 1, x, y);
      EquivTrans(less, x, y, s[n - 1]);
    }
  }

  lemma {:induction false} CountMono<T>(less: (T, T) -> bool, s: seq<T>, m: nat, n: nat, x: T)
    requires m <= n <= |s|
    ensures Count(less, s, m, x) <= Count(less, s, n, x)
    ensures (forall k | m <= k < n :: !Equiv(less, s[k], x)) <==> Count(less, s, m, x) == Count(less, s, n, x)
    decreases n - m
  {
    if m < n { CountMono(less, s, m, n - 1, x); }
  }

  // ---- removeIfIntersectOrMatch ----

  /** What survives: an element that does not match, once its equals in the second range are used up
      by earlier equals in the first. */
  ghost predicate Kept<T>(less: (T, T) -> bool, pred: T -> bool, s: seq<T>, t: seq<T>, p: nat)
    requires p < |s|
  {
    Count(less, t, |t|, s[p]) <= Count(less, s, p, s[p]) && !pred(s[p])
  }

  /** The surviving elements from position p on, in their original order. */
  ghost function Survivors<T>(less: (T, T) -> bool, pred: T -> bool, s: seq<T>, t: seq<T>, p: nat): seq<T>
    requires p <= |s|
    decreases |s| - p
  {
    if p == |s| then []
    else (if Kept(less, pred, s, t, p) then [s[p]] else []) + Survivors(less, pred, s, t, p + 1)
  }

  /** Of each class still to come, the first i and the first j elements hold equally many, or the
      second range has no more of it. */
  ghost predicate Balanced<T>(less: (T, T) -> bool, s: seq<T>, t: seq<T>, i: nat, j: nat)
    requires i <= |s| && j <= |t|
  {
    forall p | i <= p < |s| ::
      && Count(less, t, j, s[p]) <= Count(less, s, i, s[p])
      && (Count(less, s, i, s[p]) == Count(less, t, j, s[p]) || Count(less, t, j, s[p]) == Count(less, t, |t|, s[p]))
  }

  lemma AdvanceFirst<T(!new)>(less: (T, T) -> bool, s: seq<T>, t: seq<T>, i: nat, j: nat)
    requires StrictWeakOrder(less) && Ordered(less, t)
    requires i < |s| && j <= |t| && Balanced(less, s, t, i, j)
    requires j == |t| || less(s[i], t[j])
    ensures Balanced(less, s, t, i + 1, j)
    ensures Count(less, t, |t|, s[i]) <= Count(less, s, i, s[i])
  {
    forall k | j <= k < |t| ensures !Equiv(less, t[k], s[i]) {
      if k > j { LessTrans(less, s[i], t[j], t[k]); }
    }
    CountMono(less, t, j, |t|, s[i]);
    forall p | i + 1 <= p < |s| && Equiv(less, s[i], s[p])
      ensures Count(less, t, j, s[p]) == Count(less, t, |t|, s[p])
    {
      CountEquiv(less, t, j, s[i], s[p]);
      CountEquiv(less, t, |t|, s[i], s[p]);
    }
  }

  lemma AdvanceBoth<T(!new)>(less: (T, T) -> bool, s: seq<T>, t: seq<T>, i: nat, j: nat)
    requires StrictWeakOrder(less)
    requires i < |s| && j < |t| && Balanced(less, s, t, i, j) && Equiv(less, s[i], t[j])
    ensures Balanced(less, s, t, i + 1, j + 1)
    ensures Count(less, t, |t|, s[i]) > Count(less, s, i, s[i])
  {
    CountMono(less, t, j, |t|, s[i]);
    CountMono(less, t, j + 1, |t|, s[i]);
    forall p | i + 1 <= p < |s|
      ensures Equiv(less, s[i], s[p]) <==> Equiv(less, t[j], s[p])
    {
      EquivTrans(less, s[i], t[j], s[p]);
    }
    forall p | i + 1 <= p < |s| && Equiv(less, t[j], s[p])
      ensures Count(less, t, j, s[p]) < Count(less, t, |t|, s[p])
    {
      CountMono(less, t, j, |t|, s[p]);
    }
  }

  lemma AdvanceSecond<T(!new)>(less: (T, T) -> bool, s: seq<T>, t: seq<T>, i: nat, j: nat)
    requires StrictWeakOrder(less) && Ordered(less, s)
    requires i < |s| && j < |t| && Balanced(less, s, t, i, j) && less(t[j], s[i])
    ensures Balanced(less, s, t, i, j + 1)
  {
    forall p | i <= p < |s| ensures !Equiv(less, t[j], s[p]) {
      if p > i { LessTrans(less, t[j], s[i], s[p]); }
    }
  }

  lemma SurvivorsStep<T>(less: (T, T) -> bool, pred: T -> bool, s: seq<T>, t: seq<T>, i: nat, done: seq<T>)
    requires i < |s| && done + Survivors(less, pred, s, t, i) == Survivors(less, pred, s, t, 0)
    ensures (if Kept(less, pred, s, t, i) then done + [s[i]] else done) + Survivors(less, pred, s, t, i + 1)
            == Survivors(less, pred, s, t, 0)
  {
    hide Kept;
    var rest := Survivors(less, pred, s, t, i + 1);
    if Kept(less, pred, s, t, i) {
      assert done + [s[i]] + rest == done + ([s[i]] + rest);
    } else {
      assert [] + rest == rest;
    }
  }

  lemma SurvivorsEnd<T>(less: (T, T) -> bool, pred: T -> bool, s: seq<T>, t: seq<T>)
    ensures Survivors(less, pred, s, t, |s|) == []
  {}

  /** removeIfIntersectOrMatch on the whole of `a`: the survivors end up in front, and E is their number.
      What lies from E on is moved-from. */
  method RemoveIfIntersectOrMatch<T(!new)>(a: array<T>, t: seq<T>, pred: T -> bool, less: (T, T) -> bool)
    returns (e: nat)
    requires StrictWeakOrder(less) && Ordered(less, a[..]) && Ordered(less, t)
    modifies a
    ensures e <= a.Length && a[..e] == Survivors(less, pred, old(a[..]), t, 0)
  {
    ghost var s := a[..];
    var i, j := 0, 0;
    e := 0;
    assert Balanced(less, s, t, i, j);
    hide StrictWeakOrder, Ordered, Balanced, Count, Survivors;
    ghost var done := [];
    while i != a.Length
      invariant e <= i <= a.Length == |s| && j <= |t|
      invariant forall k | i <= k < |s| :: a[k] == s[k]
      invariant a[..e] == done && done + Survivors(less, pred, s, t, i) == Survivors(less, pred, s, t, 0)
      invariant Balanced(less, s, t, i, j)
      decreases |s| - i + |t| - j
    {
      if j == |t| || less(a[i], t[j]) {
        AdvanceFirst(less, s, t, i, j);
        SurvivorsStep(less, pred, s, t, i, done);
        if !pred(a[i]) {
          a[e] := a[i];
          e := e + 1;
          done := done + [s[i]];
        }
        i := i + 1;
      } else {
        if !less(t[j], a[i]) {
          AdvanceBoth(less, s, t, i, j);
          SurvivorsStep(less, pred, s, t, i, done);
          i := i + 1;
        } else {
          AdvanceSecond(less, s, t, i, j);
        }
        j := j + 1;
      }
    }
    SurvivorsEnd(less, pred, s, t);
  }

  /** How many survivors from position p on are equivalent to x, when nothing matches. */
  ghost function KeptCount<T>(less: (T, T) -> bool, s: seq<T>, t: seq<T>, p: nat, x: T): nat
    requires p <= |s|
  {
    var r := Survivors(less, (y: T) => false, s, t, p);
    Count(less, r, |r|, x)
  }

  lemma {:induction false} CountAppend<T>(less: (T, T) -> bool, a: seq<T>, b: seq<T>, n: nat, x: T)
    requires n <= |b|
    ensures Count(less, a + b, |a| + n, x) == Count(less, a, |a|, x) + Count(less, b, n, x)
    decreases n
  {
    if n == 0 {
      CountPrefix(less, a, a + b, |a|, x);
    } else {
      CountAppend(less, a, b, n - 1, x);
    }
  }

  lemma {:induction false} CountPrefix<T>(less: (T, T) -> bool, a: seq<T>, b: seq<T>, n: nat, x: T)
    requires n <= |a| && n <= |b| && a[..n] == b[..n]
    ensures Count(less, a, n, x) == Count(less, b, n, x)
  {
    if n > 0 {
      assert a[n - 1] == a[..n][n - 1] == b[..n][n - 1] == b[n - 1];
      assert a[..n - 1] == a[..n][..n - 1] == b[..n][..n - 1] == b[..n - 1];
      CountPrefix(less, a, b, n - 1, x);
    }
  }

  function Max(x: int, y: int): int { if x < y then y else x }

  lemma {:induction false} KeptCountFrom<T(!new)>(less: (T, T) -> bool, s: seq<T>, t: seq<T>, p: nat, x: T)
    requires StrictWeakOrder(less) && p <= |s|
    ensures var all, other := Count(less, s, |s|, x), Count(less, t, |t|, x);
            KeptCount(less, s, t, p, x) == all - Max(Count(less, s, p, x), if other < all then other else all)
    decreases |s| - p
  {
    hide StrictWeakOrder;
    CountMono(less, s, p, |s|, x);
    if p < |s| {
      KeptCountFrom(less, s, t, p + 1, x);
      CountMono(less, s, p + 1, |s|, x);
      var none := (y: T) => false;
      var head := if Kept(less, none, s, t, p) then [s[p]] else [];
      var rest := Survivors(less, none, s, t, p + 1);
      CountAppend(less, head, rest, |rest|, x);
      if Equiv(less, s[p], x) {
        CountEquiv(less, s, p, s[p], x);
        CountEquiv(less, t, |t|, s[p], x);
      }
    }
  }

  /** With no predicate the survivors are the multiset difference: of every class, as many as the first
      range has more than the second. */
  lemma MultisetDifference<T(!new)>(less: (T, T) -> bool, s: seq<T>, t: seq<T>, x: T)
    requires StrictWeakOrder(less)
    ensures KeptCount(less, s, t, 0, x) == Max(0, Count(less, s, |s|, x) - Count(less, t, |t|, x))
  {
    KeptCountFrom(less, s, t, 0, x);
  }

  /** The elements that do not match, in order. */
  function Unmatched<T>(pred: T -> bool, s: seq<T>): seq<T> {
    if s == [] then [] else (if pred(s[0]) then [] else [s[0]]) + Unmatched(pred, s[1..])
  }

  /** With a predicate, the survivors are those of the multiset difference that do not match. */
  lemma {:induction false} MatchesGoToo<T(!new)>(less: (T, T) -> bool, pred: T -> bool, s: seq<T>, t: seq<T>, p: nat)
    requires p <= |s|
    ensures Survivors(less, pred, s, t, p) == Unmatched(pred, Survivors(less, (y: T) => false, s, t, p))
    decreases |s| - p
  {
    if p < |s| {
      MatchesGoToo(less, pred, s, t, p + 1);
      var none := (y: T) => false;
      var d, rest := Survivors(less, none, s, t, p), Survivors(less, none, s, t, p + 1);
      if Kept(less, none, s, t, p) {
        assert d == [s[p]] + rest && d[1..] == rest;
      } else {
        assert d == rest;
      }
    }
  }

  /** The comment above the algorithm: all elements equivalent to some value of the second range go. */
  ghost predicate KeptAsDocumented<T>(less: (T, T) -> bool, pred: T -> bool, s: seq<T>, t: seq<T>, p: nat)
    requires p < |s|
  {
    (forall k | 0 <= k < |t| :: !Equiv(less, t[k], s[p])) && !pred(s[p])
  }

  ghost function DocumentedSurvivors<T>(less: (T, T) -> bool, pred: T -> bool, s: seq<T>, t: seq<T>, p: nat): seq<T>
    requires p <= |s|
    decreases |s| - p
  {
    if p == |s| then []
    else (if KeptAsDocumented(less, pred, s, t, p) then [s[p]] else []) + DocumentedSurvivors(less, pred, s, t, p + 1)
  }

  /** No unmatched element of the first range has as many earlier equals as the second range has equals. */
  ghost predicate EnoughPartners<T>(less: (T, T) -> bool, pred: T -> bool, s: seq<T>, t: seq<T>, p: nat)
    requires p <= |s|
  {
    forall q | p <= q < |s| && !pred(s[q]) && Count(less, t, |t|, s[q]) > 0 ::
      Count(less, s, q, s[q]) < Count(less, t, |t|, s[q])
  }

  /** The documented effect holds exactly when the duplicates in the first range have enough partners. */
  lemma {:induction false} DocumentedIff<T(!new)>(less: (T, T) -> bool, pred: T -> bool, s: seq<T>, t: seq<T>, p: nat)
    requires p <= |s|
    ensures |DocumentedSurvivors(less, pred, s, t, p)| <= |Survivors(less, pred, s, t, p)|
    ensures Survivors(less, pred, s, t, p) == DocumentedSurvivors(less, pred, s, t, p)
            <==> EnoughPartners(less, pred, s, t, p)
    decreases |s| - p
  {
    if p < |s| {
      DocumentedIff(less, pred, s, t, p + 1);
      CountMono(less, t, 0, |t|, s[p]);
      var r, d := Survivors(less, pred, s, t, p), DocumentedSurvivors(less, pred, s, t, p);
      var r1, d1 := Survivors(less, pred, s, t, p + 1), DocumentedSurvivors(less, pred, s, t, p + 1);
      if Kept(less, pred, s, t, p) && KeptAsDocumented(less, pred, s, t, p) {
        assert r[1..] == r1 && d[1..] == d1;
      } else if Kept(less, pred, s, t, p) {
        assert |r| == 1 + |r1| && d == d1;
      } else {
        assert r == r1 && d == d1;
      }
    }
  }

  /** When the first range is strictly increasing, the effect is the documented one. */
  lemma StrictlyIncreasing<T(!new)>(less: (T, T) -> bool, pred: T -> bool, s: seq<T>, t: seq<T>)
    requires StrictWeakOrder(less) && forall i, j | 0 <= i < j < |s| :: less(s[i], s[j])
    ensures Survivors(less, pred, s, t, 0) == DocumentedSurvivors(less, pred, s, t, 0)
  {
    forall q | 0 <= q < |s| ensures Count(less, s, q, s[q]) == 0 {
      CountMono(less, s, 0, q, s[q]);
    }
    DocumentedIff(less, pred, s, t, 0);
  }

  lemma DocumentedFails()
    ensures var less := (x: int, y: int) => x < y;
            Survivors(less, x => false, [1, 1], [1], 0) != DocumentedSurvivors(less, x => false, [1, 1], [1], 0)
  {
    var less := (x: int, y: int) => x < y;
    var s, t := [1, 1], [1];
    assert Count(less, s, 1, s[1]) == 1;
    assert Count(less, t, |t|, s[1]) == 1;
    DocumentedIff(less, x => false, s, t, 0);
    assert !EnoughPartners(less, x => false, s, t, 0);
  }

  // ---- generalizedSetIntersection ----

  /** The pairs acted on: the k-th equal on one side with the k-th equal on the other. */
  ghost predicate Partners<T>(less: (T, T) -> bool, s: seq<T>, t: seq<T>, p: nat, q: nat)
    requires p < |s| && q < |t|
  {
    Equiv(less, s[p], t[q]) && Count(less, s, p, s[p]) == Count(less, t, q, t[q])
  }

  /** Pairs that straddle the two positions are no partners; ahead, consumed equals are even. */
  ghost predicate InStep<T>(less: (T, T) -> bool, s: seq<T>, t: seq<T>, i: nat, j: nat)
    requires i <= |s| && j <= |t|
  {
    && (forall p, q | 0 <= p < |s| && 0 <= q < |t| && (p < i) != (q < j) :: !Partners(less, s, t, p, q))
    && (forall p, q | i <= p < |s| && j <= q < |t| && Equiv(less, s[p], t[q]) ::
          Count(less, s, i, s[p]) == Count(less, t, j, t[q]))
  }

  lemma SkipFirst<T(!new)>(less: (T, T) -> bool, s: seq<T>, t: seq<T>, i: nat, j: nat)
    requires StrictWeakOrder(less) && Ordered(less, t)
    requires i < |s| && j < |t| && InStep(less, s, t, i, j) && less(s[i], t[j])
    ensures InStep(less, s, t, i + 1, j)
  {
    forall q | j <= q < |t| ensures less(s[i], t[q]) {
      if q > j { LessTrans(less, s[i], t[j], t[q]); }
    }
    forall p, q | i + 1 <= p < |s| && j <= q < |t| && Equiv(less, s[p], t[q])
      ensures !Equiv(less, s[i], s[p])
    {
      EquivTrans(less, s[p], t[q], s[i]);
    }
  }

  lemma SkipSecond<T(!new)>(less: (T, T) -> bool, s: seq<T>, t: seq<T>, i: nat, j: nat)
    requires StrictWeakOrder(less) && Ordered(less, s)
    requires i < |s| && j < |t| && InStep(less, s, t, i, j) && less(t[j], s[i])
    ensures InStep(less, s, t, i, j + 1)
  {
    forall p | i <= p < |s| ensures less(t[j], s[p]) {
      if p > i { LessTrans(less, t[j], s[i], s[p]); }
    }
    forall p, q | i <= p < |s| && j + 1 <= q < |t| && Equiv(less, s[p], t[q])
      ensures !Equiv(less, t[j], t[q])
    {
      EquivTrans(less, s[p], t[q], t[j]);
    }
  }

  lemma MatchBoth<T(!new)>(less: (T, T) -> bool, s: seq<T>, t: seq<T>, i: nat, j: nat)
    requires StrictWeakOrder(less)
    requires i < |s| && j < |t| && InStep(less, s, t, i, j) && Equiv(less, s[i], t[j])
    ensures Partners(less, s, t, i, j)
    ensures InStep(less, s, t, i + 1, j + 1)
  {
    forall q | j < q < |t| ensures !Partners(less, s, t, i, q) {
      EquivTrans(less, s[i], t[j], t[q]);
      if Equiv(less, s[i], t[q]) {
        CountEquiv(less, t, j, t[j], t[q]);
        CountMono(less, t, j + 1, q, t[q]);
      }
    }
    forall p | i < p < |s| ensures !Partners(less, s, t, p, j) {
      EquivTrans(less, s[i], t[j], s[p]);
      if Equiv(less, s[p], t[j]) {
        CountEquiv(less, s, i, s[i], s[p]);
        CountMono(less, s, i + 1, p, s[p]);
      }
    }
    forall p, q | i + 1 <= p < |s| && j + 1 <= q < |t| && Equiv(less, s[p], t[q])
      ensures Count(less, s, i + 1, s[p]) == Count(less, t, j + 1, t[q])
    {
      EquivTrans(less, s[p], t[q], s[i]);
      EquivTrans(less, s[i], t[j], t[q]);
    }
  }

  /** generalizedSetIntersection: the calls of `action`, as the positions of its arguments, are exactly the
      partners, each once and in order. */
  method GeneralizedSetIntersection<T(!new)>(s: seq<T>, t: seq<T>, less: (T, T) -> bool) returns (log: seq<(nat, nat)>)
    requires StrictWeakOrder(less) && Ordered(less, s) && Ordered(less, t)
    ensures forall k | 0 <= k < |log| :: log[k].0 < |s| && log[k].1 < |t|
    ensures forall p, q | 0 <= p < |s| && 0 <= q < |t| :: (p, q) in log <==> Partners(less, s, t, p, q)
    ensures forall k, l | 0 <= k < l < |log| :: log[k].0 < log[l].0 && log[k].1 < log[l].1
  {
    var i, j := 0, 0;
    log := [];
    assert InStep(less, s, t, i, j);
    hide StrictWeakOrder, Ordered, Count, Equiv;
    while i != |s| && j != |t|
      invariant i <= |s| && j <= |t| && InStep(less, s, t, i, j)
      invariant forall k | 0 <= k < |log| :: log[k].0 < i && log[k].1 < j
      invariant forall p, q | 0 <= p < i && 0 <= q < j :: (p, q) in log <==> Partners(less, s, t, p, q)
      invariant forall k, l | 0 <= k < l < |log| :: log[k].0 < log[l].0 && log[k].1 < log[l].1
      decreases |s| - i + |t| - j
    {
      if less(s[i], t[j]) {
        SkipFirst(less, s, t, i, j);
        i := i + 1;
      } else {
        if !less(t[j], s[i]) {
          MatchBoth(less, s, t, i, j);
          log := log + [(i, j)];
          i := i + 1;
        } else {
          SkipSecond(less, s, t, i, j);
        }
        j := j + 1;
      }
    }
  }
}
