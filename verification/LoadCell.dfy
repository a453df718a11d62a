/** The truncating moving average of the load cell (HX711.cpp). */
module LoadCell {

  const WINDOW: nat := 8
  const TARE_COUNT := 30

  /** C's integer division: the quotient is truncated towards zero. */
  function Quot(a: int, n: int): int
    requires n > 0
  {
    if a >= 0 then a / n else -((-a) / n)
  }

  /** The statics `total` and `ucAvrCount`, and the average, tare and offset fields. */
  datatype Cell = Cell(total: int, count: nat, average: int, tareCount: nat, tareDone: bool, offset: int)

  const FRESH := Cell(0, 0, 0, 0, false, 0)

  /** One sample through `averageing`. */
  function Sample(c: Cell, v: int): Cell {
    var total := if c.count < WINDOW then c.total + v else c.total - c.average + v;
    var count := if c.count < WINDOW then c.count + 1 else c.count;
    var average := Quot(total, count);
    if c.tareCount > TARE_COUNT && !c.tareDone then Cell(total, count, average, 0, true, average)
    else Cell(total, count, average, (c.tareCount + 1) % 0x1_0000, c.tareDone, c.offset)
  }

  function Samples(c: Cell, vs: seq<int>): Cell {
    if vs == [] then c else Sample(Samples(c, vs[..|vs| - 1]), vs[|vs| - 1])
  }

  /** `resetHX711` clears the fields but not the statics. */
  function Reset(c: Cell): Cell { c.(average := 0, tareCount := 0, tareDone := false, offset := 0) }

  predicate AllBetween(vs: seq<int>, lo: int, hi: int) { forall i :: 0 <= i < |vs| ==> lo <= vs[i] <= hi }

  // ---------------------------------------------------------------- bounds

  /** A total that n samples between the bounds could have. */
  predicate Weighs(n: nat, total: int, lo: int, hi: int) { n * lo <= total <= n * hi }

  lemma QuotBounds(a: int, n: int, lo: int, hi: int)
    requires n > 0 && Weighs(n, a, lo, hi)
    ensures lo <= Quot(a, n) <= hi
  {
    var q := Quot(a, n);
    if a >= 0 {
      assert n * q <= a < n * (q + 1);
      Scale(n, lo, q + 1);
      Scale(n, q, hi + 1);
    } else {
      assert n * (q - 1) < a <= n * q;
      Scale(n, lo - 1, q);
      Scale(n, q - 1, hi);
    }
  }

  /** Comparison of multiples. */
  lemma Scale(n: int, x: int, y: int)
    requires n > 0 && n * x < n * y
    ensures x < y
  {
  }

  /** Taking the average out of eight terms leaves seven terms' worth. */
  lemma SevenLeft(total: int, lo: int, hi: int)
    requires Weighs(8, total, lo, hi)
    ensures Weighs(7, total - Quot(total, 8), lo, hi)
  {
  }

  /** The total always is that many samples' worth, and the average belongs to it. */
  predicate Sound(c: Cell, lo: int, hi: int) {
    && c.count <= WINDOW && Weighs(c.count, c.total, lo, hi)
    && (c.count > 0 ==> c.average == Quot(c.total, c.count))
  }

  lemma SampleSound(c: Cell, v: int, lo: int, hi: int)
    requires Sound(c, lo, hi) && lo <= v <= hi
    ensures Sound(Sample(c, v), lo, hi) && lo <= Sample(c, v).average <= hi
  {
    var r := Sample(c, v);
    if c.count < WINDOW {
      OneMore(c.count, c.total, v, lo, hi);
    } else {
      SevenLeft(c.total, lo, hi);
      OneMore(7, c.total - c.average, v, lo, hi);
    }
    assert r.average == Quot(r.total, r.count);
    QuotBounds(r.total, r.count, lo, hi);
  }

  lemma OneMore(n: nat, total: int, v: int, lo: int, hi: int)
    requires Weighs(n, total, lo, hi) && lo <= v <= hi
    ensures Weighs(n + 1, total + v, lo, hi)
  {
    assert (n + 1) * lo == n * lo + lo && (n + 1) * hi == n * hi + hi;
  }

  lemma {:induction false} RunSound(vs: seq<int>, lo: int, hi: int)
    requires AllBetween(vs, lo, hi)
    ensures Sound(Samples(FRESH, vs), lo, hi)
    decreases |vs|
  {
    if vs != [] {
      var n := |vs| - 1;
      RunSound(vs[..n], lo, hi);
      SampleSound(Samples(FRESH, vs[..n]), vs[n], lo, hi);
    }
  }

  /** If all samples lie between two bounds, so does every average, despite the truncation. */
  lemma AverageBounded(vs: seq<int>, lo: int, hi: int)
    requires vs != [] && AllBetween(vs, lo, hi)
    ensures lo <= Samples(FRESH, vs).average <= hi
  {
    var n := |vs| - 1;
    RunSound(vs[..n], lo, hi);
    SampleSound(Samples(FRESH, vs[..n]), vs[n], lo, hi);
  }

  // ---------------------------------------------------------------- convergence

  function Distance(c: Cell, v: int): nat {
    if c.total >= 8 * v then c.total - 8 * v else 8 * v - c.total
  }

  function Constant(c: Cell, v: int, k: nat): Cell {
    if k == 0 then c else Sample(Constant(c, v, k - 1), v)
  }

  predicate Warm(c: Cell) { c.count == WINDOW && c.average == Quot(c.total, WINDOW) }

  /** Under a constant input the total never moves away, and comes nearer until the average is right. */
  lemma Nearer(c: Cell, v: int)
    requires Warm(c)
    ensures Warm(Sample(c, v))
    ensures c.average == v ==> Sample(c, v).average == v && Sample(c, v).total == c.total
    ensures c.average != v ==> Distance(Sample(c, v), v) < Distance(c, v)
  {
  }

  lemma {:induction false} Approaches(c: Cell, v: int, k: nat)
    requires Warm(c)
    ensures Warm(Constant(c, v, k))
    ensures Constant(c, v, k).average == v || Distance(Constant(c, v, k), v) + k <= Distance(c, v)
    decreases k
  {
    if k > 0 {
      Approaches(c, v, k - 1);
      Nearer(Constant(c, v, k - 1), v);
    }
  }

  /** After warm-up, a constant input is reached within |total - 8v| calls and kept from then on. */
  lemma Converges(c: Cell, v: int, k: nat)
    requires Warm(c) && k >= Distance(c, v)
    ensures Constant(c, v, k).average == v
  {
    Approaches(c, v, k);
    ZeroDistance(Constant(c, v, k), v);
  }

  lemma ZeroDistance(c: Cell, v: int)
    requires Warm(c)
    ensures Distance(c, v) == 0 ==> c.average == v
  {
  }

  lemma {:induction false} WarmAfter(vs: seq<int>)
    ensures var c := Samples(FRESH, vs);
            c.count == (if |vs| < WINDOW then |vs| else WINDOW) && (c.count > 0 ==> c.average == Quot(c.total, c.count))
    decreases |vs|
  {
    if vs != [] {
      WarmAfter(vs[..|vs| - 1]);
    }
  }

  // ---------------------------------------------------------------- warm-up and tare

  /** The quotient is truncated: what is left over is smaller than the divisor and has the sign of the dividend. */
  lemma QuotTruncates(a: int, n: int)
    requires n > 0
    ensures var r := a - n * Quot(a, n); if a >= 0 then 0 <= r < n else -n < r <= 0
  {
  }

  function SumOf(vs: seq<int>): int { if vs == [] then 0 else SumOf(vs[..|vs| - 1]) + vs[|vs| - 1] }

  /** Up to eight samples the average is their mean, truncated. */
  lemma {:induction false} WarmUpMean(vs: seq<int>)
    requires |vs| <= 8
    ensures var c := Samples(FRESH, vs);
            c.total == SumOf(vs) && c.count == |vs| && (vs != [] ==> c.average == Quot(SumOf(vs), |vs|))
    decreases |vs|
  {
    if vs != [] {
      WarmUpMean(vs[..|vs| - 1]);
    }
  }

  /** The 32nd sample after power-up or a reset fixes the offset at its average, for good. */
  lemma {:induction false} TareFollows(c: Cell, vs: seq<int>)
    requires c.tareCount == 0 && !c.tareDone
    ensures var q := Samples(c, vs);
            if |vs| < 32 then !q.tareDone && q.offset == c.offset && q.tareCount == |vs|
            else q.tareDone && q.offset == Samples(c, vs[..32]).average && q.tareCount == (|vs| - 32) % 0x1_0000
    decreases |vs|
  {
    if vs != [] {
      var n := |vs| - 1;
      TareFollows(c, vs[..n]);
      if n >= 32 {
        assert vs[..n][..32] == vs[..32];
        NextTare(n - 32);
      } else if n == 31 {
        assert vs[..32] == vs;
      }
    }
  }

  /** A reset lets the tare run once more. */
  lemma ResetTares(c: Cell, vs: seq<int>)
    ensures var q := Samples(Reset(c), vs);
            if |vs| < 32 then !q.tareDone && q.offset == 0 && q.tareCount == |vs|
            else q.tareDone && q.offset == Samples(Reset(c), vs[..32]).average
  {
    TareFollows(Reset(c), vs);
  }

  lemma NextTare(n: nat)
    ensures (n % 0x1_0000 + 1) % 0x1_0000 == (n + 1) % 0x1_0000
  {
  }

  // ---------------------------------------------------------------- reset

  datatype Call = Value(v: int) | ResetCall

  function Apply(c: Cell, e: Call): Cell {
    match e
    case Value(v) => Sample(c, v)
    case ResetCall => Reset(c)
  }

  function Calls(c: Cell, es: seq<Call>): Cell {
    if es == [] then c else Apply(Calls(c, es[..|es| - 1]), es[|es| - 1])
  }

  function ValueCount(es: seq<Call>): nat {
    if es == [] then 0 else ValueCount(es[..|es| - 1]) + if es[|es| - 1].Value? then 1 else 0
  }

  /** The resets that come after at least eight samples. */
  function LateResets(es: seq<Call>): nat {
    if es == [] then 0
    else
      var a := es[..|es| - 1];
      LateResets(a) + if es[|es| - 1].ResetCall? && ValueCount(a) >= WINDOW then 1 else 0
  }

  predicate ValuesBetween(es: seq<Call>, lo: int, hi: int) {
    forall i :: 0 <= i < |es| && es[i].Value? ==> lo <= es[i].v <= hi
  }

  /** How far beyond eight samples' worth the total may have drifted after so many resets. */
  predicate Drifted(total: int, lo: int, hi: int, resets: nat) {
    8 * lo + (if lo < 0 then resets * lo else 0) <= total <= 8 * hi + (if hi > 0 then resets * hi else 0)
  }

  /** A reset forgets the average, so the sample after it is added and nothing taken out. */
  predicate Pending(c: Cell, resets: nat) { c.average == 0 && resets > 0 }

  predicate Bounded(c: Cell, es: seq<Call>, lo: int, hi: int) {
    && c.count == (if ValueCount(es) < WINDOW then ValueCount(es) else WINDOW)
    && (c.count < WINDOW ==> Weighs(c.count, c.total, lo, hi))
    && (c.count == WINDOW ==>
          || (c.average == Quot(c.total, WINDOW) && Drifted(c.total, lo, hi, LateResets(es)))
          || (Pending(c, LateResets(es)) && Drifted(c.total, lo, hi, LateResets(es) - 1)))
  }

  /** With so many resets the truncation still hides what they have added. */
  predicate Hidden(resets: nat, lo: int, hi: int) { resets * lo >= -7 && resets * hi <= 7 }

  lemma HiddenLess(r: nat, q: nat, lo: int, hi: int)
    requires Hidden(r, lo, hi) && q <= r
    ensures Hidden(q, lo, hi)
  {
    if q < r {
      HiddenLess(r - 1, q, lo, hi) by {
        assert (r - 1) * lo == r * lo - lo && (r - 1) * hi == r * hi - hi;
        Signs(r, lo);
        Signs(r, hi);
      }
    }
  }

  lemma Signs(r: nat, x: int)
    ensures x >= 0 ==> r * x >= 0
    ensures x <= 0 ==> r * x <= 0
  {
  }

  lemma DriftGrows(total: int, v: int, lo: int, hi: int, r: nat)
    requires Drifted(total, lo, hi, r) && lo <= v <= hi
    ensures Drifted(total + v, lo, hi, r + 1) && Drifted(total, lo, hi, r + 1)
  {
    assert (r + 1) * lo == r * lo + lo && (r + 1) * hi == r * hi + hi;
  }

  /** While the drift is hidden, the average is within the bounds, and the next sample adds no drift. */
  lemma DriftStays(total: int, v: int, lo: int, hi: int, r: nat)
    requires Drifted(total, lo, hi, r) && Hidden(r, lo, hi) && lo <= v <= hi
    ensures lo <= Quot(total, WINDOW) <= hi
    ensures Drifted(total - Quot(total, WINDOW) + v, lo, hi, r)
  {
    Signs(r, lo);
    Signs(r, hi);
    DriftStaysBelow(total, v, hi, if hi > 0 then r * hi else 0);
    DriftStaysAbove(total, v, lo, if lo < 0 then r * lo else 0);
  }

  lemma DriftStaysBelow(total: int, v: int, hi: int, e: int)
    requires total <= 8 * hi + e && 0 <= e <= 7 && v <= hi && (hi <= 0 ==> e == 0)
    ensures Quot(total, 8) <= hi && total - Quot(total, 8) + v <= 8 * hi + e
  {
  }

  lemma DriftStaysAbove(total: int, v: int, lo: int, e: int)
    requires total >= 8 * lo + e && -7 <= e <= 0 && lo <= v && (lo >= 0 ==> e == 0)
    ensures Quot(total, 8) >= lo && total - Quot(total, 8) + v >= 8 * lo + e
  {
  }

  lemma CallBounded(c: Cell, es: seq<Call>, e: Call, lo: int, hi: int)
    requires lo <= hi && Bounded(c, es, lo, hi) && Hidden(LateResets(es + [e]), lo, hi)
    requires e.Value? ==> lo <= e.v <= hi
    ensures Bounded(Apply(c, e), es + [e], lo, hi)
    ensures e.Value? ==> lo <= Apply(c, e).average <= hi
  {
    var x := es + [e];
    assert x[..|x| - 1] == es;
    NoLateReset(es);
    var r := LateResets(es);
    match e
    case ResetCall =>
      if c.count == WINDOW && c.average == Quot(c.total, WINDOW) && Drifted(c.total, lo, hi, r) {
      } else if c.count == WINDOW {
        DriftGrows(c.total, lo, lo, hi, r - 1);
      }
    case Value(v) => ValueBounded(c, v, lo, hi, r);
  }

  lemma ValueBounded(c: Cell, v: int, lo: int, hi: int, r: nat)
    requires c.count <= WINDOW && Hidden(r, lo, hi) && lo <= v <= hi
    requires c.count < WINDOW ==> Weighs(c.count, c.total, lo, hi) && r == 0
    requires c.count == WINDOW ==>
               || (c.average == Quot(c.total, WINDOW) && Drifted(c.total, lo, hi, r))
               || (Pending(c, r) && Drifted(c.total, lo, hi, r - 1))
    ensures var q := Sample(c, v);
            && q.average == Quot(q.total, q.count) && lo <= q.average <= hi
            && (q.count < WINDOW ==> Weighs(q.count, q.total, lo, hi))
            && (q.count == WINDOW ==> Drifted(q.total, lo, hi, r))
  {
    var q := Sample(c, v);
    if c.count < WINDOW {
      OneMore(c.count, c.total, v, lo, hi);
      QuotBounds(q.total, q.count, lo, hi);
    } else if Pending(c, r) && Drifted(c.total, lo, hi, r - 1) {
      DriftGrows(c.total, v, lo, hi, r - 1);
      assert q.total == c.total + v;
    } else {
      DriftStays(c.total, v, lo, hi, r);
    }
    if q.count == WINDOW && c.count == WINDOW {
      DriftStays(q.total, v, lo, hi, r);
    }
    if c.count == WINDOW - 1 {
      FullWindow(q.total, lo, hi, r);
    }
  }

  lemma FullWindow(total: int, lo: int, hi: int, r: nat)
    requires Weighs(WINDOW, total, lo, hi)
    ensures Drifted(total, lo, hi, r)
  {
    Signs(r, lo);
    Signs(r, hi);
  }

  lemma {:induction false} NoLateReset(es: seq<Call>)
    ensures ValueCount(es) < WINDOW ==> LateResets(es) == 0
    decreases |es|
  {
    if es != [] {
      NoLateReset(es[..|es| - 1]);
    }
  }

  lemma {:induction false} CallsBounded(es: seq<Call>, lo: int, hi: int)
    requires lo <= hi && ValuesBetween(es, lo, hi) && Hidden(LateResets(es), lo, hi)
    ensures Bounded(Calls(FRESH, es), es, lo, hi)
    ensures es != [] && es[|es| - 1].Value? ==> lo <= Calls(FRESH, es).average <= hi
    decreases |es|
  {
    if es != [] {
      var n := |es| - 1;
      HiddenLess(LateResets(es), LateResets(es[..n]), lo, hi);
      CallsBounded(es[..n], lo, hi);
      NoLateReset(es[..n]);
      assert es == es[..n] + [es[n]];
      CallBounded(Calls(FRESH, es[..n]), es[..n], es[n], lo, hi);
    }
  }

  /** Averages stay between the bounds in all histories of samples between them and at most so many late resets. */
  ghost predicate AlwaysBetween(resets: nat, lo: int, hi: int) {
    forall es: seq<Call> ::
      es != [] && es[|es| - 1].Value? && ValuesBetween(es, lo, hi) && LateResets(es) <= resets ==>
        lo <= Calls(FRESH, es).average <= hi
  }

  function Alike(v: int, n: nat): (es: seq<Call>)
    ensures |es| == n
  {
    if n == 0 then [] else Alike(v, n - 1) + [Value(v)]
  }

  /** The samples that fill the window, and then so many times a reset and a sample, all alike. */
  function Worst(v: int, n: nat, r: nat): (es: seq<Call>)
    ensures |es| == n + 2 * r
  {
    if r == 0 then Alike(v, n) else Worst(v, n, r - 1) + [ResetCall] + [Value(v)]
  }

  /** The sum of n samples all alike. */
  function Alikes(v: int, n: nat): int { if n == 0 then 0 else Alikes(v, n - 1) + v }

  lemma {:induction false} AlikesIsProduct(v: int, n: nat)
    ensures Alikes(v, n) == n * v
    decreases n
  {
    if n > 0 {
      AlikesIsProduct(v, n - 1);
      assert (n - 1) * v == n * v - v;
    }
  }

  /** A history with so many samples and late resets, and the cell after it. */
  predicate Reached(es: seq<Call>, c: Cell, v: int, values: nat, resets: nat) {
    && Calls(FRESH, es) == c && ValuesBetween(es, v, v)
    && ValueCount(es) == values && LateResets(es) == resets
    && c.count == (if values < WINDOW then values else WINDOW) && c.total == Alikes(v, values)
  }

  lemma ReachValue(es: seq<Call>, c: Cell, v: int, values: nat, resets: nat)
    requires Reached(es, c, v, values, resets) && (values < WINDOW || c.average == 0)
    ensures Reached(es + [Value(v)], Sample(c, v), v, values + 1, resets)
  {
    var x := es + [Value(v)];
    assert x[..|x| - 1] == es && x[|x| - 1] == Value(v);
    SampleCounts(c, v);
  }

  lemma SampleCounts(c: Cell, v: int)
    requires c.count <= WINDOW && (c.count < WINDOW || c.average == 0)
    ensures Sample(c, v).total == c.total + v
    ensures Sample(c, v).count == if c.count < WINDOW then c.count + 1 else WINDOW
  {
  }

  lemma ReachReset(es: seq<Call>, c: Cell, v: int, values: nat, resets: nat)
    requires Reached(es, c, v, values, resets) && values >= WINDOW
    ensures Reached(es + [ResetCall], Reset(c), v, values, resets + 1)
  {
    var x := es + [ResetCall];
    assert x[..|x| - 1] == es && x[|x| - 1] == ResetCall;
  }

  /** And so that the last call was a sample, which makes the average that of the total. */
  predicate JustSampled(es: seq<Call>, c: Cell, v: int) {
    es != [] && es[|es| - 1] == Value(v) && c.count > 0 && c.average == Quot(c.total, c.count)
  }

  predicate ReachedBy(es: seq<Call>, v: int, values: nat, r: nat) {
    Reached(es, Calls(FRESH, es), v, values, r) && JustSampled(es, Calls(FRESH, es), v)
  }

  lemma ReachNext(es: seq<Call>, v: int, values: nat, r: nat)
    requires Reached(es, Calls(FRESH, es), v, values, r) && (values < WINDOW || Calls(FRESH, es).average == 0)
    ensures ReachedBy(es + [Value(v)], v, values + 1, r)
  {
    ReachValue(es, Calls(FRESH, es), v, values, r);
    SampleAverages(Calls(FRESH, es), v);
  }

  lemma SampleAverages(c: Cell, v: int)
    requires c.count <= WINDOW
    ensures Sample(c, v).count > 0 && Sample(c, v).average == Quot(Sample(c, v).total, Sample(c, v).count)
  {
  }

  lemma {:induction false} ReachAlike(v: int, n: nat)
    requires 0 < n <= WINDOW
    ensures ReachedBy(Alike(v, n), v, n, 0)
    decreases n
  {
    if n == 1 {
      assert Reached(Alike(v, 0), FRESH, v, 0, 0);
    } else {
      ReachAlike(v, n - 1);
    }
    ReachNext(Alike(v, n - 1), v, n - 1, 0);
  }

  lemma ReachAgain(es: seq<Call>, v: int, values: nat, r: nat)
    requires ReachedBy(es, v, values, r) && values >= WINDOW
    ensures ReachedBy(es + [ResetCall] + [Value(v)], v, values + 1, r + 1)
  {
    ReachReset(es, Calls(FRESH, es), v, values, r);
    ReachNext(es + [ResetCall], v, values, r + 1);
  }

  /** Each of the resets leaves one more sample in the total. */
  lemma {:induction false} ReachWorst(v: int, n: nat, r: nat)
    requires n == WINDOW
    ensures ReachedBy(Worst(v, n, r), v, n + r, r)
    decreases r
  {
    if r == 0 {
      ReachAlike(v, n);
    } else {
      var values, q := n + r - 1, r - 1;
      ReachWorst(v, n, q);
      ReachAgain(Worst(v, n, q), v, values, q);
      assert values + 1 == n + r && q + 1 == r;
      assert Worst(v, n, r) == Worst(v, n, q) + [ResetCall] + [Value(v)];
    }
  }

  lemma WorstBreaks(v: int, r: nat)
    requires r * v > 7 || r * v < -7
    ensures var a := Calls(FRESH, Worst(v, WINDOW, r)).average; if r * v > 7 then a > v else a < v
  {
    ReachWorst(v, WINDOW, r);
    AlikesIsProduct(v, WINDOW + r);
    assert (8 + r) * v == 8 * v + r * v;
    Signs(r, v);
    AboveEight(v, r * v);
  }

  lemma AboveEight(v: int, drift: int)
    requires (v >= 0 && drift > 7) || (v <= 0 && drift < -7)
    ensures var a := Quot(8 * v + drift, WINDOW); if drift > 7 then a > v else a < v
  {
  }

  /**
    The averages stay between the bounds of the samples in every history with at most r resets after
    the eighth sample exactly when r times each bound is at most 7 in magnitude, on the side it lies
    on: one reset is harmless for samples between -7 and 7, four for samples of at most 1.
   */
  lemma ResetsExactly(r: nat, lo: int, hi: int)
    requires lo <= hi
    ensures AlwaysBetween(r, lo, hi) <==> Hidden(r, lo, hi)
  {
    if Hidden(r, lo, hi) {
      forall es: seq<Call> | es != [] && es[|es| - 1].Value? && ValuesBetween(es, lo, hi) && LateResets(es) <= r
        ensures lo <= Calls(FRESH, es).average <= hi
      {
        HiddenLess(r, LateResets(es), lo, hi);
        CallsBounded(es, lo, hi);
      }
    } else {
      var v := if r * hi > 7 then hi else lo;
      WorstBreaks(v, r);
      ReachWorst(v, WINDOW, r);
      assert ValuesBetween(Worst(v, WINDOW, r), lo, hi);
    }
  }

  /** No bound but 0 survives every number of resets. */
  lemma ResetsWithoutEnd(lo: int, hi: int)
    requires lo <= hi
    ensures (forall r: nat :: AlwaysBetween(r, lo, hi)) <==> lo == hi == 0
  {
    if lo == hi == 0 {
      forall r: nat ensures AlwaysBetween(r, lo, hi) {
        ResetsExactly(r, lo, hi);
      }
    } else {
      ResetsExactly(8, lo, hi);
    }
  }

  /** Once the first average after a reset is between the bounds, so are all that follow. */
  lemma {:induction false} StaysBetween(c: Cell, vs: seq<int>, lo: int, hi: int)
    requires Warm(c) && lo <= c.average <= hi && AllBetween(vs, lo, hi)
    ensures Warm(Samples(c, vs)) && lo <= Samples(c, vs).average <= hi
    decreases |vs|
  {
    if vs != [] {
      var n := |vs| - 1;
      StaysBetween(c, vs[..n], lo, hi);
      NextBetween(Samples(c, vs[..n]), vs[n], lo, hi);
    }
  }

  lemma NextBetween(c: Cell, v: int, lo: int, hi: int)
    requires Warm(c) && lo <= c.average <= hi && lo <= v <= hi
    ensures Warm(Sample(c, v)) && lo <= Sample(c, v).average <= hi
  {
  }

  /** So eight samples of 100, a reset, and a ninth sample of 100 average to 112. */
  lemma ResetBreaksBound()
    ensures Calls(FRESH, Worst(100, WINDOW, 1)).average == 112
  {
    ReachWorst(100, WINDOW, 1);
    AlikesIsProduct(100, WINDOW + 1);
  }

  // ---------------------------------------------------------------- the driver

  class HX711 {
    var total: int
    var avrCount: nat
    var average: int
    var tareCount: nat
    var tareFinish: bool
    var offset: int

    ghost function State(): Cell
      reads this
    {
      Cell(total, avrCount, average, tareCount, tareFinish, offset)
    }

    constructor ()
      ensures State() == FRESH
    {
      total, avrCount, average, tareCount, tareFinish, offset := 0, 0, 0, 0, false, 0;
    }

    /** `averageing`. */
    method Averageing(value: int) returns (r: int)
      modifies this
      ensures State() == Sample(old(State()), value) && r == average
    {
      if avrCount < WINDOW {
        total := total + value;
        avrCount := avrCount + 1;
      } else {
        total := total - average;
        total := total + value;
      }
      average := Quot(total, avrCount);
      var tare := tareCount;
      tareCount := (tareCount + 1) % 0x1_0000;
      if tare > TARE_COUNT && !tareFinish {
        tareCount := 0;
        tareFinish := true;
        offset := average;
      }
      r := average;
    }

    /** `resetHX711`. */
    method ResetHX711()
      modifies this
      ensures State() == Reset(old(State()))
    {
      offset := 0;
      average := 0;
      tareCount := 0;
      tareFinish := false;
    }
  }
}
