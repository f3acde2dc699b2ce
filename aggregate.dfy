/** The running statistics one station accumulates (the fields of `BagItem`),
    as a value, with the operations `Add` and `Append` and the value a sequence
    of readings produces. Both bag classes are proved against this module. */
module Aggregate {
  import opened Common

  /** float.MaxValue, exactly: (2 - 2^-23) * 2^127. */
  const FloatMax: int := 340282346638528859811704183484516925440
  /** float.MinValue. */
  const FloatMin: int := -FloatMax

  /** `_count`, `_max`, `_min`, `_total`; readings are integers standing in
      for the C# floats, so sums are exact. */
  datatype Stats = Stats(count: int, max: int, min: int, total: int)

  /** A freshly constructed bag: nothing counted, the extremes at their sentinels. */
  const Empty: Stats := Stats(0, FloatMin, FloatMax, 0)

  /** `BagItem.Add`: one more reading. */
  function Add(s: Stats, v: int): (r: Stats)
    ensures r.count == s.count + 1 && r.total == s.total + v
    ensures s.max <= r.max && v <= r.max && (r.max == s.max || r.max == v)
    ensures r.min <= s.min && r.min <= v && (r.min == s.min || r.min == v)
  {
    Stats(s.count + 1, Max(s.max, v), Min(s.min, v), s.total + v)
  }

  /** `BagItem.Append`: fold the statistics of `b` into those of `a`. */
  function Append(a: Stats, b: Stats): (r: Stats)
    ensures r.count == a.count + b.count && r.total == a.total + b.total
    ensures a.max <= r.max && b.max <= r.max && (r.max == a.max || r.max == b.max)
    ensures r.min <= a.min && r.min <= b.min && (r.min == a.min || r.min == b.min)
  {
    Stats(a.count + b.count, Max(a.max, b.max), Min(a.min, b.min), a.total + b.total)
  }

  /** Reference definition of the sum of the readings. */
  function Sum(vs: seq<int>): int
  {
    if vs == [] then 0 else Sum(vs[..|vs| - 1]) + vs[|vs| - 1]
  }

  /** The statistics of a bag that received exactly the readings `vs`, in order. */
  function OfValues(vs: seq<int>): (r: Stats)
    ensures r.count == |vs| && r.total == Sum(vs)
    ensures FloatMin <= r.max && r.min <= FloatMax
  {
    if vs == [] then Empty else Add(OfValues(vs[..|vs| - 1]), vs[|vs| - 1])
  }

  /** `max` and `min` are the largest and smallest reading, or the sentinel
      when nothing was read. */
  lemma {:induction false} OfValuesExtremes(vs: seq<int>)
    ensures forall i :: 0 <= i < |vs| ==> OfValues(vs).min <= vs[i] <= OfValues(vs).max
    ensures OfValues(vs).max == FloatMin || OfValues(vs).max in vs
    ensures OfValues(vs).min == FloatMax || OfValues(vs).min in vs
  {
    if vs != [] {
      var p := vs[..|vs| - 1];
      OfValuesExtremes(p);
      assert vs == p + [vs[|vs| - 1]];
    }
  }

  /** The mean `_total / _count`; None stands for the NaN of a division 0/0. */
  function Avg(s: Stats): (r: Option<real>)
    ensures r.None? <==> s.count == 0
    ensures r.Some? ==> r.value * (s.count as real) == s.total as real
  {
    if s.count == 0 then None else Some(s.total as real / s.count as real)
  }

  /** Appending the empty bag changes nothing for any bag built from readings. */
  lemma AppendEmpty(s: Stats)
    requires FloatMin <= s.max && s.min <= FloatMax
    ensures Append(s, Empty) == s && Append(Empty, s) == s
  {
  }

  lemma AppendCommutative(a: Stats, b: Stats)
    ensures Append(a, b) == Append(b, a)
  {
  }

  lemma AppendAssociative(a: Stats, b: Stats, c: Stats)
    ensures Append(Append(a, b), c) == Append(a, Append(b, c))
  {
  }

  /** Appending two bags gives the bag of all their readings: partition-then-merge
      is exact. */
  lemma {:induction false} AppendOfValues(xs: seq<int>, ys: seq<int>)
    ensures Append(OfValues(xs), OfValues(ys)) == OfValues(xs + ys)
  {
    if ys == [] {
      assert xs + ys == xs;
      AppendEmpty(OfValues(xs));
    } else {
      var ys' := ys[..|ys| - 1];
      var y := ys[|ys| - 1];
      assert (xs + ys)[..|xs + ys| - 1] == xs + ys';
      assert (xs + ys)[|xs + ys| - 1] == y;
      AppendOfValues(xs, ys');
    }
  }

  /** A reading in the middle counts as if it had arrived last. */
  lemma {:induction false} MoveToEnd(a: seq<int>, x: int, b: seq<int>)
    ensures OfValues(a + [x] + b) == OfValues(a + b + [x])
  {
    AppendOfValues(a + [x], b);
    assert (a + [x])[..|a|] == a;
    AppendOfValues(a, b);
    assert (a + b + [x])[..|a + b|] == a + b;
  }

  /** The order in which readings arrive does not matter to the statistics. */
  lemma {:induction false} OfValuesPermutation(xs: seq<int>, ys: seq<int>)
    requires multiset(xs) == multiset(ys)
    ensures OfValues(xs) == OfValues(ys)
    decreases |xs|
  {
    if xs != [] {
      var j := FindLast(xs, ys);
      var zs := ys[..j] + ys[j + 1..];
      RemoveLast(xs, ys, j);
      OfValuesPermutation(xs[..|xs| - 1], zs);
      MoveToEnd(ys[..j], ys[j], ys[j + 1..]);
      LastStep(xs, zs);
    }
  }

  /** The last reading of `xs` occurs in any reordering `ys` of it. */
  lemma FindLast(xs: seq<int>, ys: seq<int>) returns (j: nat)
    requires xs != [] && multiset(xs) == multiset(ys)
    ensures j < |ys| && ys[j] == xs[|xs| - 1] && ys == ys[..j] + [ys[j]] + ys[j + 1..]
  {
    var x := xs[|xs| - 1];
    assert x in multiset(ys) by {
      assert xs == xs[..|xs| - 1] + [x];
    }
    j :| 0 <= j < |ys| && ys[j] == x;
  }

  lemma {:induction false} LastStep(xs: seq<int>, zs: seq<int>)
    requires xs != [] && OfValues(xs[..|xs| - 1]) == OfValues(zs)
    ensures OfValues(xs) == OfValues(zs + [xs[|xs| - 1]])
  {
    assert (zs + [xs[|xs| - 1]])[..|zs|] == zs;
  }

  lemma {:induction false} RemoveLast(xs: seq<int>, ys: seq<int>, j: int)
    requires xs != [] && 0 <= j < |ys| && ys[j] == xs[|xs| - 1]
    requires multiset(xs) == multiset(ys)
    ensures multiset(xs[..|xs| - 1]) == multiset(ys[..j] + ys[j + 1..])
  {
    assert xs == xs[..|xs| - 1] + [ys[j]];
    assert ys == ys[..j] + [ys[j]] + ys[j + 1..];
    assert multiset(xs[..|xs| - 1]) == multiset(xs) - multiset{ys[j]};
    assert multiset(ys[..j] + ys[j + 1..]) == multiset(ys) - multiset{ys[j]};
  }

  lemma MulMonotone(a: int, b: int, k: int)
    requires a <= b && 0 <= k
    ensures a * k <= b * k
  {
    assert b * k - a * k == (b - a) * k;
  }

  lemma QuotientBetween(lo: int, t: int, hi: int, n: int)
    requires 0 < n && lo * n <= t <= hi * n
    ensures lo as real <= t as real / n as real <= hi as real
  {
    var q := t as real / n as real;
    assert q * n as real == t as real;
  }

  lemma StepBounds(lo: int, hi: int, t: int, v: int, k: int)
    requires 0 <= k && lo * k <= t <= hi * k
    ensures Min(lo, v) * (k + 1) <= t + v <= Max(hi, v) * (k + 1)
  {
    MulMonotone(Min(lo, v), lo, k);
    MulMonotone(hi, Max(hi, v), k);
    assert Min(lo, v) * (k + 1) == Min(lo, v) * k + Min(lo, v);
    assert Max(hi, v) * (k + 1) == Max(hi, v) * k + Max(hi, v);
  }

  /** For a non-empty bag the total lies between count * min and count * max. */
  lemma {:induction false} TotalBounds(vs: seq<int>)
    requires vs != []
    ensures OfValues(vs).min * |vs| <= OfValues(vs).total <= OfValues(vs).max * |vs|
  {
    var n := |vs|;
    var r := OfValues(vs);
    if n > 1 {
      var p := OfValues(vs[..n - 1]);
      var v := vs[n - 1];
      assert r == Add(p, v);
      TotalBounds(vs[..n - 1]);
      StepBounds(p.min, p.max, p.total, v, n - 1);
    } else {
      assert vs == [] + [vs[0]];
    }
  }

  /** For every station seen at least once: min <= avg <= max. */
  lemma AvgBetween(vs: seq<int>)
    requires vs != []
    ensures Avg(OfValues(vs)).Some?
    ensures OfValues(vs).min as real <= Avg(OfValues(vs)).value <= OfValues(vs).max as real
  {
    var r := OfValues(vs);
    TotalBounds(vs);
    QuotientBetween(r.min, r.total, r.max, |vs|);
  }
}
