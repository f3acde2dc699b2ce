/** `BagItemSSE`: readings are buffered in a lane-wide array and each full
    batch is folded into per-lane max/min/total vectors; proved to report the
    same statistics as the scalar `BagItem` on the same readings. */
module BatchedBags {
  import opened Common
  import opened Aggregate

  /** The readings of a list of batches, one batch after the other. */
  function Flatten(gs: seq<seq<int>>): seq<int>
  {
    if gs == [] then [] else Flatten(gs[..|gs| - 1]) + gs[|gs| - 1]
  }

  /** `Vector.Max`, `Vector.Min` and `Vector.Add` on lane vectors. */
  function LaneMax(a: seq<int>, b: seq<int>): (r: seq<int>)
    requires |a| == |b|
    ensures |r| == |a| && forall i :: 0 <= i < |a| ==> r[i] == Common.Max(a[i], b[i])
  {
    seq(|a|, i requires 0 <= i < |a| => Common.Max(a[i], b[i]))
  }

  function LaneMin(a: seq<int>, b: seq<int>): (r: seq<int>)
    requires |a| == |b|
    ensures |r| == |a| && forall i :: 0 <= i < |a| ==> r[i] == Common.Min(a[i], b[i])
  {
    seq(|a|, i requires 0 <= i < |a| => Common.Min(a[i], b[i]))
  }

  /** Lane `i` of `acc` with the `i`-th reading of `g` added. */
  function LaneAdd(acc: seq<Stats>, g: seq<int>): (r: seq<Stats>)
    requires |acc| == |g|
    ensures |r| == |acc| && forall i :: 0 <= i < |acc| ==> r[i] == Aggregate.Add(acc[i], g[i])
  {
    seq(|acc|, i requires 0 <= i < |acc| => Aggregate.Add(acc[i], g[i]))
  }

  function LaneSum(a: seq<int>, b: seq<int>): (r: seq<int>)
    requires |a| == |b|
    ensures |r| == |a| && forall i :: 0 <= i < |a| ==> r[i] == a[i] + b[i]
  {
    seq(|a|, i requires 0 <= i < |a| => a[i] + b[i])
  }

  ghost predicate Batches(gs: seq<seq<int>>, width: nat)
  {
    forall k :: 0 <= k < |gs| ==> |gs[k]| == width
  }

  /** Lane `i` of the result holds the statistics of the `i`-th reading of
      every batch: what the max, min and total vectors accumulate. */
  function Lanes(gs: seq<seq<int>>, width: nat): (r: seq<Stats>)
    requires Batches(gs, width)
    ensures |r| == width
  {
    if gs == [] then seq(width, _ => Empty)
    else
      var acc := Lanes(gs[..|gs| - 1], width);
      var g := gs[|gs| - 1];
      LaneAdd(acc, g)
  }

  /** Every lane's max and min stay within the float range. */
  lemma {:induction false} LanesBounded(gs: seq<seq<int>>, width: nat, i: nat)
    requires Batches(gs, width) && i < width
    ensures FloatMin <= Lanes(gs, width)[i].max && Lanes(gs, width)[i].min <= FloatMax
  {
    if gs != [] {
      LanesBounded(gs[..|gs| - 1], width, i);
    }
  }

  /** The horizontal reduction of lane statistics into one. */
  function Reduce(lanes: seq<Stats>): Stats
  {
    if lanes == [] then Empty else Aggregate.Append(Reduce(lanes[..|lanes| - 1]), lanes[|lanes| - 1])
  }

  lemma {:induction false} ReduceEmptyLanes(n: nat)
    ensures Reduce(seq(n, _ => Empty)) == Empty
  {
    if n > 0 {
      assert seq(n, _ => Empty)[..n - 1] == seq(n - 1, _ => Empty);
      ReduceEmptyLanes(n - 1);
    }
  }

  /** Folding one batch into the lanes adds the batch's statistics to the reduction. */
  lemma {:induction false} ReduceAddBatch(acc: seq<Stats>, g: seq<int>)
    requires |acc| == |g|
    ensures Reduce(LaneAdd(acc, g)) == Aggregate.Append(Reduce(acc), OfValues(g))
  {
    var n := |acc|;
    if n > 0 {
      var acc', g' := acc[..n - 1], g[..n - 1];
      ReduceAddBatch(acc', g');
      assert LaneAdd(acc, g)[..n - 1] == LaneAdd(acc', g');
      SwapAdd(Reduce(acc'), OfValues(g'), acc[n - 1], g[n - 1]);
    }
  }

  /** A lane and a reading can trade places between the two halves of a reduction. */
  lemma SwapAdd(r: Stats, o: Stats, lane: Stats, v: int)
    ensures Aggregate.Append(Aggregate.Append(r, o), Aggregate.Add(lane, v))
         == Aggregate.Append(Aggregate.Append(r, lane), Aggregate.Add(o, v))
  {
  }

  /** Reducing the lanes gives the statistics of all batched readings. */
  lemma {:induction false} ReduceLanes(gs: seq<seq<int>>, width: nat)
    requires Batches(gs, width)
    ensures Reduce(Lanes(gs, width)) == OfValues(Flatten(gs))
  {
    if gs == [] {
      ReduceEmptyLanes(width);
    } else {
      var gs' := gs[..|gs| - 1];
      var g := gs[|gs| - 1];
      var acc := Lanes(gs', width);
      ReduceLanes(gs', width);
      ReduceAddBatch(acc, g);
      AppendOfValues(Flatten(gs'), g);
    }
  }

  /** Folding a full batch adds each of its readings to its own lane. */
  lemma LanesAddBatch(gs: seq<seq<int>>, g: seq<int>, width: nat)
    requires Batches(gs, width) && |g| == width
    ensures Batches(gs + [g], width)
    ensures forall i :: 0 <= i < width ==> Lanes(gs + [g], width)[i] == Aggregate.Add(Lanes(gs, width)[i], g[i])
  {
    assert (gs + [g])[..|gs|] == gs;
  }

  /** Merging two lane layouts lane by lane gives the lanes of both batch lists. */
  lemma {:induction false} LanesAppend(gs: seq<seq<int>>, hs: seq<seq<int>>, width: nat)
    requires Batches(gs, width) && Batches(hs, width)
    ensures Batches(gs + hs, width)
    ensures forall i :: 0 <= i < width ==>
      Lanes(gs + hs, width)[i] == Aggregate.Append(Lanes(gs, width)[i], Lanes(hs, width)[i])
  {
    if hs == [] {
      assert gs + hs == gs;
      forall i | 0 <= i < width
        ensures Lanes(gs, width)[i] == Aggregate.Append(Lanes(gs, width)[i], Lanes(hs, width)[i])
      {
        LanesBounded(gs, width, i);
        AppendEmpty(Lanes(gs, width)[i]);
      }
    } else {
      var hs' := hs[..|hs| - 1];
      LanesAppend(gs, hs', width);
      assert (gs + hs)[..|gs + hs| - 1] == gs + hs';
      assert (gs + hs)[|gs + hs| - 1] == hs[|hs| - 1];
    }
  }

  lemma {:induction false} FlattenAppend(gs: seq<seq<int>>, hs: seq<seq<int>>)
    ensures Flatten(gs + hs) == Flatten(gs) + Flatten(hs)
  {
    if hs == [] {
      assert gs + hs == gs;
    } else {
      var hs' := hs[..|hs| - 1];
      FlattenAppend(gs, hs');
      assert (gs + hs)[..|gs + hs| - 1] == gs + hs';
    }
  }

  lemma {:induction false} FlattenLength(gs: seq<seq<int>>, width: nat)
    requires Batches(gs, width)
    ensures |Flatten(gs)| == |gs| * width
  {
    if gs != [] {
      var n := |gs|;
      FlattenLength(gs[..n - 1], width);
      assert |Flatten(gs)| == (n - 1) * width + width;
      assert (n - 1) * width + width == n * width;
    }
  }

  /** `(g * width + p) % width == p` for a remainder `p` below the width. */
  lemma ModOfRemainder(g: nat, width: nat, p: nat)
    requires p < width
    ensures (g * width + p) % width == p
  {
    var x := g * width + p;
    var q, r := x / width, x % width;
    assert x == q * width + r;
    assert (g - q) * width == r - p;
    if g > q {
      MulMonotone(1, g - q, width);
    } else if g < q {
      MulMonotone(1, q - g, width);
    }
  }

  lemma TakeStep(s: seq<int>, i: nat)
    requires i < |s|
    ensures s[..i + 1] == s[..i] + [s[i]]
  {
  }

  lemma Distribute(a: nat, b: nat, width: nat)
    ensures (a + b) * width == a * width + b * width
  {
  }

  /** After one more reading the count is a multiple of the width exactly when
      the pending batch is full. */
  lemma PendingAfterAdd(g: nat, width: nat, p: nat)
    requires 0 < p <= width
    ensures (g * width + p) % width == 0 <==> p == width
    ensures p == width ==> g * width + p == (g + 1) * width + 0
  {
    if p == width {
      ModOfRemainder(g + 1, width, 0);
    } else {
      ModOfRemainder(g, width, p);
    }
  }

  /** The horizontal sum of the total vector is the reduced total. */
  lemma {:induction false} LaneTotals(lanes: seq<Stats>, totals: seq<int>)
    requires |lanes| == |totals|
    requires forall i :: 0 <= i < |lanes| ==> totals[i] == lanes[i].total
    ensures Sum(totals) == Reduce(lanes).total
  {
    if lanes != [] {
      LaneTotals(lanes[..|lanes| - 1], totals[..|totals| - 1]);
    }
  }

  /** The three lane vectors hold the max, min and total of each lane of `gs`. */
  ghost predicate LanesHold(maxV: seq<int>, minV: seq<int>, totV: seq<int>, gs: seq<seq<int>>, width: nat)
  {
    |maxV| == width && |minV| == width && |totV| == width
    && Batches(gs, width)
    && forall i :: 0 <= i < width ==>
         maxV[i] == Lanes(gs, width)[i].max
         && minV[i] == Lanes(gs, width)[i].min
         && totV[i] == Lanes(gs, width)[i].total
  }

  /** Folding a full batch into the vectors keeps them in step with the lanes. */
  lemma LanesHoldFold(maxV: seq<int>, minV: seq<int>, totV: seq<int>, gs: seq<seq<int>>, g: seq<int>, width: nat)
    requires LanesHold(maxV, minV, totV, gs, width) && |g| == width
    ensures LanesHold(LaneMax(maxV, g), LaneMin(minV, g), LaneSum(totV, g), gs + [g], width)
  {
    LanesAddBatch(gs, g, width);
  }

  /** Merging two sets of vectors lane by lane gives the vectors of both batch lists. */
  lemma LanesHoldMerge(maxV: seq<int>, minV: seq<int>, totV: seq<int>, gs: seq<seq<int>>,
                       maxW: seq<int>, minW: seq<int>, totW: seq<int>, hs: seq<seq<int>>, width: nat)
    requires LanesHold(maxV, minV, totV, gs, width) && LanesHold(maxW, minW, totW, hs, width)
    ensures LanesHold(LaneMax(maxV, maxW), LaneMin(minV, minW), LaneSum(totV, totW), gs + hs, width)
  {
    LanesAppend(gs, hs, width);
  }

  lemma ReduceStep(acc: Stats, lanes: seq<Stats>, i: nat)
    requires i < |lanes|
    ensures Aggregate.Append(acc, Reduce(lanes[..i + 1]))
         == Aggregate.Append(Aggregate.Append(acc, Reduce(lanes[..i])), lanes[i])
    ensures Aggregate.Append(acc, Reduce(lanes[..i + 1])).max
         == Common.Max(Aggregate.Append(acc, Reduce(lanes[..i])).max, lanes[i].max)
    ensures Aggregate.Append(acc, Reduce(lanes[..i + 1])).min
         == Common.Min(Aggregate.Append(acc, Reduce(lanes[..i])).min, lanes[i].min)
  {
    assert lanes[..i + 1][..i] == lanes[..i];
  }

  lemma OfValuesStep(vs: seq<int>, i: nat)
    requires i < |vs|
    ensures OfValues(vs[..i + 1]) == Aggregate.Add(OfValues(vs[..i]), vs[i])
    ensures Sum(vs[..i + 1]) == Sum(vs[..i]) + vs[i]
  {
    assert vs[..i + 1][..i] == vs[..i];
  }

  /** Reading the pending buffer first and the reduced lanes after gives the
      statistics of all readings. */
  lemma PendingThenLanes(gs: seq<seq<int>>, p: seq<int>, width: nat)
    requires Batches(gs, width)
    ensures Aggregate.Append(OfValues(p), Reduce(Lanes(gs, width))) == OfValues(Flatten(gs) + p)
  {
    ReduceLanes(gs, width);
    AppendOfValues(Flatten(gs), p);
  }

  /** After `Append` the batched readings of both bags come first, then the
      receiver's pending readings, then the other's: the same readings as both
      bags together, and the same statistics. */
  lemma Interleave(a: seq<int>, oa: seq<int>, p: seq<int>, op: seq<int>)
    ensures multiset(a + oa + p + op) == multiset(a + p) + multiset(oa + op)
    ensures OfValues(a + oa + p + op) == Aggregate.Append(OfValues(a + p), OfValues(oa + op))
  {
    AppendOfValues(a + oa, p);
    AppendOfValues(a, oa);
    AppendOfValues(a + oa + p, op);
    AppendOfValues(a, p);
    AppendOfValues(oa, op);
  }

  /** The lane-batched statistics (`BagItemSSE`). `Batched` holds the readings
      already folded into the lane vectors, one batch of `width` readings each;
      `Pending` the readings still waiting in `items`. */
  class BagItemSSE {
    /** `Vector<float>.Count`. */
    const width: nat
    const items: array<int>
    var count: int
    var maxVector: seq<int>
    var minVector: seq<int>
    var totalVector: seq<int>
    ghost var Batched: seq<seq<int>>
    ghost var Pending: seq<int>

    /** Every reading this bag has received, in an order that keeps batches together. */
    ghost function Values(): seq<int>
      reads this
    {
      Flatten(Batched) + Pending
    }

    ghost predicate Valid()
      reads this, items
    {
      Holds() && |Pending| < width
    }

    /** The representation invariant, allowing a full batch not yet folded in. */
    ghost predicate Holds()
      reads this, items
    {
      0 < width && items.Length == width
      && |maxVector| == width && |minVector| == width && |totalVector| == width
      && Batches(Batched, width)
      && |Pending| <= width
      && count == |Batched| * width + |Pending|
      && (forall i :: 0 <= i < |Pending| ==> items[i] == Pending[i])
      && LanesHold(maxVector, minVector, totalVector, Batched, width)
    }

    /** `count % width` is the number of pending readings. */
    lemma PendingIsRemainder()
      requires Valid()
      ensures count % width == |Pending| && count == |Values()|
    {
      ModOfRemainder(|Batched|, width, |Pending|);
      FlattenLength(Batched, width);
    }

    constructor (width: nat)
      requires 0 < width
      ensures Valid() && fresh(items) && this.width == width && Values() == []
    {
      this.width := width;
      items := new int[width];
      count := 0;
      maxVector := seq(width, _ => FloatMin);
      minVector := seq(width, _ => FloatMax);
      totalVector := seq(width, _ => 0);
      Batched := [];
      Pending := [];
    }

    method Add(v: int)
      requires Valid()
      modifies this, items
      ensures Valid() && Values() == old(Values()) + [v]
      ensures count == old(count) + 1 && items[old(count) % width] == v
      ensures count % width == 0 ==>
        maxVector == LaneMax(old(maxVector), items[..])
        && minVector == LaneMin(old(minVector), items[..])
        && totalVector == LaneSum(old(totalVector), items[..])
      ensures count % width != 0 ==>
        maxVector == old(maxVector) && minVector == old(minVector) && totalVector == old(totalVector)
    {
      PendingIsRemainder();
      items[count % width] := v;
      count := count + 1;
      Pending := Pending + [v];
      PendingAfterAdd(|Batched|, width, |Pending|);
      if count % width == 0 {
        FoldPending();
      }
    }

    /** The full-batch step of `Add`: the buffered batch is folded into the
        lane vectors and the buffer starts over. */
    method FoldPending()
      requires Holds() && |Pending| == width
      modifies this
      ensures Valid() && Values() == old(Values()) && count == old(count)
      ensures maxVector == LaneMax(old(maxVector), items[..])
        && minVector == LaneMin(old(minVector), items[..])
        && totalVector == LaneSum(old(totalVector), items[..])
    {
      var va := items[..];
      assert va == Pending;
      LanesHoldFold(maxVector, minVector, totalVector, Batched, va, width);
      FlattenAppend(Batched, [Pending]);
      assert Flatten([Pending]) == Pending by {
        assert [Pending][..0] == [];
      }
      maxVector := LaneMax(maxVector, va);
      minVector := LaneMin(minVector, va);
      totalVector := LaneSum(totalVector, va);
      Batched := Batched + [Pending];
      Pending := [];
    }

    method Append(other: BagItemSSE)
      requires Valid() && other.Valid() && other.width == width
      requires other != this && other.items != items
      modifies this, items
      ensures Valid()
      ensures multiset(Values()) == multiset(old(Values())) + multiset(old(other.Values()))
      ensures OfValues(Values()) == Aggregate.Append(OfValues(old(Values())), OfValues(old(other.Values())))
    {
      ghost var a, p, oa, op := Flatten(Batched), Pending, Flatten(other.Batched), other.Pending;
      MergeBatches(other);
      AddPending(other);
      Interleave(a, oa, p, op);
    }

    /** The loop of `Append`: each of the other bag's pending readings is
        added in turn. */
    method AddPending(other: BagItemSSE)
      requires Valid() && other.Valid() && other.width == width
      requires other != this && other.items != items
      modifies this, items
      ensures Valid() && Values() == old(Values()) + other.Pending
    {
      ghost var start := Values();
      other.PendingIsRemainder();
      var i := 0;
      while i < other.count % width
        invariant 0 <= i <= |other.Pending|
        invariant Valid()
        invariant Values() == start + other.Pending[..i]
      {
        TakeStep(other.Pending, i);
        Add(other.items[i]);
        i := i + 1;
      }
      assert other.Pending[..i] == other.Pending;
    }

    /** The vector step of `Append`: the other bag's lane vectors are merged
        lane by lane and its batches join this bag's, ahead of the pending readings. */
    method MergeBatches(other: BagItemSSE)
      requires Valid() && other.Valid() && other.width == width && other != this
      modifies this
      ensures Valid()
      ensures Batched == old(Batched) + other.Batched && Pending == old(Pending)
      ensures Values() == Flatten(old(Batched)) + Flatten(other.Batched) + Pending
      ensures maxVector == LaneMax(old(maxVector), other.maxVector)
        && minVector == LaneMin(old(minVector), other.minVector)
        && totalVector == LaneSum(old(totalVector), other.totalVector)
    {
      LanesHoldMerge(maxVector, minVector, totalVector, Batched,
                     other.maxVector, other.minVector, other.totalVector, other.Batched, width);
      other.PendingIsRemainder();
      FlattenAppend(Batched, other.Batched);
      Distribute(|Batched|, |other.Batched|, width);
      maxVector := LaneMax(maxVector, other.maxVector);
      minVector := LaneMin(minVector, other.minVector);
      totalVector := LaneSum(totalVector, other.totalVector);
      count := count + (other.count - other.count % width);
      Batched := Batched + other.Batched;
    }

    method Max() returns (r: int)
      requires Valid()
      ensures r == OfValues(Values()).max
    {
      r := PendingMax();
      r := LanesMax(r);
      PendingThenLanes(Batched, Pending, width);
    }

    /** The first loop of `Max`: the max of the pending readings. */
    method PendingMax() returns (r: int)
      requires Valid()
      ensures r == OfValues(Pending).max
    {
      PendingIsRemainder();
      r := FloatMin;
      var i := 0;
      while i < count % width
        invariant 0 <= i <= |Pending|
        invariant r == OfValues(Pending[..i]).max
      {
        OfValuesStep(Pending, i);
        r := Common.Max(r, items[i]);
        i := i + 1;
      }
      assert Pending[..i] == Pending;
    }

    /** The second loop of `Max`: folding in the max vector's lanes. */
    method LanesMax(pending: int) returns (r: int)
      requires Valid() && pending == OfValues(Pending).max
      ensures r == Aggregate.Append(OfValues(Pending), Reduce(Lanes(Batched, width))).max
    {
      var lanes := Lanes(Batched, width);
      ghost var p := OfValues(Pending);
      r := pending;
      var i := 0;
      while i < width
        invariant 0 <= i <= width
        invariant r == Aggregate.Append(p, Reduce(lanes[..i])).max
      {
        ReduceStep(p, lanes, i);
        assert maxVector[i] == lanes[i].max;
        r := Common.Max(r, maxVector[i]);
        i := i + 1;
      }
      assert lanes[..i] == lanes;
      assert Reduce(lanes[..i]) == Reduce(Lanes(Batched, width));
    }

    method Min() returns (r: int)
      requires Valid()
      ensures r == OfValues(Values()).min
    {
      r := PendingMin();
      r := LanesMin(r);
      PendingThenLanes(Batched, Pending, width);
    }

    /** The first loop of `Min`: the min of the pending readings. */
    method PendingMin() returns (r: int)
      requires Valid()
      ensures r == OfValues(Pending).min
    {
      PendingIsRemainder();
      r := FloatMax;
      var i := 0;
      while i < count % width
        invariant 0 <= i <= |Pending|
        invariant r == OfValues(Pending[..i]).min
      {
        OfValuesStep(Pending, i);
        r := Common.Min(r, items[i]);
        i := i + 1;
      }
      assert Pending[..i] == Pending;
    }

    /** The second loop of `Min`: folding in the min vector's lanes. */
    method LanesMin(pending: int) returns (r: int)
      requires Valid() && pending == OfValues(Pending).min
      ensures r == Aggregate.Append(OfValues(Pending), Reduce(Lanes(Batched, width))).min
    {
      var lanes := Lanes(Batched, width);
      ghost var p := OfValues(Pending);
      r := pending;
      var i := 0;
      while i < width
        invariant 0 <= i <= width
        invariant r == Aggregate.Append(p, Reduce(lanes[..i])).min
      {
        ReduceStep(p, lanes, i);
        assert minVector[i] == lanes[i].min;
        r := Common.Min(r, minVector[i]);
        i := i + 1;
      }
      assert lanes[..i] == lanes;
      assert Reduce(lanes[..i]) == Reduce(Lanes(Batched, width));
    }

    /** `Vector.Sum(TotalVector)` plus the pending readings, over `_count`. */
    method Avg() returns (r: Option<real>)
      requires Valid()
      ensures r == Aggregate.Avg(OfValues(Values()))
    {
      PendingIsRemainder();
      var lanes := Lanes(Batched, width);
      LaneTotals(lanes, totalVector);
      var sum := Sum(totalVector);
      var i := 0;
      while i < count % width
        invariant 0 <= i <= |Pending|
        invariant sum == Reduce(lanes).total + Sum(Pending[..i])
      {
        OfValuesStep(Pending, i);
        sum := sum + items[i];
        i := i + 1;
      }
      assert Pending[..i] == Pending;
      PendingThenLanes(Batched, Pending, width);
      assert OfValues(Values()).total == sum && OfValues(Values()).count == count;
      r := if count == 0 then None else Some(sum as real / count as real);
    }
  }
}
