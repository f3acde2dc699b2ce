/** `BagItem`: the scalar running statistics of one station, proved to hold
    `Aggregate.OfValues` of the readings it received. */
module Bags {
  import opened Common
  import opened Aggregate

  class BagItem {
    var count: int
    var max: int
    var min: int
    var total: int
    /** Every reading this bag has received, in order. */
    ghost var Values: seq<int>

    ghost predicate Valid()
      reads this
    {
      Value() == OfValues(Values)
    }

    function Value(): Stats
      reads this
    {
      Stats(count, max, min, total)
    }

    constructor ()
      ensures Valid() && Values == [] && Value() == Empty
    {
      count, max, min, total := 0, FloatMin, FloatMax, 0;
      Values := [];
    }

    method Add(v: int)
      requires Valid()
      modifies this
      ensures Valid() && Values == old(Values) + [v]
      ensures Value() == Aggregate.Add(old(Value()), v)
    {
      max := Common.Max(max, v);
      min := Common.Min(min, v);
      total := total + v;
      count := count + 1;
      Values := Values + [v];
      assert Values[..|Values| - 1] == old(Values);
    }

    method Append(other: BagItem)
      requires Valid() && other.Valid()
      modifies this
      ensures Valid() && Values == old(Values) + old(other.Values)
      ensures Value() == Aggregate.Append(old(Value()), old(other.Value()))
    {
      ghost var theirs := other.Values;
      AppendOfValues(Values, theirs);
      var oCount, oMax, oMin, oTotal := other.count, other.max, other.min, other.total;
      max := Common.Max(max, oMax);
      min := Common.Min(min, oMin);
      total := total + oTotal;
      count := count + oCount;
      Values := Values + theirs;
    }

    method Max() returns (r: int)
      requires Valid()
      ensures r == OfValues(Values).max
      ensures forall i :: 0 <= i < |Values| ==> Values[i] <= r
    {
      OfValuesExtremes(Values);
      r := max;
    }

    method Min() returns (r: int)
      requires Valid()
      ensures r == OfValues(Values).min
      ensures forall i :: 0 <= i < |Values| ==> r <= Values[i]
    {
      OfValuesExtremes(Values);
      r := min;
    }

    /** `_total / _count`; None is the NaN of an empty bag. */
    method Avg() returns (r: Option<real>)
      requires Valid()
      ensures r == Aggregate.Avg(OfValues(Values))
      ensures r.Some? ==> OfValues(Values).min as real <= r.value <= OfValues(Values).max as real
    {
      if Values != [] {
        AvgBetween(Values);
      }
      r := if count == 0 then None else Some(total as real / count as real);
    }
  }
}
