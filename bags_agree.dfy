/** The two bag classes are interchangeable: fed the same readings, the
    scalar `BagItem` and the lane-batched `BagItemSSE` report the same
    maximum, minimum and mean, whatever the vector width. */
module BagsAgree {
  import opened Common
  import opened Aggregate
  import opened Bags
  import opened BatchedBags

  /** Builds one bag of each kind, adds the readings `vs` to both in order,
      and reads back their statistics. */
  method SameStatistics(vs: seq<int>, width: nat) returns (max1: int, max2: int, min1: int, min2: int,
                                                           avg1: Option<real>, avg2: Option<real>)
    requires 0 < width
    ensures max1 == max2 && min1 == min2 && avg1 == avg2
    ensures max1 == OfValues(vs).max && min1 == OfValues(vs).min && avg1 == Avg(OfValues(vs))
  {
    var plain := new BagItem();
    var batched := new BagItemSSE(width);
    var i := 0;
    while i < |vs|
      invariant 0 <= i <= |vs|
      invariant plain.Valid() && batched.Valid()
      invariant plain.Values == vs[..i] && batched.Values() == vs[..i]
    {
      assert vs[..i + 1] == vs[..i] + [vs[i]];
      plain.Add(vs[i]);
      batched.Add(vs[i]);
      i := i + 1;
    }
    assert vs[..i] == vs;
    max1 := plain.Max();
    max2 := batched.Max();
    min1 := plain.Min();
    min2 := batched.Min();
    avg1 := plain.Avg();
    avg2 := batched.Avg();
  }
}
