/** The two dictionaries of the program, both keyed by station bytes under
    `BagKeyComparer`: the per-worker `Dictionary` that the tokenizer loop fills
    and the shared `ConcurrentDictionary` the workers merge into. A table is the
    list of its entries in insertion order; each entry holds the statistics of
    its bag as a value. */
module Tables {
  import opened Common
  import opened Aggregate
  import opened KeyComparer

  datatype Entry = Entry(key: seq<byte>, bag: Stats)
  type Table = seq<Entry>

  /** The lookup test both dictionaries apply to a stored key and a probe:
      equal hash codes, then `BagKeyComparer.Equals` (as written, or
      corrected to compare whole keys). */
  predicate Matches(stored: seq<byte>, probe: seq<byte>, variant: Variant)
  {
    Hash(stored).Ok? && Hash(stored) == Hash(probe) && SameKey(stored, probe, variant)
  }

  /** The entry a lookup of `probe` finds: entries with equal hash codes share
      a bucket, and a bucket chain is walked from its newest entry. */
  function FindLatest(t: Table, probe: seq<byte>, variant: Variant): (r: Option<nat>)
    ensures r.Some? ==> r.value < |t| && Matches(t[r.value].key, probe, variant)
    ensures r.Some? ==> forall j :: r.value < j < |t| ==> !Matches(t[j].key, probe, variant)
    ensures r.None? <==> forall j :: 0 <= j < |t| ==> !Matches(t[j].key, probe, variant)
  {
    FindBelow(t, probe, |t|, variant)
  }

  /** The newest of the first `n` entries that matches `probe`. */
  function FindBelow(t: Table, probe: seq<byte>, n: nat, variant: Variant): (r: Option<nat>)
    requires n <= |t|
    ensures r.Some? ==> r.value < n && Matches(t[r.value].key, probe, variant)
    ensures r.Some? ==> forall j :: r.value < j < n ==> !Matches(t[j].key, probe, variant)
    ensures r.None? <==> forall j :: 0 <= j < n ==> !Matches(t[j].key, probe, variant)
  {
    if n == 0 then None
    else if Matches(t[n - 1].key, probe, variant) then Some(n - 1)
    else FindBelow(t, probe, n - 1, variant)
  }

  /** No key was added while an earlier key already matched it: the guarantee
      `Dictionary.Add` keeps by refusing duplicates. */
  predicate Distinct(t: Table, variant: Variant)
  {
    DistinctKeys(Keys(t), variant)
  }

  predicate DistinctKeys(ks: seq<seq<byte>>, variant: Variant)
  {
    forall i, j :: 0 <= i < j < |ks| ==> !Matches(ks[i], ks[j], variant)
  }

  /** Every stored key has a hash code (its first byte exists). */
  predicate KeysNonEmpty(t: Table)
  {
    NonEmpty(Keys(t))
  }

  predicate NonEmpty(ks: seq<seq<byte>>)
  {
    forall i :: 0 <= i < |ks| ==> |ks[i]| > 0
  }

  /** A key that no earlier key matches can be added. */
  lemma DistinctSnoc(ks: seq<seq<byte>>, k: seq<byte>, variant: Variant)
    requires DistinctKeys(ks, variant) && NonEmpty(ks) && |k| > 0
    requires forall i :: 0 <= i < |ks| ==> !Matches(ks[i], k, variant)
    ensures DistinctKeys(ks + [k], variant) && NonEmpty(ks + [k])
  {
    var r := ks + [k];
    forall i, j | 0 <= i < j < |r| ensures !Matches(r[i], r[j], variant) {
      if j < |ks| {
        assert r[i] == ks[i] && r[j] == ks[j];
      } else {
        assert r[i] == ks[i] && r[j] == k;
      }
    }
  }

  function Keys(t: Table): (r: seq<seq<byte>>)
    ensures |r| == |t| && forall i :: 0 <= i < |t| ==> r[i] == t[i].key
  {
    seq(|t|, i requires 0 <= i < |t| => t[i].key)
  }

  /** The statistics of all bags of a table taken together. */
  function Tally(t: Table): (r: Stats)
    ensures FloatMin <= r.max && r.min <= FloatMax
  {
    if t == [] then Empty else Append(Tally(t[..|t| - 1]), t[|t| - 1].bag)
  }

  /** One pass of the tokenizer loop's dictionary step: `TryGetValue` with the
      whole 100-byte station buffer `probe`; on a miss, `Add` of the copied key
      bytes with a new bag; then the reading goes into the bag found or added. */
  function Record(t: Table, probe: seq<byte>, key: seq<byte>, v: int, variant: Variant): (r: Result<Table>)
    ensures r.Err? <==> FindLatest(t, probe, variant).None? && (|key| == 0 || FindLatest(t, key, variant).Some?)
    ensures r.Err? ==> r.error == (if |key| == 0 then EmptyKey else DuplicateKey)
    ensures r.Ok? && FindLatest(t, probe, variant).Some? ==>
      Keys(r.value) == Keys(t) && r.value[FindLatest(t, probe, variant).value].bag == Add(t[FindLatest(t, probe, variant).value].bag, v)
    ensures r.Ok? && FindLatest(t, probe, variant).None? ==>
      Keys(r.value) == Keys(t) + [key] && r.value[|t|].bag == Add(Empty, v)
    ensures r.Ok? ==> forall i :: 0 <= i < |t| && Some(i) != FindLatest(t, probe, variant) ==> r.value[i] == t[i]
  {
    match FindLatest(t, probe, variant)
    case Some(i) => Ok(t[i := Entry(t[i].key, Add(t[i].bag, v))])
    case None =>
      if |key| == 0 then Err(EmptyKey)
      else if FindLatest(t, key, variant).Some? then Err(DuplicateKey)
      else Ok(t + [Entry(key, Add(Empty, v))])
  }

  /** Recording keeps the keys pairwise distinct and non-empty. */
  lemma RecordKeepsDistinct(t: Table, probe: seq<byte>, key: seq<byte>, v: int, variant: Variant)
    requires Record(t, probe, key, v, variant).Ok?
    ensures Distinct(t, variant) && KeysNonEmpty(t) ==>
      Distinct(Record(t, probe, key, v, variant).value, variant) && KeysNonEmpty(Record(t, probe, key, v, variant).value)
  {
    if FindLatest(t, probe, variant).None? && Distinct(t, variant) && KeysNonEmpty(t) {
      assert forall i :: 0 <= i < |t| ==> !Matches(Keys(t)[i], key, variant);
      DistinctSnoc(Keys(t), key, variant);
    }
  }

  /** Recording a reading adds exactly that reading to the tally of the table:
      no reading is lost or counted twice, whichever bag receives it. */
  lemma RecordTally(t: Table, probe: seq<byte>, key: seq<byte>, v: int, variant: Variant)
    requires Record(t, probe, key, v, variant).Ok?
    ensures Tally(Record(t, probe, key, v, variant).value) == Add(Tally(t), v)
  {
    match FindLatest(t, probe, variant)
    case Some(i) =>
      assert Add(t[i].bag, v) == Append(t[i].bag, Single(v));
      TallyUpdate(t, i, Single(v));
    case None =>
      var r := Record(t, probe, key, v, variant).value;
      assert r[..|r| - 1] == t;
  }

  /** The statistics of the single reading `v`. */
  function Single(v: int): Stats
  {
    Stats(1, v, v, v)
  }

  /** Appending statistics to any one bag appends them to the tally. */
  lemma {:induction false} TallyUpdate(t: Table, i: nat, b: Stats)
    requires i < |t|
    ensures Tally(t[i := Entry(t[i].key, Append(t[i].bag, b))]) == Append(Tally(t), b)
    decreases |t|
  {
    var u := t[i := Entry(t[i].key, Append(t[i].bag, b))];
    var n := |t| - 1;
    if i < n {
      assert u[..n] == t[..n][i := Entry(t[i].key, Append(t[i].bag, b))];
      TallyUpdate(t[..n], i, b);
    } else {
      assert u[..n] == t[..n];
    }
  }

  /** The tally of two tables one after the other. */
  lemma {:induction false} TallyConcat(a: Table, b: Table)
    ensures Tally(a + b) == Append(Tally(a), Tally(b))
    decreases |b|
  {
    if b == [] {
      assert a + b == a;
    } else {
      var n := |b| - 1;
      assert (a + b)[..|a + b| - 1] == a + b[..n];
      TallyConcat(a, b[..n]);
    }
  }

  /** One iteration of the final `foreach`: `GetOrAdd` of the local key on the
      shared table (a new bag when nothing matches), then `Append` of the local
      bag into the bag found. */
  function MergeEntry(shared: Table, e: Entry, variant: Variant): (r: Table)
    ensures FindLatest(shared, e.key, variant).Some? ==> Keys(r) == Keys(shared)
    ensures FindLatest(shared, e.key, variant).None? ==> Keys(r) == Keys(shared) + [e.key]
    ensures |e.key| > 0 ==> Covers(Keys(r), e.key, variant)
  {
    match FindLatest(shared, e.key, variant)
    case Some(i) => shared[i := Entry(shared[i].key, Append(shared[i].bag, e.bag))]
    case None =>
      PrefixAgreeReflexive(e.key);
      var r := shared + [Entry(e.key, Append(Empty, e.bag))];
      assert Keys(r)[|shared|] == e.key;
      r
  }

  /** The final `foreach` over the local dictionary, in insertion order. */
  function Merge(shared: Table, local: Table, variant: Variant): Table
    decreases |local|
  {
    if local == [] then shared else Merge(MergeEntry(shared, local[0], variant), local[1..], variant)
  }

  /** Merging a bag appends it to the shared tally. */
  lemma MergeEntryTally(shared: Table, e: Entry, variant: Variant)
    ensures Tally(MergeEntry(shared, e, variant)) == Append(Tally(shared), e.bag)
  {
    match FindLatest(shared, e.key, variant)
    case Some(i) => TallyUpdate(shared, i, e.bag);
    case None =>
      var r := MergeEntry(shared, e, variant);
      assert r[..|r| - 1] == shared;
  }

  /** Merging keeps every reading: the shared tally afterwards is the shared
      tally before with the local tally appended. */
  lemma {:induction false} MergeTally(shared: Table, local: Table, variant: Variant)
    ensures Tally(Merge(shared, local, variant)) == Append(Tally(shared), Tally(local))
    decreases |local|
  {
    if local == [] {
      AppendEmpty(Tally(shared));
    } else {
      var e, rest := local[0], local[1..];
      var next := MergeEntry(shared, e, variant);
      assert Merge(shared, local, variant) == Merge(next, rest, variant);
      MergeEntryTally(shared, e, variant);
      MergeTally(next, rest, variant);
      assert local == [e] + rest;
      TallyConcat([e], rest);
      assert Tally([e]) == Append(Empty, e.bag) by {
        assert [e][..0] == [];
      }
      AppendEmptyFront(Tally(shared), e.bag, Tally(rest));
    }
  }

  /** A fresh bag in the middle of a chain of appends changes nothing. */
  lemma AppendEmptyFront(t: Stats, b: Stats, rest: Stats)
    requires FloatMin <= t.max && t.min <= FloatMax
    ensures Append(Append(t, b), rest) == Append(t, Append(Append(Empty, b), rest))
  {
  }

  /** Merging one entry keeps the shared keys distinct and non-empty. */
  lemma MergeEntryKeeps(shared: Table, e: Entry, variant: Variant)
    requires |e.key| > 0 && Distinct(shared, variant) && KeysNonEmpty(shared)
    ensures Distinct(MergeEntry(shared, e, variant), variant) && KeysNonEmpty(MergeEntry(shared, e, variant))
  {
    if FindLatest(shared, e.key, variant).None? {
      assert forall i :: 0 <= i < |shared| ==> !Matches(Keys(shared)[i], e.key, variant);
      DistinctSnoc(Keys(shared), e.key, variant);
    }
  }

  /** Some key of `ks` matches `k`: a lookup of `k` finds an entry. */
  predicate Covers(ks: seq<seq<byte>>, k: seq<byte>, variant: Variant)
  {
    exists j :: 0 <= j < |ks| && Matches(ks[j], k, variant)
  }

  /** Merging keeps the shared keys distinct and non-empty. */
  lemma {:induction false} MergeKeeps(shared: Table, local: Table, variant: Variant)
    requires KeysNonEmpty(local) && Distinct(shared, variant) && KeysNonEmpty(shared)
    ensures Distinct(Merge(shared, local, variant), variant) && KeysNonEmpty(Merge(shared, local, variant))
    decreases |local|
  {
    if local != [] {
      var next := MergeEntry(shared, local[0], variant);
      assert Merge(shared, local, variant) == Merge(next, local[1..], variant);
      MergeEntryKeeps(shared, local[0], variant);
      MergeKeeps(next, local[1..], variant);
    }
  }

  /** After merging, a lookup of any local key finds a shared entry. */
  lemma {:induction false} MergeCovers(shared: Table, local: Table, variant: Variant)
    requires KeysNonEmpty(local)
    ensures forall i :: 0 <= i < |local| ==> Covers(Keys(Merge(shared, local, variant)), local[i].key, variant)
    decreases |local|
  {
    if local != [] {
      var e, rest := local[0], local[1..];
      var next := MergeEntry(shared, e, variant);
      var r := Merge(next, rest, variant);
      assert Merge(shared, local, variant) == r;
      MergeCovers(next, rest, variant);
      MergePrefix(next, rest, variant);
      assert Covers(Keys(next), e.key, variant);
      var j :| 0 <= j < |Keys(next)| && Matches(Keys(next)[j], e.key, variant);
      assert Keys(r)[j] == Keys(next)[j];
      CoversFront(Keys(r), local, variant);
    }
  }

  /** Keys that cover the first key of a list and the rest of it cover it
      all. */
  lemma CoversFront(ks: seq<seq<byte>>, local: Table, variant: Variant)
    requires local != [] && Covers(ks, local[0].key, variant)
    requires forall i :: 0 <= i < |local[1..]| ==> Covers(ks, local[1..][i].key, variant)
    ensures forall i :: 0 <= i < |local| ==> Covers(ks, local[i].key, variant)
  {
    forall i | 0 < i < |local| ensures Covers(ks, local[i].key, variant) {
      assert local[1..][i - 1] == local[i];
    }
  }

  /** Merging only adds keys after the shared ones. */
  lemma {:induction false} MergePrefix(shared: Table, local: Table, variant: Variant)
    ensures Keys(shared) <= Keys(Merge(shared, local, variant))
    decreases |local|
  {
    if local != [] {
      var next := MergeEntry(shared, local[0], variant);
      assert Merge(shared, local, variant) == Merge(next, local[1..], variant);
      MergePrefix(next, local[1..], variant);
    }
  }
}
