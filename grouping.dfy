/** What the dictionaries compute when the comparer tells the station names of
    the input apart: one entry per station, whose bag holds exactly the readings
    of that station, both for a worker's local dictionary and for the shared
    dictionary its bags are merged into. */
module Grouping {
  import opened Common
  import opened Aggregate
  import opened KeyComparer
  import opened Tokenizer
  import opened Tables
  import opened Sections

  /** A station name as the dictionaries handle it: at least one byte (the
      hash reads `b[0]`), room in the station buffer, and no zero byte (the
      buffer's padding). */
  predicate StationKey(key: seq<byte>)
  {
    1 <= |key| <= KeyCapacity && forall i :: 0 <= i < |key| ==> key[i] != 0
  }

  /** The names of a set of stations are valid and the comparer calls two of
      them equal only when they are equal: as written, when no name is a
      prefix of another; corrected, always. */
  predicate Separated(names: set<seq<byte>>, variant: Variant)
  {
    (forall a :: a in names ==> StationKey(a))
    && (variant.AsWritten? ==> forall a, b :: a in names && b in names && PrefixAgree(a, b) ==> a == b)
  }

  /** The station names of a list of records. */
  function Stations(ts: seq<Token>): (r: set<seq<byte>>)
    ensures forall i :: 0 <= i < |ts| ==> ts[i].key in r
  {
    set i | 0 <= i < |ts| :: ts[i].key
  }

  /** The keys of a table, as a set. */
  function KeySet(t: Table): (r: set<seq<byte>>)
    ensures forall i :: 0 <= i < |t| ==> t[i].key in r
  {
    set i | 0 <= i < |t| :: t[i].key
  }

  /** Every record's number is one `float.Parse` accepts. */
  predicate Parses(ts: seq<Token>, parse: seq<byte> -> Option<int>)
  {
    forall i :: 0 <= i < |ts| ==> parse(ts[i].number).Some?
  }

  /** The reading of a number that parses (0 stands in for one that does not;
      the grouping lemmas only use it under `Parses`). */
  function ValueOf(parse: seq<byte> -> Option<int>, number: seq<byte>): int
  {
    match parse(number)
    case Some(v) => v
    case None => 0
  }

  /** The readings of station `key` among the records `ts`, in order. */
  function Readings(ts: seq<Token>, key: seq<byte>, parse: seq<byte> -> Option<int>): seq<int>
  {
    if ts == [] then []
    else Readings(ts[..|ts| - 1], key, parse)
         + (if ts[|ts| - 1].key == key then [ValueOf(parse, ts[|ts| - 1].number)] else [])
  }

  /** No two entries of the table have the same key. */
  predicate UniqueKeys(t: Table)
  {
    forall i, j :: 0 <= i < j < |t| ==> t[i].key != t[j].key
  }

  /** The bag stored under `key`, or an empty bag when there is none. */
  function BagOf(t: Table, key: seq<byte>): Stats
  {
    if t == [] then Empty
    else if t[|t| - 1].key == key then t[|t| - 1].bag
    else BagOf(t[..|t| - 1], key)
  }

  /** `t` is the dictionary of the records `ts`: one entry per station of
      `ts` and nothing else, the bag of each station holding exactly the
      readings of that station. */
  ghost predicate Groups(t: Table, ts: seq<Token>, parse: seq<byte> -> Option<int>)
  {
    UniqueKeys(t) && KeySet(t) == Stations(ts)
    && forall key :: BagOf(t, key) == OfValues(Readings(ts, key, parse))
  }

  lemma {:induction false} ReadingsAbsent(ts: seq<Token>, key: seq<byte>, parse: seq<byte> -> Option<int>)
    requires key !in Stations(ts)
    ensures Readings(ts, key, parse) == []
  {
    if ts != [] {
      var init := ts[..|ts| - 1];
      assert Stations(init) <= Stations(ts) by {
        forall k | k in Stations(init) ensures k in Stations(ts) {
          var i :| 0 <= i < |init| && init[i].key == k;
          assert ts[i].key == k;
        }
      }
      ReadingsAbsent(init, key, parse);
    }
  }

  lemma {:induction false} ReadingsAppend(a: seq<Token>, b: seq<Token>, key: seq<byte>, parse: seq<byte> -> Option<int>)
    ensures Readings(a + b, key, parse) == Readings(a, key, parse) + Readings(b, key, parse)
    decreases |b|
  {
    if b != [] {
      var init := b[..|b| - 1];
      assert (a + b)[..|a + b| - 1] == a + init;
      ReadingsAppend(a, init, key, parse);
    } else {
      assert a + b == a;
    }
  }

  lemma StationsSnoc(ts: seq<Token>, tok: Token)
    ensures Stations(ts + [tok]) == Stations(ts) + {tok.key}
  {
    var r := ts + [tok];
    forall k | k in Stations(r) ensures k in Stations(ts) + {tok.key} {
      var i :| 0 <= i < |r| && r[i].key == k;
      if i < |ts| {
        assert ts[i].key == k;
      }
    }
    forall k | k in Stations(ts) ensures k in Stations(r) {
      var i :| 0 <= i < |ts| && ts[i].key == k;
      assert r[i].key == k;
    }
    assert r[|ts|] == tok;
  }

  lemma StationsAppend(a: seq<Token>, b: seq<Token>)
    ensures Stations(a + b) == Stations(a) + Stations(b)
  {
    var r := a + b;
    forall k | k in Stations(r) ensures k in Stations(a) + Stations(b) {
      var i :| 0 <= i < |r| && r[i].key == k;
      if i < |a| {
        assert a[i].key == k;
      } else {
        assert b[i - |a|].key == k;
      }
    }
    forall k | k in Stations(a) + Stations(b) ensures k in Stations(r) {
      if k in Stations(a) {
        var i :| 0 <= i < |a| && a[i].key == k;
        assert r[i].key == k;
      } else {
        var i :| 0 <= i < |b| && b[i].key == k;
        assert r[|a| + i].key == k;
      }
    }
  }

  lemma {:induction false} BagOfAbsent(t: Table, key: seq<byte>)
    requires key !in KeySet(t)
    ensures BagOf(t, key) == Empty
  {
    if t != [] {
      var init := t[..|t| - 1];
      assert KeySet(init) <= KeySet(t) by {
        forall k | k in KeySet(init) ensures k in KeySet(t) {
          var i :| 0 <= i < |init| && init[i].key == k;
          assert t[i].key == k;
        }
      }
      BagOfAbsent(init, key);
    }
  }

  /** With unique keys, the bag of a key is the bag of its entry. */
  lemma {:induction false} BagOfAt(t: Table, i: nat)
    requires UniqueKeys(t) && i < |t|
    ensures BagOf(t, t[i].key) == t[i].bag
  {
    if i < |t| - 1 {
      BagOfAt(t[..|t| - 1], i);
    }
  }

  /** Replacing the bag of entry `i` changes the bag of its key only. */
  lemma {:induction false} BagOfUpdate(t: Table, i: nat, b: Stats, key: seq<byte>)
    requires UniqueKeys(t) && i < |t|
    ensures BagOf(t[i := Entry(t[i].key, b)], key) == if key == t[i].key then b else BagOf(t, key)
  {
    var u := t[i := Entry(t[i].key, b)];
    if i < |t| - 1 {
      assert u[..|u| - 1] == t[..|t| - 1][i := Entry(t[i].key, b)];
      BagOfUpdate(t[..|t| - 1], i, b, key);
    } else if key != t[i].key {
      assert u[..|u| - 1] == t[..|t| - 1];
    }
  }

  /** The bag of a key, read from the front of a table with unique keys. */
  lemma {:induction false} BagOfFront(t: Table, key: seq<byte>)
    requires UniqueKeys(t) && t != []
    ensures BagOf(t, key) == if t[0].key == key then t[0].bag else BagOf(t[1..], key)
  {
    if |t| > 1 {
      var init := t[..|t| - 1];
      assert init[1..] == t[1..][..|t| - 2];
      BagOfFront(init, key);
    } else if t[0].key == key {
    } else {
      assert t[1..] == [];
    }
  }

  /** Under a separating comparer, a stored key matches the padded station
      buffer of a key, or that key itself, exactly when the two are equal. */
  lemma MatchesExactly(stored: seq<byte>, key: seq<byte>, variant: Variant)
    requires Separated({stored, key}, variant)
    ensures Matches(stored, Pad(key), variant) <==> stored == key
    ensures Matches(stored, key, variant) <==> stored == key
  {
    assert Pad(key) == key + Zeros(KeyCapacity - |key|);
    if variant.Corrected? {
      assert stored + [] == stored && key + [] == key;
      KeyPartOfPadded(stored, 0);
      KeyPartOfPadded(key, 0);
      KeyPartOfPadded(key, KeyCapacity - |key|);
      HashOfPadded(key, KeyCapacity - |key|);
    } else if stored == key {
      HashOfPadded(key, KeyCapacity - |key|);
      PrefixAgreeExtension(key, Zeros(KeyCapacity - |key|));
      PrefixAgreeReflexive(key);
    } else {
      assert !PrefixAgree(stored, key);
      if |stored| <= |key| {
        var i :| 0 <= i < |stored| && i < |key| && stored[i] != key[i];
        assert Pad(key)[i] == key[i];
      } else {
        assert Pad(key)[|key|] == 0 != stored[|key|];
      }
    }
  }

  lemma KeySetUpdate(t: Table, i: nat, b: Stats)
    requires i < |t|
    ensures KeySet(t[i := Entry(t[i].key, b)]) == KeySet(t)
  {
    var u := t[i := Entry(t[i].key, b)];
    assert forall j :: 0 <= j < |t| ==> u[j].key == t[j].key;
    forall k | k in KeySet(u) ensures k in KeySet(t) {
      var j :| 0 <= j < |u| && u[j].key == k;
    }
    forall k | k in KeySet(t) ensures k in KeySet(u) {
      var j :| 0 <= j < |t| && t[j].key == k;
    }
  }

  lemma KeySetSnoc(t: Table, e: Entry)
    ensures KeySet(t + [e]) == KeySet(t) + {e.key}
  {
    var u := t + [e];
    forall k | k in KeySet(u) ensures k in KeySet(t) + {e.key} {
      var j :| 0 <= j < |u| && u[j].key == k;
      if j < |t| {
        assert t[j].key == k;
      }
    }
    forall k | k in KeySet(t) ensures k in KeySet(u) {
      var j :| 0 <= j < |t| && t[j].key == k;
      assert u[j].key == k;
    }
    assert u[|t|].key == e.key;
  }

  /** Replacing a bag keeps the keys unique. */
  lemma UniqueUpdate(t: Table, i: nat, b: Stats)
    requires UniqueKeys(t) && i < |t|
    ensures UniqueKeys(t[i := Entry(t[i].key, b)])
  {
    var u := t[i := Entry(t[i].key, b)];
    forall j, k | 0 <= j < k < |u| ensures u[j].key != u[k].key {
      assert u[j].key == t[j].key && u[k].key == t[k].key;
    }
  }

  /** A key with no entry can be added without breaking uniqueness. */
  lemma UniqueSnoc(t: Table, e: Entry)
    requires UniqueKeys(t) && e.key !in KeySet(t)
    ensures UniqueKeys(t + [e])
  {
    var u := t + [e];
    forall i, j | 0 <= i < j < |u| ensures u[i].key != u[j].key {
      if j == |t| {
        assert u[i].key == t[i].key;
      }
    }
  }

  lemma ReadingsSnoc(done: seq<Token>, tok: Token, key: seq<byte>, parse: seq<byte> -> Option<int>)
    ensures Readings(done + [tok], key, parse)
         == Readings(done, key, parse) + (if tok.key == key then [ValueOf(parse, tok.number)] else [])
  {
    assert (done + [tok])[..|done|] == done;
  }

  lemma OfValuesSnoc(xs: seq<int>, v: int)
    ensures OfValues(xs + [v]) == Add(OfValues(xs), v)
  {
    assert (xs + [v])[..|xs|] == xs;
  }

  /** A reading of a station already in the dictionary goes into its bag. */
  lemma StepFound(t: Table, done: seq<Token>, tok: Token, parse: seq<byte> -> Option<int>, i: nat)
    requires Groups(t, done, parse) && i < |t| && t[i].key == tok.key
    ensures Groups(t[i := Entry(tok.key, Add(t[i].bag, ValueOf(parse, tok.number)))], done + [tok], parse)
  {
    var v := ValueOf(parse, tok.number);
    var b := Add(t[i].bag, v);
    var u := t[i := Entry(tok.key, b)];
    StationsSnoc(done, tok);
    KeySetUpdate(t, i, b);
    BagOfAt(t, i);
    UniqueUpdate(t, i, b);
    forall k ensures BagOf(u, k) == OfValues(Readings(done + [tok], k, parse)) {
      BagOfUpdate(t, i, b, k);
      ReadingsSnoc(done, tok, k, parse);
      if k == tok.key {
        OfValuesSnoc(Readings(done, k, parse), v);
      } else {
        assert Readings(done, k, parse) + [] == Readings(done, k, parse);
      }
    }
  }

  /** A reading of a new station gets a new entry with a bag of that reading. */
  lemma StepNew(t: Table, done: seq<Token>, tok: Token, parse: seq<byte> -> Option<int>)
    requires Groups(t, done, parse) && tok.key !in KeySet(t)
    ensures Groups(t + [Entry(tok.key, Add(Empty, ValueOf(parse, tok.number)))], done + [tok], parse)
  {
    var v := ValueOf(parse, tok.number);
    var e := Entry(tok.key, Add(Empty, v));
    var u := t + [e];
    StationsSnoc(done, tok);
    KeySetSnoc(t, e);
    UniqueSnoc(t, e);
    assert tok.key !in Stations(done);
    ReadingsAbsent(done, tok.key, parse);
    assert u[..|t|] == t;
    forall k ensures BagOf(u, k) == OfValues(Readings(done + [tok], k, parse)) {
      ReadingsSnoc(done, tok, k, parse);
      if k == tok.key {
        OfValuesSnoc([], v);
        assert [] + [v] == [v];
      } else {
        assert Readings(done, k, parse) + [] == Readings(done, k, parse);
      }
    }
  }

  /** Under a separating comparer, a lookup finds the entry of the station
      itself or nothing. */
  lemma NoFalseMatch(t: Table, names: set<seq<byte>>, key: seq<byte>, variant: Variant)
    requires KeySet(t) <= names && key in names && Separated(names, variant)
    ensures forall j :: 0 <= j < |t| ==> (Matches(t[j].key, Pad(key), variant) <==> t[j].key == key)
    ensures forall j :: 0 <= j < |t| ==> (Matches(t[j].key, key, variant) <==> t[j].key == key)
  {
    forall j | 0 <= j < |t|
      ensures Matches(t[j].key, Pad(key), variant) <==> t[j].key == key
      ensures Matches(t[j].key, key, variant) <==> t[j].key == key
    {
      assert {t[j].key, key} <= names;
      MatchesExactly(t[j].key, key, variant);
    }
  }

  /** The dictionary step for the next record keeps the dictionary the
      grouping of the records read so far. */
  lemma StepGroups(t: Table, done: seq<Token>, tok: Token, parse: seq<byte> -> Option<int>, variant: Variant)
    requires Groups(t, done, parse) && Separated(Stations(done + [tok]), variant) && |tok.key| <= KeyCapacity
    requires parse(tok.number).Some?
    ensures Step(t, tok, parse, variant).Ok? && Groups(Step(t, tok, parse, variant).value, done + [tok], parse)
  {
    var key := tok.key;
    StationsSnoc(done, tok);
    NoFalseMatch(t, Stations(done + [tok]), key, variant);
    match FindLatest(t, Pad(key), variant)
    case Some(i) =>
      StepFound(t, done, tok, parse, i);
    case None =>
      assert forall j :: 0 <= j < |t| ==> t[j].key != key;
      StepNew(t, done, tok, parse);
  }

  /** Absorbing the records `ts` into the dictionary of the records `done`
      succeeds and gives the dictionary of `done + ts`. */
  lemma {:induction false} AbsorbGroups(t: Table, done: seq<Token>, ts: seq<Token>, parse: seq<byte> -> Option<int>, variant: Variant)
    requires Groups(t, done, parse) && Separated(Stations(done + ts), variant) && Parses(ts, parse)
    requires forall i :: 0 <= i < |ts| ==> |ts[i].key| <= KeyCapacity
    ensures Absorb(t, ts, parse, variant).Ok? && Groups(Absorb(t, ts, parse, variant).value, done + ts, parse)
    decreases |ts|
  {
    if ts == [] {
      assert done + ts == done;
    } else {
      var next := done + [ts[0]];
      assert done + ts == next + ts[1..];
      StationsAppend(next, ts[1..]);
      StepGroups(t, done, ts[0], parse, variant);
      AbsorbGroups(Step(t, ts[0], parse, variant).value, next, ts[1..], parse, variant);
    }
  }

  /** Under a separating comparer the dictionary step cannot fail on the
      key: it fails exactly when `float.Parse` rejects the number. */
  lemma StepFailsOnNumber(t: Table, done: seq<Token>, tok: Token, parse: seq<byte> -> Option<int>, variant: Variant)
    requires Groups(t, done, parse) && Separated(Stations(done + [tok]), variant) && |tok.key| <= KeyCapacity
    ensures Step(t, tok, parse, variant).Ok? <==> parse(tok.number).Some?
    ensures Step(t, tok, parse, variant).Err? ==> Step(t, tok, parse, variant).error == BadNumber
  {
    StationsSnoc(done, tok);
    assert tok.key in Stations(done + [tok]);
    RecordAccepts(t, Stations(done + [tok]), tok.key, 0, variant);
    if parse(tok.number).Some? {
      RecordAccepts(t, Stations(done + [tok]), tok.key, parse(tok.number).value, variant);
    }
  }

  /** Under a separating comparer, recording a reading of one of the names
      never fails. */
  lemma RecordAccepts(t: Table, names: set<seq<byte>>, key: seq<byte>, v: int, variant: Variant)
    requires KeySet(t) <= names && key in names && Separated(names, variant)
    ensures Record(t, Pad(key), key, v, variant).Ok?
  {
    NoFalseMatch(t, names, key, variant);
    assert |key| != 0;
    if FindLatest(t, key, variant).Some? {
      var j := FindLatest(t, key, variant).value;
      assert Matches(t[j].key, Pad(key), variant);
    }
  }

  /** Absorbing records under a separating comparer fails exactly when some
      number does not parse, and then with `BadNumber`. */
  lemma {:induction false} AbsorbFails(t: Table, done: seq<Token>, ts: seq<Token>, parse: seq<byte> -> Option<int>, variant: Variant)
    requires Groups(t, done, parse) && Separated(Stations(done + ts), variant)
    requires forall i :: 0 <= i < |ts| ==> |ts[i].key| <= KeyCapacity
    ensures Absorb(t, ts, parse, variant).Ok? <==> Parses(ts, parse)
    ensures Absorb(t, ts, parse, variant).Err? ==> Absorb(t, ts, parse, variant).error == BadNumber
    decreases |ts|
  {
    if ts != [] {
      var next := done + [ts[0]];
      assert done + ts == next + ts[1..];
      StationsAppend(next, ts[1..]);
      StepFailsOnNumber(t, done, ts[0], parse, variant);
      assert Parses(ts, parse) <==> parse(ts[0].number).Some? && Parses(ts[1..], parse) by {
        assert forall i :: 0 < i < |ts| ==> ts[i] == ts[1..][i - 1];
      }
      if parse(ts[0].number).Some? {
        StepGroups(t, done, ts[0], parse, variant);
        AbsorbFails(Step(t, ts[0], parse, variant).value, next, ts[1..], parse, variant);
      }
    }
  }

  /** The empty dictionary is the dictionary of no records. */
  lemma EmptyGroups(parse: seq<byte> -> Option<int>)
    ensures Groups([], [], parse)
  {
    forall key ensures BagOf([], key) == OfValues(Readings([], key, parse)) {
    }
  }

  /** One iteration of the final `foreach`: the local bag of `e.key` is
      appended to the shared bag of that key, or stored under a new entry. */
  lemma MergeEntryBags(shared: Table, e: Entry, variant: Variant)
    requires UniqueKeys(shared) && Separated(KeySet(shared) + {e.key}, variant)
    ensures UniqueKeys(MergeEntry(shared, e, variant)) && KeySet(MergeEntry(shared, e, variant)) == KeySet(shared) + {e.key}
    ensures forall key ::
      BagOf(MergeEntry(shared, e, variant), key) == (if key == e.key then Append(BagOf(shared, key), e.bag) else BagOf(shared, key))
  {
    NoFalseMatch(shared, KeySet(shared) + {e.key}, e.key, variant);
    match FindLatest(shared, e.key, variant)
    case Some(i) =>
      MergeFound(shared, e, i);
    case None =>
      assert forall j :: 0 <= j < |shared| ==> shared[j].key != e.key;
      MergeNew(shared, e);
  }

  lemma MergeFound(shared: Table, e: Entry, i: nat)
    requires UniqueKeys(shared) && i < |shared| && shared[i].key == e.key
    ensures var r := shared[i := Entry(shared[i].key, Append(shared[i].bag, e.bag))];
      UniqueKeys(r) && KeySet(r) == KeySet(shared) + {e.key}
      && forall key :: BagOf(r, key) == (if key == e.key then Append(BagOf(shared, key), e.bag) else BagOf(shared, key))
  {
    var b := Append(shared[i].bag, e.bag);
    KeySetUpdate(shared, i, b);
    BagOfAt(shared, i);
    forall key ensures BagOf(shared[i := Entry(shared[i].key, b)], key) ==
      (if key == e.key then Append(BagOf(shared, key), e.bag) else BagOf(shared, key))
    {
      BagOfUpdate(shared, i, b, key);
    }
  }

  lemma MergeNew(shared: Table, e: Entry)
    requires UniqueKeys(shared) && e.key !in KeySet(shared)
    ensures var r := shared + [Entry(e.key, Append(Empty, e.bag))];
      UniqueKeys(r) && KeySet(r) == KeySet(shared) + {e.key}
      && forall key :: BagOf(r, key) == (if key == e.key then Append(BagOf(shared, key), e.bag) else BagOf(shared, key))
  {
    var n := Entry(e.key, Append(Empty, e.bag));
    KeySetSnoc(shared, n);
    UniqueSnoc(shared, n);
    BagOfAbsent(shared, e.key);
    assert (shared + [n])[..|shared|] == shared;
  }

  lemma SeparatedSubset(a: set<seq<byte>>, b: set<seq<byte>>, variant: Variant)
    requires a <= b && Separated(b, variant)
    ensures Separated(a, variant)
  {
  }

  /** A table with unique keys is its first entry and the rest. */
  lemma KeySetFront(t: Table)
    requires UniqueKeys(t) && t != []
    ensures KeySet(t) == {t[0].key} + KeySet(t[1..]) && t[0].key !in KeySet(t[1..]) && UniqueKeys(t[1..])
  {
    var rest := t[1..];
    forall k | k in KeySet(t) ensures k in {t[0].key} + KeySet(rest) {
      var j :| 0 <= j < |t| && t[j].key == k;
      if j > 0 {
        assert rest[j - 1].key == k;
      }
    }
    forall k | k in KeySet(rest) ensures k in KeySet(t) {
      var j :| 0 <= j < |rest| && rest[j].key == k;
      assert t[j + 1].key == k;
    }
    assert forall j :: 0 <= j < |rest| ==> rest[j].key == t[j + 1].key != t[0].key;
    forall i, j | 0 <= i < j < |rest| ensures rest[i].key != rest[j].key {
      assert rest[i] == t[i + 1] && rest[j] == t[j + 1];
    }
  }

  /** The bag of one key through one merge iteration and the rest of the merge. */
  lemma MergeKey(key: seq<byte>, e: Entry, inRest: bool, inLocal: bool,
                 shared: Stats, next: Stats, merged: Stats, local: Stats, rest: Stats)
    requires next == (if key == e.key then Append(shared, e.bag) else shared)
    requires merged == (if inRest then Append(next, rest) else next)
    requires local == (if e.key == key then e.bag else rest)
    requires inLocal == (key == e.key || inRest) && (key == e.key ==> !inRest)
    ensures merged == (if inLocal then Append(shared, local) else shared)
  {
  }

  /** The final `foreach` keeps the shared keys unique and adds the local
      keys to them. */
  lemma {:induction false} MergeKeySet(shared: Table, local: Table, variant: Variant)
    requires UniqueKeys(shared) && UniqueKeys(local) && Separated(KeySet(shared) + KeySet(local), variant)
    ensures UniqueKeys(Merge(shared, local, variant)) && KeySet(Merge(shared, local, variant)) == KeySet(shared) + KeySet(local)
    decreases |local|
  {
    if local == [] {
      assert KeySet(local) == {};
    } else {
      var next, rest := MergeEntry(shared, local[0], variant), local[1..];
      MergeFront(shared, local, variant);
      MergeKeySet(next, rest, variant);
    }
  }

  /** The first turn of the final `foreach`: what is left to merge after it
      still meets the conditions of the merge lemmas, with the same keys. */
  lemma MergeFront(shared: Table, local: Table, variant: Variant)
    requires UniqueKeys(shared) && UniqueKeys(local) && Separated(KeySet(shared) + KeySet(local), variant)
    requires local != []
    ensures var e, next, rest := local[0], MergeEntry(shared, local[0], variant), local[1..];
      UniqueKeys(next) && UniqueKeys(rest) && Separated(KeySet(next) + KeySet(rest), variant)
      && KeySet(next) + KeySet(rest) == KeySet(shared) + KeySet(local)
      && Merge(shared, local, variant) == Merge(next, rest, variant)
  {
    var e, rest := local[0], local[1..];
    KeySetFront(local);
    SeparatedSubset(KeySet(shared) + {e.key}, KeySet(shared) + KeySet(local), variant);
    MergeEntryKeys(shared, e, variant);
    var next := MergeEntry(shared, e, variant);
    assert KeySet(next) + KeySet(rest) == KeySet(shared) + KeySet(local);
    SeparatedSubset(KeySet(next) + KeySet(rest), KeySet(shared) + KeySet(local), variant);
  }

  /** The keys `MergeEntry` leaves. */
  lemma MergeEntryKeys(shared: Table, e: Entry, variant: Variant)
    requires UniqueKeys(shared) && Separated(KeySet(shared) + {e.key}, variant)
    ensures UniqueKeys(MergeEntry(shared, e, variant)) && KeySet(MergeEntry(shared, e, variant)) == KeySet(shared) + {e.key}
  {
    MergeEntryBags(shared, e, variant);
  }

  /** The bag the first turn of the final `foreach` leaves under one
      station. */
  lemma MergeEntryBagAt(shared: Table, local: Table, key: seq<byte>, variant: Variant)
    requires UniqueKeys(shared) && UniqueKeys(local) && Separated(KeySet(shared) + KeySet(local), variant)
    requires local != []
    ensures BagOf(MergeEntry(shared, local[0], variant), key)
         == (if key == local[0].key then Append(BagOf(shared, key), local[0].bag) else BagOf(shared, key))
  {
    KeySetFront(local);
    SeparatedSubset(KeySet(shared) + {local[0].key}, KeySet(shared) + KeySet(local), variant);
    MergeEntryBags(shared, local[0], variant);
  }

  /** A station is among the keys of a table exactly when it is the first
      key or among the rest, and the first key is not among the rest. */
  lemma FrontMembership(t: Table, key: seq<byte>)
    requires UniqueKeys(t) && t != []
    ensures key in KeySet(t) <==> key == t[0].key || key in KeySet(t[1..])
    ensures key == t[0].key ==> key !in KeySet(t[1..])
  {
    KeySetFront(t);
  }

  /** The final `foreach`: every local bag is appended to the shared bag of
      the same station, and the other shared bags are left alone. */
  lemma MergeBags(shared: Table, local: Table, variant: Variant)
    requires UniqueKeys(shared) && UniqueKeys(local) && Separated(KeySet(shared) + KeySet(local), variant)
    ensures forall key :: BagOf(Merge(shared, local, variant), key)
                          == (if key in KeySet(local) then Append(BagOf(shared, key), BagOf(local, key)) else BagOf(shared, key))
  {
    forall key ensures BagOf(Merge(shared, local, variant), key)
                       == (if key in KeySet(local) then Append(BagOf(shared, key), BagOf(local, key)) else BagOf(shared, key))
    {
      MergeBagsAt(shared, local, key, variant);
    }
  }

  /** The bag the final `foreach` leaves under one station. */
  lemma {:induction false} MergeBagsAt(shared: Table, local: Table, key: seq<byte>, variant: Variant)
    requires UniqueKeys(shared) && UniqueKeys(local) && Separated(KeySet(shared) + KeySet(local), variant)
    ensures BagOf(Merge(shared, local, variant), key)
         == (if key in KeySet(local) then Append(BagOf(shared, key), BagOf(local, key)) else BagOf(shared, key))
    decreases |local|
  {
    if local != [] {
      var e, rest := local[0], local[1..];
      var next := MergeEntry(shared, e, variant);
      MergeFront(shared, local, variant);
      MergeEntryBagAt(shared, local, key, variant);
      MergeBagsAt(next, rest, key, variant);
      BagOfFront(local, key);
      FrontMembership(local, key);
      MergeKey(key, e, key in KeySet(rest), key in KeySet(local), BagOf(shared, key), BagOf(next, key),
               BagOf(Merge(next, rest, variant), key), BagOf(local, key), BagOf(rest, key));
    }
  }

  /** Merging the dictionary of the records `b` into the dictionary of the
      records `a` gives the dictionary of `a + b`: a station's readings are
      neither lost nor counted twice, whichever worker read them. */
  lemma MergeGroups(shared: Table, a: seq<Token>, local: Table, b: seq<Token>, parse: seq<byte> -> Option<int>, variant: Variant)
    requires Groups(shared, a, parse) && Groups(local, b, parse) && Separated(Stations(a + b), variant)
    ensures Groups(Merge(shared, local, variant), a + b, parse)
  {
    StationsAppend(a, b);
    MergeKeySet(shared, local, variant);
    MergeBags(shared, local, variant);
    var m := Merge(shared, local, variant);
    forall key ensures BagOf(m, key) == OfValues(Readings(a + b, key, parse)) {
      ReadingsAppend(a, b, key, parse);
      if key in KeySet(local) {
        AppendOfValues(Readings(a, key, parse), Readings(b, key, parse));
      } else {
        ReadingsAbsent(b, key, parse);
        assert Readings(a, key, parse) + [] == Readings(a, key, parse);
      }
    }
  }
}
