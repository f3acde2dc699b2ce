/** Two stations of which one name is a prefix of the other, "abcd" and
    "abcde". Their hash codes agree (the hash folds in four bytes at most),
    and as written `BagKeyComparer.Equals` calls them equal: read after
    "abcd", the readings of "abcde" go into the bag of "abcd"; read before
    it, "abcde" makes the `Add` of "abcd" throw. The corrected comparison
    keeps them apart. */
module PrefixKeys {
  import opened Common
  import opened Windows
  import opened Aggregate
  import opened KeyComparer
  import opened Tokenizer
  import opened Tables
  import opened Sections
  import opened Grouping
  import opened FileScan

  const Abcd: seq<byte> := [97, 98, 99, 100]
  const Abcde: seq<byte> := [97, 98, 99, 100, 101]

  /** The file "abcd;1\nabcde;2\n". */
  const ShortFirst: seq<Token> := [Token(Abcd, [49]), Token(Abcde, [50])]

  /** The file "abcde;1\nabcd;2\n". */
  const LongFirst: seq<Token> := [Token(Abcde, [49]), Token(Abcd, [50])]

  /** Both names, and the station buffers holding them, hash alike. */
  lemma SameHash()
    ensures Hash(Abcd) == Hash(Abcde) == Hash(Pad(Abcd)) == Hash(Pad(Abcde))
    ensures Hash(Abcd).Ok?
  {
    assert HashLength(Abcd, 1) == 4;
    assert HashLength(Abcde, 1) == 4;
    assert Abcd[..4] == Abcde[..4];
    HashOfPadded(Abcd, KeyCapacity - |Abcd|);
    HashOfPadded(Abcde, KeyCapacity - |Abcde|);
  }

  /** As written, the stored "abcd" matches the buffer holding "abcde"; the
      stored "abcde" does not match the buffer holding "abcd" but matches
      the key "abcd" itself. Corrected, neither matches. */
  lemma PrefixMatches()
    ensures Matches(Abcd, Pad(Abcde), AsWritten)
    ensures !Matches(Abcde, Pad(Abcd), AsWritten) && Matches(Abcde, Abcd, AsWritten)
    ensures !Matches(Abcd, Pad(Abcde), Corrected) && !Matches(Abcde, Abcd, Corrected)
  {
    SameHash();
    assert Pad(Abcd)[4] == 0;
    assert Pad(Abcde)[..5] == Abcde;
    KeyPartOfPadded(Abcde, KeyCapacity - |Abcde|);
    KeyPartOfPadded(Abcd, 0);
    KeyPartOfPadded(Abcde, 0);
    assert Abcd + Zeros(0) == Abcd && Abcde + Zeros(0) == Abcde;
  }

  /** Both files are valid and end before the first window boundary. */
  lemma FilesValid()
    ensures ValidRecords(ShortFirst) && WrittenSafe(ShortFirst)
    ensures ValidRecords(LongFirst) && WrittenSafe(LongFirst)
  {
    FileValid(ShortFirst);
    FileValid(LongFirst);
  }

  /** A file of the two stations, one reading each, is valid and lies
      inside the first window. */
  lemma FileValid(recs: seq<Token>)
    requires recs == ShortFirst || recs == LongFirst
    ensures ValidRecords(recs) && WrittenSafe(recs)
  {
    assert |recs[0].key| + |recs[0].number| + |recs[1].key| + |recs[1].number| == 11;
    assert Off(recs, 0) == 0;
    assert Off(recs, 2) == 15;
    InsideFirstWindow(recs);
  }

  /** A file shorter than a window has no record on a window boundary. */
  lemma InsideFirstWindow(recs: seq<Token>)
    requires Off(recs, |recs|) < WindowsSize
    ensures WrittenSafe(recs)
  {
    forall i | 0 <= i <= |recs|
      ensures !Boundary(Off(recs, i)) && !AtGap(Off(recs, i), Off(recs, |recs|))
    {
      OffGrows(recs, i, |recs|);
      NotBoundary(Off(recs, i));
    }
  }

  /** No position inside the first window is a window boundary. */
  lemma NotBoundary(x: nat)
    requires x < WindowsSize
    ensures !Boundary(x)
  {
    assert x % WindowsSize == x;
  }

  /** The first dictionary step on an empty table adds the token's key. */
  lemma FirstStep(tok: Token, v: int, parse: seq<byte> -> Option<int>)
    requires 0 < |tok.key| <= KeyCapacity && parse(tok.number) == Some(v)
    ensures Step([], tok, parse, AsWritten) == Ok([Entry(tok.key, Add(Empty, v))])
  {
    assert FindLatest([], Pad(tok.key), AsWritten).None? && FindLatest([], tok.key, AsWritten).None?;
    assert [] + [Entry(tok.key, Add(Empty, v))] == [Entry(tok.key, Add(Empty, v))];
  }

  /** As written, the dictionary step for "abcde" after "abcd" finds the
      entry of "abcd". */
  lemma ShortFirstAbsorbs(parse: seq<byte> -> Option<int>)
    requires parse([49]) == Some(1) && parse([50]) == Some(2)
    ensures Absorb([], ShortFirst, parse, AsWritten) == Ok([Entry(Abcd, Add(Add(Empty, 1), 2))])
  {
    var t := [Entry(Abcd, Add(Empty, 1))];
    FirstStep(ShortFirst[0], 1, parse);
    ShortSecondStep(parse);
    var t2 := [Entry(Abcd, Add(Add(Empty, 1), 2))];
    assert [ShortFirst[1]][1..] == [];
    assert Absorb(t, [ShortFirst[1]], parse, AsWritten) == Absorb(t2, [], parse, AsWritten);
    assert ShortFirst[1..] == [ShortFirst[1]];
  }

  /** The second step of `ShortFirst`, as written. */
  lemma ShortSecondStep(parse: seq<byte> -> Option<int>)
    requires parse([50]) == Some(2)
    ensures Step([Entry(Abcd, Add(Empty, 1))], ShortFirst[1], parse, AsWritten) == Ok([Entry(Abcd, Add(Add(Empty, 1), 2))])
  {
    var t := [Entry(Abcd, Add(Empty, 1))];
    WrittenMatchesLonger();
    assert ShortFirst[1] == Token(Abcde, [50]);
    assert FindLatest(t, Pad(Abcde), AsWritten) == Some(0);
    assert Record(t, Pad(Abcde), Abcde, 2, AsWritten) == Ok(t[0 := Entry(Abcd, Add(Add(Empty, 1), 2))]);
    assert t[0 := Entry(Abcd, Add(Add(Empty, 1), 2))] == [Entry(Abcd, Add(Add(Empty, 1), 2))];
  }

  /** As written, the stored "abcd" matches the buffer holding "abcde". */
  lemma WrittenMatchesLonger()
    ensures Matches(Abcd, Pad(Abcde), AsWritten)
  {
    PrefixMatches();
  }

  /** As written, the stored "abcde" misses the buffer holding "abcd" and
      matches the key "abcd". */
  lemma WrittenMatchesShorter()
    ensures !Matches(Abcde, Pad(Abcd), AsWritten) && Matches(Abcde, Abcd, AsWritten)
  {
    PrefixMatches();
  }

  /** As written, "abcde" read after "abcd" is counted as "abcd": the
      dictionary holds one entry, of "abcd", with both readings. */
  lemma ShortFirstMerged(parse: seq<byte> -> Option<int>)
    requires parse([49]) == Some(1) && parse([50]) == Some(2)
    ensures var o := Drain(Encode(ShortFirst), -1, 0, [], parse, AsWritten);
      o.error.None? && o.allLines == 2 && o.local == [Entry(Abcd, Add(Add(Empty, 1), 2))]
  {
    FileValid(ShortFirst);
    ShortFirstAbsorbs(parse);
    DrainOfRecords(ShortFirst, parse, AsWritten);
  }

  /** As written, the dictionary step for "abcd" after "abcde" misses the
      buffer lookup and fails on the `Add`. */
  lemma LongFirstAbsorbs(parse: seq<byte> -> Option<int>)
    requires parse([49]) == Some(1)
    ensures Absorb([], LongFirst, parse, AsWritten) == Err(DuplicateKey)
  {
    FirstStep(LongFirst[0], 1, parse);
    LongSecondStep(parse);
    assert LongFirst[1..] == [LongFirst[1]];
  }

  /** The second step of `LongFirst`, as written, whatever its number. */
  lemma LongSecondStep(parse: seq<byte> -> Option<int>)
    ensures Step([Entry(Abcde, Add(Empty, 1))], LongFirst[1], parse, AsWritten) == Err(DuplicateKey)
  {
    var t := [Entry(Abcde, Add(Empty, 1))];
    WrittenMatchesShorter();
    assert FindLatest(t, Pad(Abcd), AsWritten).None?;
    assert FindLatest(t, Abcd, AsWritten) == Some(0);
  }

  /** As written, "abcd" read after "abcde" makes its `Add` find "abcde"
      equal: the worker stops on a duplicate key. */
  lemma LongFirstClash(parse: seq<byte> -> Option<int>)
    requires parse([49]) == Some(1)
    ensures Drain(Encode(LongFirst), -1, 0, [], parse, AsWritten).error == Some(DuplicateKey)
  {
    FileValid(LongFirst);
    LongFirstAbsorbs(parse);
    DrainOfRecords(LongFirst, parse, AsWritten);
  }

  /** The two files as written and corrected: as written one merges the
      stations and the other fails; corrected, both keep one entry per
      station with exactly its readings. */
  lemma PrefixKeysConfused(parse: seq<byte> -> Option<int>)
    requires parse([49]) == Some(1) && parse([50]) == Some(2)
    ensures var written := Drain(Encode(ShortFirst), -1, 0, [], parse, AsWritten);
      |written.local| == 1 && written.local[0].key == Abcd && written.local[0].bag.count == 2
    ensures Drain(Encode(LongFirst), -1, 0, [], parse, AsWritten).error == Some(DuplicateKey)
    ensures var c1 := Drain(Encode(ShortFirst), -1, 0, [], parse, Corrected);
      c1.error.None? && c1.allLines == 2 && Groups(c1.local, ShortFirst, parse)
    ensures var c2 := Drain(Encode(LongFirst), -1, 0, [], parse, Corrected);
      c2.error.None? && c2.allLines == 2 && Groups(c2.local, LongFirst, parse)
  {
    ShortFirstMerged(parse);
    LongFirstClash(parse);
    FilesValid();
    assert Parses(ShortFirst, parse) && Parses(LongFirst, parse);
    ProcessFileCorrected(ShortFirst, parse);
    ProcessFileCorrected(LongFirst, parse);
  }
}
