/** A file on which the scan end as written loses a record: the last window
    boundary lies less than `Overlap` bytes before the end of the file and a
    record starts exactly on it. The window before the boundary is not opened
    with its overlap and stops at the boundary; the window after it skips its
    first line, as it skips the tail of a record begun in the window before. */
module BoundaryGap {
  import opened Common
  import opened Windows
  import opened Tokenizer
  import opened Tables
  import opened Sections
  import opened Grouping
  import opened FileScan

  /** The record `a;0`, one line of four bytes. */
  const Short: Token := Token([97], [48])

  /** `n` copies of `Short`. */
  function Uniform(n: nat): (recs: seq<Token>)
    ensures |recs| == n && forall i :: 0 <= i < n ==> recs[i] == Short
  {
    seq(n, _ => Short)
  }

  /** The first `m` records of `Uniform(n)` are `Uniform(m)`. */
  lemma UniformPrefix(n: nat, m: nat)
    requires m <= n
    ensures Uniform(n)[0..m] == Uniform(m)
  {
  }

  /** Record `i` of `Uniform(n)` starts at byte `4 * i`. */
  lemma {:induction false} UniformOff(n: nat, i: nat)
    requires i <= n
    ensures Off(Uniform(n), i) == 4 * i
  {
    if i > 0 {
      UniformOff(n, i - 1);
    }
  }

  /** `Uniform(n)` is a file of valid records, all lines of four bytes. */
  lemma UniformValid(n: nat)
    ensures ValidRecords(Uniform(n)) && LongLinesClear(Uniform(n))
  {
    assert ValidRecord(Short) by {
      assert Line(Short) == [97, SEMI, 48, NL];
    }
  }

  /** `Uniform(n)` holds one station, which either comparer tells apart. */
  lemma UniformSeparated(n: nat)
    ensures Separated(Stations(Uniform(n)), AsWritten) && Separated(Stations(Uniform(n)), Corrected)
  {
    var recs := Uniform(n);
    forall a, b | a in Stations(recs) && b in Stations(recs)
      ensures a == Short.key == b
    {
    }
  }

  /** The number of short records in a file whose last record starts on
      the second window's start. */
  const GapCount: nat := WindowsSize / 4 + 1

  /** Where the records of the gap file start, around the boundary. */
  lemma GapOffsets()
    ensures var recs := Uniform(GapCount);
      Off(recs, GapCount) == WindowsSize + 4 && Off(recs, GapCount - 1) == WindowsSize
      && Off(recs, GapCount - 2) == WindowsSize - 4
  {
    UniformOff(GapCount, GapCount);
    UniformOff(GapCount, GapCount - 1);
    UniformOff(GapCount, GapCount - 2);
  }

  /** Absorbing a file of short records into an empty table succeeds. */
  lemma UniformAbsorbs(n: nat, parse: seq<byte> -> Option<int>, variant: Variant) returns (t: Table)
    requires parse(Short.number).Some?
    ensures ValidRecords(Uniform(n)) && Absorb([], Uniform(n), parse, variant) == Ok(t)
  {
    UniformValid(n);
    UniformSeparated(n);
    EmptyGroups(parse);
    assert [] + Uniform(n) == Uniform(n);
    assert Parses(Uniform(n), parse);
    AbsorbGroups([], [], Uniform(n), parse, variant);
    t := Absorb([], Uniform(n), parse, variant).value;
  }

  /** As written, window 0 of the gap file reads every record but the last,
      into the table `t`. */
  lemma FirstWindow(parse: seq<byte> -> Option<int>) returns (t: Table)
    requires parse(Short.number).Some?
    ensures var recs := Uniform(GapCount);
      Section(Encode(recs), 0, [], parse, AsWritten) == Ok((t, GapCount - 1))
  {
    var n := GapCount;
    var recs := Uniform(n);
    UniformValid(n);
    FirstRange();
    SectionOfRecords(recs, 0, [], parse, AsWritten);
    UniformPrefix(n, n - 1);
    t := UniformAbsorbs(n - 1, parse, AsWritten);
  }

  /** As written, window 0 of the gap file stops before the last record. */
  lemma FirstRange()
    ensures var recs := Uniform(GapCount);
      NominalStart(0) < Off(recs, |recs|) && RangeStart(recs, 0) == 0 && RangeEnd(recs, 0, AsWritten) == GapCount - 1
  {
    var recs := Uniform(GapCount);
    GapOffsets();
    FirstUnique(recs, WindowsSize, GapCount - 1);
  }

  /** As written, window 1 of the gap file reads no record: it starts past
      the last record, which begins on its start. */
  lemma SecondWindow(t: Table, parse: seq<byte> -> Option<int>)
    ensures var recs := Uniform(GapCount);
      NominalStart(1) < |Encode(recs)| && Section(Encode(recs), 1, t, parse, AsWritten) == Ok((t, 0))
  {
    var n := GapCount;
    var recs := Uniform(n);
    UniformValid(n);
    SecondRange();
    SectionOfRecords(recs, 1, t, parse, AsWritten);
    assert recs[n..n] == [];
  }

  /** As written, window 1 of the gap file starts and stops after the last
      record. */
  lemma SecondRange()
    ensures var recs := Uniform(GapCount);
      NominalStart(1) < Off(recs, |recs|) && RangeStart(recs, 1) == GapCount && RangeEnd(recs, 1, AsWritten) == GapCount
  {
    var n := GapCount;
    var recs := Uniform(n);
    GapOffsets();
    StartStep(1);
    FirstUnique(recs, WindowsSize + 1, n);
    FirstUnique(recs, WindowsSize + 4, n);
  }

  /** As written, the worker loop over the gap file ends without error and
      counts every line but the last. */
  lemma WrittenLosesOne(parse: seq<byte> -> Option<int>)
    requires parse(Short.number).Some?
    ensures var o := Drain(Encode(Uniform(GapCount)), -1, 0, [], parse, AsWritten);
      o.error.None? && o.allLines == GapCount - 1
  {
    var n := GapCount;
    var data := Encode(Uniform(n));
    GapOffsets();
    var t := FirstWindow(parse);
    ScanOfSection(data, 0, [], parse, AsWritten);
    DrainStep(data, -1, 0, [], parse, Ok((t, n - 1)), n - 1, AsWritten);
    SecondWindow(t, parse);
    ScanOfSection(data, 1, t, parse, AsWritten);
    DrainStep(data, 0, n - 1, t, parse, Ok((t, 0)), n - 1, AsWritten);
    StartStep(1);
    DrainStop(data, 1, n - 1, t, parse, AsWritten);
  }

  /** Under the corrected variant, the worker loop over the gap file ends
      without error and counts every line. */
  lemma CorrectedCountsAll(parse: seq<byte> -> Option<int>)
    requires parse(Short.number).Some?
    ensures var o := Drain(Encode(Uniform(GapCount)), -1, 0, [], parse, Corrected);
      o.error.None? && o.allLines == GapCount
  {
    var t := UniformAbsorbs(GapCount, parse, Corrected);
    DrainOfRecords(Uniform(GapCount), parse, Corrected);
  }

  /** The file of `GapCount` short records holds a record at the gap: read
      as written, the worker loop ends without error but counts one line
      fewer than the file holds, while under the corrected variant it counts
      them all. */
  lemma LostRecord(parse: seq<byte> -> Option<int>)
    requires parse(Short.number).Some?
    ensures var recs := Uniform(GapCount);
      var written := Drain(Encode(recs), -1, 0, [], parse, AsWritten);
      var corrected := Drain(Encode(recs), -1, 0, [], parse, Corrected);
      ValidRecords(recs) && !NoRecordAtGap(recs)
      && written.error.None? && written.allLines == |recs| - 1
      && corrected.error.None? && corrected.allLines == |recs|
  {
    var recs := Uniform(GapCount);
    UniformValid(GapCount);
    GapOffsets();
    assert AtGap(Off(recs, GapCount - 1), Off(recs, |recs|));
    WrittenLosesOne(parse);
    CorrectedCountsAll(parse);
  }
}
