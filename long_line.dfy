/** A file on which the scan end as written fails: a line of the longest
    length the format allows (a 100-byte name, ';', `-99.9` and '\n', 107
    bytes) starts exactly on the second window's start. The first window is
    opened with its overlap, which reaches 106 bytes past the window: the
    search for the '\n' ending that line runs out of the view one byte short
    of it. */
module LongLine {
  import opened Common
  import opened Windows
  import opened Tokenizer
  import opened Tables
  import opened Sections
  import opened Grouping
  import opened FileScan
  import opened BoundaryGap

  /** The 100-byte station name `bb…b`. */
  function LongName(): (r: seq<byte>)
    ensures |r| == KeyCapacity && forall i :: 0 <= i < |r| ==> r[i] == 98
  {
    seq(100, _ => 98)
  }

  /** The record of the station `LongName()` and the reading `-99.9`. */
  const Long: Token := Token(LongName(), [45, 57, 57, 46, 57])

  /** `WindowsSize / 4` short records filling the first window, then `Long`
      on the second window's start. */
  function LongFile(): (recs: seq<Token>)
    ensures |recs| == WindowsSize / 4 + 1 && recs[WindowsSize / 4] == Long
    ensures recs[..WindowsSize / 4] == Uniform(WindowsSize / 4)
  {
    Uniform(WindowsSize / 4) + [Long]
  }

  /** `Long` is a record of the format, with the longest line it allows. */
  lemma LongValid()
    ensures ValidRecord(Long) && |Line(Long)| == LongestLine
    ensures forall j :: 0 <= j < |Line(Long)| ==> (Line(Long)[j] == NL <==> j == LongestLine - 1)
  {
    LineParts(Long);
    forall j | 0 <= j < |Line(Long)| ensures Line(Long)[j] == NL <==> j == LongestLine - 1 {
      LineNewline(Long, j);
    }
  }

  /** Where the records of the file start and end. */
  lemma LongFileOffsets()
    ensures var recs := LongFile(); var n := WindowsSize / 4;
      Off(recs, n) == WindowsSize && Off(recs, n + 1) == WindowsSize + LongestLine
  {
    var recs, n := LongFile(), WindowsSize / 4;
    OffPrefix(recs, n, n);
    UniformOff(n, n);
    LineParts(Long);
  }

  /** The file is made of valid records. */
  lemma LongFileValid()
    ensures ValidRecords(LongFile())
  {
    var recs, n := LongFile(), WindowsSize / 4;
    UniformValid(n);
    LongValid();
    forall i | 0 <= i < |recs| ensures ValidRecord(recs[i]) && |recs[i].key| <= KeyCapacity {
      if i < n {
        assert recs[i] == Uniform(n)[i];
      }
    }
  }

  /** Only one window boundary lies inside the file, and no record starts on
      it less than `Overlap` bytes before the end of the file. */
  lemma LongFileNoGap()
    ensures NoRecordAtGap(LongFile())
  {
    var recs, n := LongFile(), WindowsSize / 4;
    LongFileOffsets();
    forall i | 0 <= i <= |recs| ensures !AtGap(Off(recs, i), Off(recs, |recs|)) {
      if AtGap(Off(recs, i), Off(recs, |recs|)) {
        NoBoundaryAfter(Off(recs, i));
      }
    }
  }

  /** No multiple of the window size lies strictly between one and two
      window sizes. */
  lemma NoBoundaryAfter(x: nat)
    requires WindowsSize < x < 2 * WindowsSize
    ensures x % WindowsSize != 0
  {
    assert x % WindowsSize == x - WindowsSize;
  }

  /** The file is made of valid records, `Long` starting on a window boundary
      with a line longer than `Overlap`; no record starts at a window
      boundary that the overlap misses, so the file is not the one of
      `BoundaryGap`. */
  lemma LongFileShape()
    ensures var recs := LongFile();
      ValidRecords(recs) && NoRecordAtGap(recs) && !LongLinesClear(recs)
  {
    var recs, n := LongFile(), WindowsSize / 4;
    LongFileValid();
    LongFileNoGap();
    LongValid();
    LongFileOffsets();
    assert Boundary(Off(recs, n));
  }

  /** The file holds two stations, told apart by the comparer, and numbers
      that parse wherever the short and the long record's numbers do. */
  lemma LongFileStations(parse: seq<byte> -> Option<int>)
    requires parse(Short.number).Some? && parse(Long.number).Some?
    ensures Separated(Stations(LongFile()), AsWritten) && Parses(LongFile(), parse)
  {
    var recs, n := LongFile(), WindowsSize / 4;
    LongValid();
    assert Stations(Uniform(n)) == {Short.key} by {
      assert Uniform(n)[0] == Short;
    }
    assert Stations(recs) == {Short.key, Long.key} by {
      StationsAppend(Uniform(n), [Long]);
      assert Stations([Long]) == {Long.key} by {
        assert [Long][0] == Long;
      }
    }
    assert Long.key[0] == 98;
    forall i | 0 <= i < |recs| ensures parse(recs[i].number).Some? {
      if i < n {
        assert recs[i] == Uniform(n)[i];
      }
    }
  }

  /** As written, the first window runs its end on through the whole view
      without meeting a '\n', and the worker loop stops on `ReadPastView`. */
  lemma LongLineStops(parse: seq<byte> -> Option<int>)
    ensures var recs := LongFile();
      Drain(Encode(recs), -1, 0, [], parse, AsWritten).error == Some(ReadPastView)
  {
    var recs, n := LongFile(), WindowsSize / 4;
    var data := Encode(recs);
    LongValid();
    LongFileOffsets();
    assert Extends(0, |data|, AsWritten);
    ScanEndFirst(data, 0, AsWritten);
    forall i | WindowsSize <= i < WindowsSize + Overlap ensures data[i] != NL {
      ByteAt(recs, n, i);
    }
    assert ScanEnd(data, 0, AsWritten).Err?;
    ScanOfSection(data, 0, [], parse, AsWritten);
    DrainStep(data, -1, 0, [], parse, Section(data, 0, [], parse, AsWritten), 0, AsWritten);
  }

  /** The long line at the boundary: read as written, the worker loop fails
      on the file; under the corrected variant, with numbers that parse, it
      counts every line. */
  lemma LongLineLost(parse: seq<byte> -> Option<int>)
    requires parse(Short.number).Some? && parse(Long.number).Some?
    ensures var recs := LongFile();
      var written := Drain(Encode(recs), -1, 0, [], parse, AsWritten);
      var corrected := Drain(Encode(recs), -1, 0, [], parse, Corrected);
      ValidRecords(recs) && NoRecordAtGap(recs)
      && written.error == Some(ReadPastView)
      && corrected.error.None? && corrected.allLines == |recs|
  {
    LongFileShape();
    LongLineStops(parse);
    LongFileStations(parse);
    ProcessFile(LongFile(), parse, Corrected);
  }
}
