/** A file made of well-formed records, and what the worker loop makes of it:
    the records each window reads, how the windows' records join up, and the
    whole run of `Process` over such a file. */
module FileScan {
  import opened Common
  import opened Aggregate
  import opened Windows
  import opened Tokenizer
  import opened Tables
  import opened Sections
  import opened Grouping

  /** The file holding the records `recs`, one line each. */
  function Encode(recs: seq<Token>): (r: seq<byte>)
    ensures |r| == Off(recs, |recs|)
  {
    if recs == [] then []
    else
      var n := |recs| - 1;
      OffPrefix(recs, n, n);
      LineParts(recs[n]);
      Encode(recs[..n]) + Line(recs[n])
  }

  /** Where record `i` starts in the file (and record `i - 1` ends): the
      lines before it, each its name, its number and two delimiters long. */
  function Off(recs: seq<Token>, i: nat): nat
    requires i <= |recs|
  {
    if i == 0 then 0 else Off(recs, i - 1) + |recs[i - 1].key| + |recs[i - 1].number| + 2
  }

  /** A record of the input format as the program expects it: a station
      name, no ';' or '\n' inside the name, no '\n' inside the number, and a
      line no longer than the longest line of the format. */
  predicate ValidRecord(r: Token)
  {
    StationKey(r.key) && SEMI !in r.key && NL !in r.key
    && |r.number| <= NumberCapacity && NL !in r.number
    && |Line(r)| <= LongestLine
  }

  predicate ValidRecords(recs: seq<Token>)
  {
    (forall i {:trigger ValidRecord(recs[i])} :: 0 <= i < |recs| ==> ValidRecord(recs[i]))
    && forall i :: 0 <= i < |recs| ==> |recs[i].key| <= KeyCapacity
  }

  lemma {:induction false} OffPrefix(recs: seq<Token>, m: nat, j: nat)
    requires j <= m <= |recs|
    ensures Off(recs[..m], j) == Off(recs, j)
  {
    if j > 0 {
      OffPrefix(recs, m, j - 1);
      assert recs[..m][j - 1] == recs[j - 1];
    }
  }

  /** Record `i` sits between its offset and the next one. */
  lemma {:induction false} LineAt(recs: seq<Token>, i: nat)
    requires i < |recs|
    ensures Off(recs, i + 1) <= |Encode(recs)|
    ensures Encode(recs)[Off(recs, i)..Off(recs, i + 1)] == Line(recs[i])
  {
    var n := |recs| - 1;
    var init := recs[..n];
    OffPrefix(recs, n, n);
    LineParts(recs[i]);
    assert Encode(recs) == Encode(init) + Line(recs[n]);
    if i < n {
      LineAt(init, i);
      OffPrefix(recs, n, i);
      OffPrefix(recs, n, i + 1);
      assert init[i] == recs[i];
      OffGrows(recs, i + 1, n);
      SliceOfFront(Encode(init), Line(recs[n]), Off(recs, i), Off(recs, i + 1));
    } else {
      SliceOfBack(Encode(init), Line(recs[n]));
    }
  }

  lemma {:induction false} SliceOfFront(u: seq<byte>, v: seq<byte>, lo: nat, hi: nat)
    requires lo <= hi <= |u|
    ensures (u + v)[lo..hi] == u[lo..hi]
  {
  }

  lemma {:induction false} SliceOfBack(u: seq<byte>, v: seq<byte>)
    ensures (u + v)[|u|..|u| + |v|] == v
  {
  }

  /** Offsets grow by at least two bytes a record. */
  lemma {:induction false} OffGrows(recs: seq<Token>, i: nat, j: nat)
    requires i <= j <= |recs|
    ensures Off(recs, i) + 2 * (j - i) <= Off(recs, j)
    decreases j - i
  {
    if i < j {
      OffGrows(recs, i, j - 1);
    }
  }

  /** Inside record `i`, the byte at `x` is the matching byte of its line. */
  lemma {:induction false} ByteAt(recs: seq<Token>, i: nat, x: nat)
    requires i < |recs| && Off(recs, i) <= x < Off(recs, i + 1)
    ensures x < |Encode(recs)| && Encode(recs)[x] == Line(recs[i])[x - Off(recs, i)]
  {
    LineAt(recs, i);
    assert Encode(recs)[x] == Encode(recs)[Off(recs, i)..Off(recs, i + 1)][x - Off(recs, i)];
  }

  /** The only '\n' of a valid record's line is its last byte. */
  lemma {:induction false} LineNewline(r: Token, j: nat)
    requires ValidRecord(r) && j < |Line(r)|
    ensures Line(r)[j] == NL <==> j == |Line(r)| - 1
    ensures j == 0 ==> Line(r)[j] != 0
  {
    LineParts(r);
    var k, n := |r.key|, |r.number|;
    if j < k {
      assert Line(r)[j] == r.key[j];
    } else if k < j < k + 1 + n {
      assert Line(r)[j] == Line(r)[k + 1..k + 1 + n][j - k - 1] == r.number[j - k - 1];
    }
  }

  /** From any byte of record `i`, the scan for '\n' stops at the record's
      last byte. */
  lemma {:induction false} FindNewline(recs: seq<Token>, i: nat, from: nat, viewEnd: nat)
    requires ValidRecords(recs) && i < |recs|
    requires Off(recs, i) <= from < Off(recs, i + 1) <= viewEnd <= |Encode(recs)|
    ensures FindByte(Encode(recs), from, viewEnd, NL) == Ok(Off(recs, i + 1) - 1)
    decreases Off(recs, i + 1) - from
  {
    ByteAt(recs, i, from);
    LineNewline(recs[i], from - Off(recs, i));
    if from < Off(recs, i + 1) - 1 {
      FindNewline(recs, i, from + 1, viewEnd);
    }
  }

  /** The first record that starts at or after `x`. */
  function First(recs: seq<Token>, x: nat): (i: nat)
    requires x <= Off(recs, |recs|)
    ensures i <= |recs| && x <= Off(recs, i) && (i > 0 ==> Off(recs, i - 1) < x)
  {
    FirstBelow(recs, x, |recs|)
  }

  function FirstBelow(recs: seq<Token>, x: nat, n: nat): (i: nat)
    requires n <= |recs| && x <= Off(recs, n)
    ensures i <= n && x <= Off(recs, i) && (i > 0 ==> Off(recs, i - 1) < x)
  {
    if n == 0 || Off(recs, n - 1) < x then n else FirstBelow(recs, x, n - 1)
  }

  /** `First` is the only index with its defining property. */
  lemma {:induction false} FirstUnique(recs: seq<Token>, x: nat, i: nat)
    requires i <= |recs| && x <= Off(recs, i) && (i > 0 ==> Off(recs, i - 1) < x)
    ensures x <= Off(recs, |recs|) && First(recs, x) == i
  {
    OffGrows(recs, i, |recs|);
    var f := First(recs, x);
    if f < i {
      OffGrows(recs, f, i - 1);
    } else if f > i {
      OffGrows(recs, i, f - 1);
    }
  }

  lemma {:induction false} FirstMonotone(recs: seq<Token>, x: nat, y: nat)
    requires x <= y <= Off(recs, |recs|)
    ensures First(recs, x) <= First(recs, y)
  {
    var fx, fy := First(recs, x), First(recs, y);
    if fx > fy {
      OffGrows(recs, fy, fx - 1);
    }
  }

  /** The first record window `k` reads: the first one for window 0, else
      the one after the record holding the window's first byte. */
  function RangeStart(recs: seq<Token>, k: nat): (a: nat)
    requires NominalStart(k) < Off(recs, |recs|)
    ensures a <= |recs|
  {
    if k == 0 then 0 else First(recs, NominalStart(k) + 1)
  }

  /** One past the last record window `k` reads under the end variant `variant`:
      running on, the record holding the byte after the window; otherwise
      it, the records that start before the window's nominal end. */
  function RangeEnd(recs: seq<Token>, k: nat, variant: Variant): (b: nat)
    requires NominalStart(k) < Off(recs, |recs|)
    ensures b <= |recs|
  {
    var size := Off(recs, |recs|);
    if RunsOn(variant, NominalStart(k), size) then
      assert NominalEnd(k, size) == NominalStart(k) + WindowsSize;
      First(recs, NominalEnd(k, size) + 1)
    else Max(RangeStart(recs, k), First(recs, NominalEnd(k, size)))
  }

  /** The first record of window `k`, or the number of records for a window
      past the end of the file. */
  function Bound(recs: seq<Token>, k: nat): (a: nat)
    ensures a <= |recs|
  {
    if NominalStart(k) < Off(recs, |recs|) then RangeStart(recs, k) else |recs|
  }

  /** The records of `recs` from `a` up to `b`, read from their offsets, are
      exactly the tokens of the range up to `end`. */
  lemma TokensOfRecords(recs: seq<Token>, viewEnd: nat, a: nat, b: nat, end: nat)
    requires ValidRecords(recs) && a <= b <= |recs|
    requires end <= viewEnd <= |Encode(recs)| && Off(recs, b) <= viewEnd
    requires a < b ==> Off(recs, b - 1) < end
    requires end <= Off(recs, b)
    ensures Tokens(Encode(recs), viewEnd, Off(recs, a), end) == Ok(recs[a..b])
  {
    forall i | a <= i < b
      ensures ReadsRecordAt(Encode(recs), viewEnd, recs, i)
    {
      OffGrows(recs, i + 1, b);
      RecordAt(recs, viewEnd, i);
    }
    TokensOfReads(Encode(recs), viewEnd, recs, a, b, end);
  }

  /** Record `i` of `recs` is read back, whole, from its offset in `data`. */
  predicate ReadsRecordAt(data: seq<byte>, viewEnd: nat, recs: seq<Token>, i: nat)
  {
    i < |recs| && viewEnd <= |data| && Off(recs, i) < |data| && data[Off(recs, i)] != 0
    && ReadRecord(data, viewEnd, Off(recs, i)) == Ok((recs[i], Off(recs, i + 1)))
  }

  /** Where every record from `a` up to `b` is read back from its offset,
      tokenizing from the offset of `a` up to `end` gives those records. */
  lemma {:induction false} TokensOfReads(data: seq<byte>, viewEnd: nat, recs: seq<Token>, a: nat, b: nat, end: nat)
    requires a <= b <= |recs| && end <= viewEnd <= |data|
    requires forall i :: a <= i < b ==> ReadsRecordAt(data, viewEnd, recs, i)
    requires a < b ==> Off(recs, b - 1) < end
    requires end <= Off(recs, b)
    ensures Tokens(data, viewEnd, Off(recs, a), end) == Ok(recs[a..b])
    decreases b - a
  {
    if a < b {
      OffGrows(recs, a, b - 1);
      TokensOfReads(data, viewEnd, recs, a + 1, b, end);
      SplitFirst(recs, a, b);
      TokensStepAt(data, viewEnd, recs, a, end, recs[a + 1..b]);
    } else {
      assert recs[a..b] == [];
    }
  }

  /** `TokensStep` for a record read back from its offset. */
  lemma TokensStepAt(data: seq<byte>, viewEnd: nat, recs: seq<Token>, a: nat, end: nat, ts: seq<Token>)
    requires end <= viewEnd && ReadsRecordAt(data, viewEnd, recs, a) && Off(recs, a) < end
    requires Tokens(data, viewEnd, Off(recs, a + 1), end) == Ok(ts)
    ensures Tokens(data, viewEnd, Off(recs, a), end) == Ok([recs[a]] + ts)
  {
    TokensStep(data, viewEnd, Off(recs, a), end, recs[a], Off(recs, a + 1), ts);
  }

  /** Record `a` is read back from its offset in the file. */
  lemma RecordAt(recs: seq<Token>, viewEnd: nat, a: nat)
    requires ValidRecords(recs) && a < |recs|
    requires Off(recs, a + 1) <= viewEnd <= |Encode(recs)|
    ensures ReadsRecordAt(Encode(recs), viewEnd, recs, a)
  {
    LineAt(recs, a);
    assert ValidRecord(recs[a]);
    ReadsOfLine(Encode(recs), viewEnd, recs, a);
  }

  /** Where the line of record `a` sits at its offset in `data`, inside the
      view, the record is read back from there. */
  lemma ReadsOfLine(data: seq<byte>, viewEnd: nat, recs: seq<Token>, a: nat)
    requires a < |recs| && ValidRecord(recs[a]) && |recs[a].key| <= KeyCapacity
    requires Off(recs, a + 1) <= viewEnd <= |data|
    requires data[Off(recs, a)..Off(recs, a + 1)] == Line(recs[a])
    ensures ReadsRecordAt(data, viewEnd, recs, a)
  {
    var p := Off(recs, a);
    LineParts(recs[a]);
    LineNewline(recs[a], 0);
    assert data[p] == Line(recs[a])[0];
    ReadRecordOfLine(data, viewEnd, p, recs[a]);
  }

  lemma {:induction false} SplitFirst(recs: seq<Token>, a: nat, b: nat)
    requires a < b <= |recs|
    ensures recs[a..b] == [recs[a]] + recs[a + 1..b]
  {
  }

  /** The trimmed start of window `k` is the offset of its first record. */
  lemma {:induction false} ScanStartOfRecords(recs: seq<Token>, k: nat, variant: Variant)
    requires ValidRecords(recs) && NominalStart(k) < |Encode(recs)|
    ensures ScanStart(Encode(recs), NominalStart(k), variant) == Ok(Off(recs, RangeStart(recs, k)))
  {
    var start := NominalStart(k);
    if start != 0 {
      NewlineAfterStart(recs, k, variant);
      ScanStartAt(Encode(recs), start, variant, Off(recs, RangeStart(recs, k)) - 1);
    }
  }

  /** From a later window's start, the first '\n' in the view is the one
      ending the record the start falls in. */
  lemma NewlineAfterStart(recs: seq<Token>, k: nat, variant: Variant)
    requires ValidRecords(recs) && NominalStart(k) < |Encode(recs)| && NominalStart(k) != 0
    ensures var start := NominalStart(k);
      FindByte(Encode(recs), start, ViewEnd(start, |Encode(recs)|, variant), NL) == Ok(Off(recs, RangeStart(recs, k)) - 1)
  {
    var a, start := RangeStart(recs, k), NominalStart(k);
    StartInRecord(recs, k, variant);
    FindNewline(recs, a - 1, start, ViewEnd(start, |Encode(recs)|, variant));
  }

  /** A later window's start moves to one past the first '\n' the view
      holds from it on. */
  lemma ScanStartAt(data: seq<byte>, start: nat, variant: Variant, j: nat)
    requires start != 0 && FindByte(data, start, ViewEnd(start, |data|, variant), NL) == Ok(j)
    ensures ScanStart(data, start, variant) == Ok(j + 1)
  {
  }

  /** A later window starts inside the record before its first one, and the
      view holds the rest of that record. */
  lemma StartInRecord(recs: seq<Token>, k: nat, variant: Variant)
    requires ValidRecords(recs) && NominalStart(k) < |Encode(recs)| && NominalStart(k) != 0
    ensures var a := RangeStart(recs, k); var start := NominalStart(k);
      0 < a && Off(recs, a - 1) <= start < Off(recs, a) <= ViewEnd(start, |Encode(recs)|, variant)
  {
    var start := NominalStart(k);
    assert k != 0;
    var a := First(recs, start + 1);
    assert RangeStart(recs, k) == a;
    FirstAfter(recs, start + 1);
    LineFits(recs, a - 1);
    OffGrows(recs, a, |recs|);
  }

  /** A position past the start of the file lies past the start of the
      record before the first record at or after it. */
  lemma FirstAfter(recs: seq<Token>, x: nat)
    requires 0 < x <= Off(recs, |recs|)
    ensures 0 < First(recs, x) && Off(recs, First(recs, x) - 1) < x <= Off(recs, First(recs, x))
  {
  }

  /** A record's line is no longer than the longest line of the format. */
  lemma LineFits(recs: seq<Token>, i: nat)
    requires ValidRecords(recs) && i < |recs|
    ensures Off(recs, i + 1) <= Off(recs, i) + LongestLine
  {
    assert ValidRecord(recs[i]);
    LineParts(recs[i]);
  }

  /** Window `k` reads exactly the records from `RangeStart` to `RangeEnd`. */
  lemma {:induction false} SectionOfRecords(recs: seq<Token>, k: nat, t: Table, parse: seq<byte> -> Option<int>, variant: Variant)
    requires ValidRecords(recs) && NominalStart(k) < |Encode(recs)|
    requires variant.Corrected? || LongLinesClear(recs)
    ensures ReadsRange(recs, k, t, parse, RangeStart(recs, k), RangeEnd(recs, k, variant), variant)
  {
    var end := TrimmedEnd(recs, k, variant);
    SectionOfRange(recs, k, t, parse, RangeStart(recs, k), RangeEnd(recs, k, variant), end, variant);
  }

  /** The trimmed range of window `k` fits the records from `RangeStart` to
      `RangeEnd`; the result is where the range ends. */
  lemma {:induction false} TrimmedEnd(recs: seq<Token>, k: nat, variant: Variant) returns (end: nat)
    requires ValidRecords(recs) && NominalStart(k) < |Encode(recs)|
    requires variant.Corrected? || LongLinesClear(recs)
    ensures RangeFits(recs, k, RangeStart(recs, k), RangeEnd(recs, k, variant), end, variant)
  {
    if RunsOn(variant, NominalStart(k), |Encode(recs)|) {
      ExtendedFits(recs, k, variant);
      end := Off(recs, RangeEnd(recs, k, variant)) - 1;
      assert RangeFits(recs, k, RangeStart(recs, k), RangeEnd(recs, k, variant), end, variant);
    } else {
      ShortFits(recs, k, variant);
      end := NominalEnd(k, |Encode(recs)|);
      assert RangeFits(recs, k, RangeStart(recs, k), RangeEnd(recs, k, variant), end, variant);
    }
  }

  /** Running on, window `k`'s trimmed range fits the records from
      `RangeStart` to `RangeEnd`. */
  lemma {:induction false} ExtendedFits(recs: seq<Token>, k: nat, variant: Variant)
    requires ValidRecords(recs) && NominalStart(k) < |Encode(recs)| && RunsOn(variant, NominalStart(k), |Encode(recs)|)
    requires variant.Corrected? || LongLinesClear(recs)
    ensures 0 < RangeEnd(recs, k, variant) && 0 < Off(recs, RangeEnd(recs, k, variant))
    ensures RangeFits(recs, k, RangeStart(recs, k), RangeEnd(recs, k, variant), Off(recs, RangeEnd(recs, k, variant)) - 1, variant)
  {
    ScanStartOfRecords(recs, k, variant);
    ExtendedRange(recs, k, variant);
    ExtendedEnd(recs, k, variant);
  }

  /** Running on, window `k` ends on the '\n' of record `RangeEnd - 1`. */
  lemma {:induction false} ExtendedEnd(recs: seq<Token>, k: nat, variant: Variant)
    requires ValidRecords(recs) && NominalStart(k) < |Encode(recs)| && RunsOn(variant, NominalStart(k), |Encode(recs)|)
    requires variant.Corrected? || LongLinesClear(recs)
    ensures 0 < RangeEnd(recs, k, variant)
    ensures ScanEnd(Encode(recs), k, variant) == Ok(Off(recs, RangeEnd(recs, k, variant)) - 1)
  {
    var b := RangeEnd(recs, k, variant);
    var size := |Encode(recs)|;
    LastOfExtended(recs, k, variant);
    NewlineEnds(recs, NominalEnd(k, size), ViewEnd(NominalStart(k), size, variant), b);
    ScanEndExtended(Encode(recs), k, variant, Off(recs, b) - 1);
  }

  /** From a byte of record `b - 1` on, the first '\n' in a view holding
      that record is the one ending it. */
  lemma NewlineEnds(recs: seq<Token>, x: nat, viewEnd: nat, b: nat)
    requires ValidRecords(recs) && 0 < b <= |recs|
    requires Off(recs, b - 1) <= x < Off(recs, b) <= viewEnd <= |Encode(recs)|
    ensures FindByte(Encode(recs), x, viewEnd, NL) == Ok(Off(recs, b) - 1)
  {
    var i := b - 1;
    assert i + 1 == b;
    FindNewline(recs, i, x, viewEnd);
  }

  /** Not running on, window `k`'s trimmed range fits the records from
      `RangeStart` to `RangeEnd`. */
  lemma {:induction false} ShortFits(recs: seq<Token>, k: nat, variant: Variant)
    requires ValidRecords(recs) && NominalStart(k) < |Encode(recs)| && !RunsOn(variant, NominalStart(k), |Encode(recs)|)
    ensures RangeFits(recs, k, RangeStart(recs, k), RangeEnd(recs, k, variant), NominalEnd(k, |Encode(recs)|), variant)
  {
    ScanStartOfRecords(recs, k, variant);
    ShortRange(recs, k, variant);
    ScanEndShort(Encode(recs), k, variant);
  }

  /** Running on, window `k` stops on the '\n' ending record
      `RangeEnd - 1`, the record holding the byte after the window. */
  lemma {:induction false} ExtendedRange(recs: seq<Token>, k: nat, variant: Variant)
    requires ValidRecords(recs) && NominalStart(k) < Off(recs, |recs|)
    requires variant.Corrected? || LongLinesClear(recs)
    requires RunsOn(variant, NominalStart(k), Off(recs, |recs|))
    ensures var a, b := RangeStart(recs, k), RangeEnd(recs, k, variant);
      var x := NominalEnd(k, Off(recs, |recs|));
      0 < b && a <= b && Off(recs, b - 1) <= x < Off(recs, b)
      && Off(recs, b) <= ViewEnd(NominalStart(k), Off(recs, |recs|), variant)
      && (a < b ==> Off(recs, b - 1) < Off(recs, b) - 1)
  {
    var size := Off(recs, |recs|);
    var start := NominalStart(k);
    var a, b := RangeStart(recs, k), RangeEnd(recs, k, variant);
    var x := NominalEnd(k, size);
    assert x == start + WindowsSize;
    assert b == First(recs, x + 1);
    if k > 0 {
      FirstMonotone(recs, start + 1, x + 1);
      assert a == First(recs, start + 1);
    }
    LastOfExtended(recs, k, variant);
  }

  /** Running on, the last record window `k` reads holds the byte
      after the window and ends inside the view. */
  lemma {:induction false} LastOfExtended(recs: seq<Token>, k: nat, variant: Variant)
    requires ValidRecords(recs) && NominalStart(k) < Off(recs, |recs|)
    requires variant.Corrected? || LongLinesClear(recs)
    requires RunsOn(variant, NominalStart(k), Off(recs, |recs|))
    ensures 0 < RangeEnd(recs, k, variant)
    ensures Off(recs, RangeEnd(recs, k, variant) - 1) <= NominalEnd(k, Off(recs, |recs|)) < Off(recs, RangeEnd(recs, k, variant))
    ensures Off(recs, RangeEnd(recs, k, variant)) <= ViewEnd(NominalStart(k), Off(recs, |recs|), variant)
    ensures Off(recs, RangeEnd(recs, k, variant) - 1) < Off(recs, RangeEnd(recs, k, variant)) - 1
  {
    var start, x := NominalStart(k), NominalEnd(k, Off(recs, |recs|));
    assert x == start + WindowsSize && Boundary(x) && RangeEnd(recs, k, variant) == First(recs, x + 1) by {
      RunsOnEnd(recs, k, variant);
      StartStep(k + 1);
    }
    RecordAcross(recs, x);
    ViewHolds(recs, start, x, variant);
  }

  /** Running on, a window's nominal end lies a full window past its start,
      and its range ends after the record holding that byte. */
  lemma RunsOnEnd(recs: seq<Token>, k: nat, variant: Variant)
    requires NominalStart(k) < Off(recs, |recs|) && RunsOn(variant, NominalStart(k), Off(recs, |recs|))
    ensures NominalEnd(k, Off(recs, |recs|)) == NominalStart(k) + WindowsSize
    ensures RangeEnd(recs, k, variant) == First(recs, NominalEnd(k, Off(recs, |recs|)) + 1)
  {
  }

  /** The record holding the byte after a window that runs on ends inside
      the window's view. */
  lemma ViewHolds(recs: seq<Token>, start: nat, x: nat, variant: Variant)
    requires ValidRecords(recs) && x == start + WindowsSize && Boundary(x) && x < Off(recs, |recs|)
    requires variant.Corrected? || LongLinesClear(recs)
    ensures Off(recs, First(recs, x + 1)) <= ViewEnd(start, Off(recs, |recs|), variant)
  {
    var size := Off(recs, |recs|);
    RecordAcross(recs, x);
    var f := First(recs, x + 1);
    if !Extends(start, size, variant) {
      OffGrows(recs, f, |recs|);
    } else {
      var i := f - 1;
      assert i + 1 == f && Off(recs, i) <= x;
      LineInView(recs, i, x, variant);
    }
  }

  /** The record holding byte `x` starts at or before it and ends after it,
      with at least one byte before its '\n'. */
  lemma RecordAcross(recs: seq<Token>, x: nat)
    requires ValidRecords(recs) && x < Off(recs, |recs|)
    ensures 0 < First(recs, x + 1)
    ensures Off(recs, First(recs, x + 1) - 1) <= x < Off(recs, First(recs, x + 1))
    ensures Off(recs, First(recs, x + 1) - 1) < Off(recs, First(recs, x + 1)) - 1
  {
    var f := First(recs, x + 1);
    FirstAfter(recs, x + 1);
    var i := f - 1;
    assert Off(recs, i + 1) == Off(recs, f);
    LineParts(recs[i]);
    assert ValidRecord(recs[i]);
  }

  /** A line starting at or before the window boundary `x` ends within
      `Reach(variant)` bytes past it. */
  lemma LineInView(recs: seq<Token>, i: nat, x: nat, variant: Variant)
    requires ValidRecords(recs) && i < |recs| && Off(recs, i) <= x && Boundary(x)
    requires variant.Corrected? || LongLinesClear(recs)
    ensures Off(recs, i + 1) <= x + Reach(variant)
  {
    LineFits(recs, i);
    if variant.AsWritten? && Off(recs, i) == x {
      assert |Line(recs[i])| <= Overlap;
      LineParts(recs[i]);
    }
  }

  /** Not running on, window `k` stops at its nominal end: it reads the
      records that start before it (none when they all started earlier). */
  lemma {:induction false} ShortRange(recs: seq<Token>, k: nat, variant: Variant)
    requires NominalStart(k) < Off(recs, |recs|)
    requires !RunsOn(variant, NominalStart(k), Off(recs, |recs|))
    ensures var a, b := RangeStart(recs, k), RangeEnd(recs, k, variant);
      var end := NominalEnd(k, Off(recs, |recs|));
      a <= b && Off(recs, b) <= Off(recs, |recs|)
      && (a < b ==> Off(recs, b - 1) < end) && end <= Off(recs, b)
  {
    var size := Off(recs, |recs|);
    var a, b := RangeStart(recs, k), RangeEnd(recs, k, variant);
    var end := NominalEnd(k, size);
    var f := First(recs, end);
    assert b == Max(a, f);
    OffGrows(recs, b, |recs|);
    if f <= a {
      OffGrows(recs, f, a);
      assert b == a && end <= Off(recs, f) <= Off(recs, a);
    } else {
      assert b == f;
      assert Off(recs, b - 1) == Off(recs, f - 1);
    }
  }

  /** Window `k`'s trimmed range runs from record `a`'s offset to `end`,
      where `end` falls inside record `b - 1`'s line or at record `b`'s
      offset, all inside the accessor's view. */
  predicate RangeFits(recs: seq<Token>, k: nat, a: nat, b: nat, end: nat, variant: Variant)
  {
    var data := Encode(recs);
    NominalStart(k) < |data| && a <= b <= |recs|
    && ScanStart(data, NominalStart(k), variant) == Ok(Off(recs, a))
    && ScanEnd(data, k, variant) == Ok(end)
    && end <= ViewEnd(NominalStart(k), |data|, variant) && Off(recs, b) <= ViewEnd(NominalStart(k), |data|, variant)
    && (a < b ==> Off(recs, b - 1) < end) && end <= Off(recs, b)
  }

  /** Window `k` reads exactly the records `a` to `b`. */
  predicate ReadsRange(recs: seq<Token>, k: nat, t: Table, parse: seq<byte> -> Option<int>, a: nat, b: nat, variant: Variant)
  {
    a <= b <= |recs| && SectionReads(Encode(recs), k, t, parse, recs[a..b], variant)
  }

  /** A window whose trimmed range fits the records `a` to `b` reads
      exactly those records. */
  lemma {:induction false} SectionOfRange(recs: seq<Token>, k: nat, t: Table, parse: seq<byte> -> Option<int>, a: nat, b: nat, end: nat, variant: Variant)
    requires ValidRecords(recs) && RangeFits(recs, k, a, b, end, variant)
    ensures ReadsRange(recs, k, t, parse, a, b, variant)
  {
    var data := Encode(recs);
    TokensOfRecords(recs, ViewEnd(NominalStart(k), |data|, variant), a, b, end);
    SectionOfTokens(data, k, t, parse, Off(recs, a), end, recs[a..b], variant);
  }

  /** The records the scan end as written reads correctly: none starts on a
      window boundary that lies less than `Overlap` bytes before the end of
      the file, and no line longer than `Overlap` starts on any window
      boundary. */
  predicate WrittenSafe(recs: seq<Token>)
  {
    NoRecordAtGap(recs) && LongLinesClear(recs)
  }

  /** `x` is the start of a window other than the first. */
  predicate Boundary(x: nat)
  {
    0 < x && x % WindowsSize == 0
  }

  /** No line longer than `Overlap` starts on a window boundary, so the view
      of the window before it, opened with its overlap, holds its '\n'. */
  predicate LongLinesClear(recs: seq<Token>)
  {
    forall i :: 0 <= i < |recs| && Boundary(Off(recs, i)) ==> |Line(recs[i])| <= Overlap
  }

  /** No record starts at a window boundary that lies less than `Overlap`
      bytes before the end of the file. */
  predicate NoRecordAtGap(recs: seq<Token>)
  {
    forall i {:trigger AtGap(Off(recs, i), Off(recs, |recs|))} :: 0 <= i <= |recs| ==> !AtGap(Off(recs, i), Off(recs, |recs|))
  }

  /** `x` is the start of a window that is not the first, and the window
      before it is not opened with its overlap although it is not the last. */
  predicate AtGap(x: nat, size: nat)
  {
    0 < x && x % WindowsSize == 0 && x < size < x + Overlap
  }

  /** The windows' records join up: always under the corrected variant, and
      as written when no record starts at such a boundary. */
  lemma {:induction false} WindowsJoin(recs: seq<Token>, k: nat, variant: Variant)
    requires ValidRecords(recs) && (variant.Corrected? || WrittenSafe(recs)) && NominalStart(k) < Off(recs, |recs|)
    ensures RangeEnd(recs, k, variant) == Bound(recs, k + 1)
  {
    var size := Off(recs, |recs|);
    StartStep(k);
    if RunsOn(variant, NominalStart(k), size) {
      JoinExtended(recs, k, variant);
    } else if NominalStart(k + 1) < size {
      JoinInside(recs, k);
    } else {
      JoinLast(recs, k, variant);
    }
  }

  /** Running on, the window stops where the next one starts. */
  lemma {:induction false} JoinExtended(recs: seq<Token>, k: nat, variant: Variant)
    requires NominalStart(k) < Off(recs, |recs|) && RunsOn(variant, NominalStart(k), Off(recs, |recs|))
    ensures RangeEnd(recs, k, variant) == Bound(recs, k + 1)
  {
    var next := NominalStart(k + 1);
    StartStep(k);
    assert RangeEnd(recs, k, variant) == First(recs, next + 1);
    assert Bound(recs, k + 1) == RangeStart(recs, k + 1) == First(recs, next + 1);
  }

  /** As written, without the overlap but short of the end of the file, the window
      stops on the first record at or past the next window's start, which
      is the first record after it, since no record starts exactly there. */
  lemma {:induction false} JoinInside(recs: seq<Token>, k: nat)
    requires NoRecordAtGap(recs)
    requires var size := Off(recs, |recs|);
      NominalStart(k) < size && !Extends(NominalStart(k), size, AsWritten) && NominalStart(k + 1) < size
    ensures RangeEnd(recs, k, AsWritten) == Bound(recs, k + 1)
  {
    EndInside(recs, k);
    StartStep(k);
    StartStep(k + 1);
    FirstPastBoundary(recs, NominalStart(k + 1));
  }

  /** As written, short of the end of the file, a window without the overlap stops on
      the first record at or past the next window's start. */
  lemma {:induction false} EndInside(recs: seq<Token>, k: nat)
    requires var size := Off(recs, |recs|);
      NominalStart(k) < size && !Extends(NominalStart(k), size, AsWritten) && NominalStart(k + 1) < size
    ensures NominalStart(k + 1) <= Off(recs, |recs|)
    ensures RangeEnd(recs, k, AsWritten) == First(recs, NominalStart(k + 1))
  {
    var size := Off(recs, |recs|);
    var start, next := NominalStart(k), NominalStart(k + 1);
    StartStep(k);
    assert NominalEnd(k, size) == next;
    var a, f := RangeStart(recs, k), First(recs, next);
    if k > 0 {
      FirstMonotone(recs, start + 1, next);
      assert a == First(recs, start + 1) <= f;
    }
    assert RangeEnd(recs, k, AsWritten) == Max(a, f);
  }

  /** No record starts on a window boundary `x` close to the end of the
      file, so the first record at or past `x` is the first one past it. */
  lemma {:induction false} FirstPastBoundary(recs: seq<Token>, x: nat)
    requires NoRecordAtGap(recs)
    requires var size := Off(recs, |recs|); 0 < x && x % WindowsSize == 0 && x < size < x + Overlap
    ensures x + 1 <= Off(recs, |recs|) && First(recs, x + 1) == First(recs, x)
  {
    var f := First(recs, x);
    assert !AtGap(Off(recs, f), Off(recs, |recs|));
    FirstUnique(recs, x + 1, f);
  }

  /** The last window stops after the last record. */
  lemma {:induction false} JoinLast(recs: seq<Token>, k: nat, variant: Variant)
    requires var size := Off(recs, |recs|);
      NominalStart(k) < size && !RunsOn(variant, NominalStart(k), size) && size <= NominalStart(k + 1)
    ensures RangeEnd(recs, k, variant) == Bound(recs, k + 1)
  {
    var size := Off(recs, |recs|);
    StartStep(k);
    var a := RangeStart(recs, k);
    assert NominalEnd(k, size) == size;
    if |recs| > 0 {
      OffGrows(recs, |recs| - 1, |recs|);
    }
    FirstUnique(recs, size, |recs|);
    assert RangeEnd(recs, k, variant) == Max(a, |recs|) == |recs|;
  }

  lemma {:induction false} AbsorbAppend(t: Table, xs: seq<Token>, ys: seq<Token>, parse: seq<byte> -> Option<int>, variant: Variant)
    requires forall i :: 0 <= i < |xs| ==> |xs[i].key| <= KeyCapacity
    requires forall i :: 0 <= i < |ys| ==> |ys[i].key| <= KeyCapacity
    ensures Absorb(t, xs + ys, parse, variant) ==
      (match Absorb(t, xs, parse, variant) case Ok(u) => Absorb(u, ys, parse, variant) case Err(e) => Err(e))
    decreases |xs|
  {
    if xs == [] {
      assert xs + ys == ys;
    } else {
      assert (xs + ys)[0] == xs[0] && (xs + ys)[1..] == xs[1..] + ys;
      var s := Step(t, xs[0], parse, variant);
      if s.Ok? {
        AbsorbAppend(s.value, xs[1..], ys, parse, variant);
      }
    }
  }

  /** Absorbing the records from `m` on is absorbing the chunk up to `b`,
      then the rest. */
  lemma {:induction false} ChunkThenRest(recs: seq<Token>, m: nat, b: nat, t: Table, parse: seq<byte> -> Option<int>, variant: Variant)
    requires forall i :: 0 <= i < |recs| ==> |recs[i].key| <= KeyCapacity
    requires m <= b <= |recs|
    ensures Absorb(t, recs[m..], parse, variant) ==
      (match Absorb(t, recs[m..b], parse, variant) case Ok(u) => Absorb(u, recs[b..], parse, variant) case Err(e) => Err(e))
  {
    SliceSplit(recs, m, b);
    AbsorbAppend(t, recs[m..b], recs[b..], parse, variant);
  }

  /** The records from `m` on are those up to `b` followed by the rest, and
      both parts keep the key bound. */
  lemma {:induction false} SliceSplit(recs: seq<Token>, m: nat, b: nat)
    requires forall i :: 0 <= i < |recs| ==> |recs[i].key| <= KeyCapacity
    requires m <= b <= |recs|
    ensures recs[m..b] + recs[b..] == recs[m..]
    ensures forall i :: 0 <= i < |recs[m..b]| ==> |recs[m..b][i].key| <= KeyCapacity
    ensures forall i :: 0 <= i < |recs[b..]| ==> |recs[b..][i].key| <= KeyCapacity
  {
    var xs, ys := recs[m..b], recs[b..];
    assert forall i :: 0 <= i < |xs| ==> xs[i] == recs[m + i];
    assert forall i :: 0 <= i < |ys| ==> ys[i] == recs[b + i];
  }

  /** Window `k` of the file reads the records from its own first one up to
      the next window's first one. */
  lemma {:induction false} ChunkOfWindow(recs: seq<Token>, k: nat, t: Table, parse: seq<byte> -> Option<int>, variant: Variant)
    requires ValidRecords(recs) && (variant.Corrected? || WrittenSafe(recs)) && k < WindowCount(|Encode(recs)|)
    ensures Bound(recs, k) <= Bound(recs, k + 1)
    ensures SectionAt(Encode(recs), parse, variant)(k, t)
      == WithLines(Absorb(t, recs[Bound(recs, k)..Bound(recs, k + 1)], parse, variant), Bound(recs, k + 1) - Bound(recs, k))
  {
    var data := Encode(recs);
    assert NominalStart(k) < |data|;
    WindowReads(recs, k, t, parse, variant);
    assert Bound(recs, k) == RangeStart(recs, k) && Bound(recs, k + 1) == RangeEnd(recs, k, variant) by {
      WindowsJoin(recs, k, variant);
    }
    ScanOfSection(data, k, t, parse, variant);
  }

  /** Window `k` absorbs the records of its range and counts their lines. */
  lemma WindowReads(recs: seq<Token>, k: nat, t: Table, parse: seq<byte> -> Option<int>, variant: Variant)
    requires ValidRecords(recs) && (variant.Corrected? || WrittenSafe(recs)) && NominalStart(k) < |Encode(recs)|
    ensures RangeStart(recs, k) <= RangeEnd(recs, k, variant) <= |recs|
    ensures Section(Encode(recs), k, t, parse, variant)
         == WithLines(Absorb(t, recs[RangeStart(recs, k)..RangeEnd(recs, k, variant)], parse, variant),
                      RangeEnd(recs, k, variant) - RangeStart(recs, k))
  {
    assert variant.Corrected? || LongLinesClear(recs);
    SectionOfRecords(recs, k, t, parse, variant);
  }

  /** The work left from window `k` on: absorbing the records from the
      window's first one. */
  function Rests(recs: seq<Token>, parse: seq<byte> -> Option<int>, variant: Variant): (nat, Table) -> Result<Table>
    requires forall i :: 0 <= i < |recs| ==> |recs[i].key| <= KeyCapacity
  {
    (k: nat, t: Table) => Absorb(t, recs[Bound(recs, k)..], parse, variant)
  }

  /** The lines left from window `k` on. */
  function Lefts(recs: seq<Token>): nat -> int
  {
    (k: nat) => |recs| - Bound(recs, k)
  }

  /** Window `k` does the first piece of the work left from it: its scan
      fails as absorbing its chunk fails, and otherwise leaves the work and
      the lines left from the next window. */
  lemma {:induction false} WindowFolds(recs: seq<Token>, k: nat, t: Table, parse: seq<byte> -> Option<int>, variant: Variant)
    requires ValidRecords(recs) && (variant.Corrected? || WrittenSafe(recs)) && k < WindowCount(|Encode(recs)|)
    ensures FoldsAt(SectionAt(Encode(recs), parse, variant), Rests(recs, parse, variant), Lefts(recs), k, t)
  {
    ChunkOfWindow(recs, k, t, parse, variant);
    ChunkRests(recs, k, t, parse, SectionAt(Encode(recs), parse, variant)(k, t), variant);
  }

  /** A scan of window `k` that absorbs its chunk does the first piece of
      the work left from `k` and leaves the lines left from `k + 1`. */
  lemma ChunkRests(recs: seq<Token>, k: nat, t: Table, parse: seq<byte> -> Option<int>, s: Result<(Table, nat)>, variant: Variant)
    requires forall i :: 0 <= i < |recs| ==> |recs[i].key| <= KeyCapacity
    requires Bound(recs, k) <= Bound(recs, k + 1)
    requires s == WithLines(Absorb(t, recs[Bound(recs, k)..Bound(recs, k + 1)], parse, variant), Bound(recs, k + 1) - Bound(recs, k))
    ensures var rest, left := Rests(recs, parse, variant), Lefts(recs);
      (s.Err? ==> rest(k, t) == Err(s.error))
      && (s.Ok? ==> rest(k, t) == rest(k + 1, s.value.0) && s.value.1 == left(k) - left(k + 1))
  {
    FoldOfChunk(recs, Bound(recs, k), Bound(recs, k + 1), t, parse, s, variant);
    RestsStep(recs, k, t, parse, s, variant);
  }

  /** `FoldOfChunk` for window `k`, stated over the work and the lines
      left. */
  lemma {:induction false} RestsStep(recs: seq<Token>, k: nat, t: Table, parse: seq<byte> -> Option<int>, s: Result<(Table, nat)>, variant: Variant)
    requires forall i :: 0 <= i < |recs| ==> |recs[i].key| <= KeyCapacity
    requires var a, b := Bound(recs, k), Bound(recs, k + 1);
      a <= b
      && (s.Err? ==> Absorb(t, recs[a..], parse, variant) == Err(s.error))
      && (s.Ok? ==> Absorb(t, recs[a..], parse, variant) == Absorb(s.value.0, recs[b..], parse, variant)
                    && s.value.1 == (|recs| - a) - (|recs| - b))
    ensures var rest, left := Rests(recs, parse, variant), Lefts(recs);
      (s.Err? ==> rest(k, t) == Err(s.error))
      && (s.Ok? ==> rest(k, t) == rest(k + 1, s.value.0) && s.value.1 == left(k) - left(k + 1))
  {
    RestsAt(recs, parse, variant, k, t);
    LeftsAt(recs, k);
    LeftsAt(recs, k + 1);
    if s.Ok? {
      RestsAt(recs, parse, variant, k + 1, s.value.0);
    }
  }

  lemma RestsAt(recs: seq<Token>, parse: seq<byte> -> Option<int>, variant: Variant, k: nat, t: Table)
    requires forall i :: 0 <= i < |recs| ==> |recs[i].key| <= KeyCapacity
    ensures Rests(recs, parse, variant)(k, t) == Absorb(t, recs[Bound(recs, k)..], parse, variant)
  {
  }

  lemma LeftsAt(recs: seq<Token>, k: nat)
    ensures Lefts(recs)(k) == |recs| - Bound(recs, k)
  {
  }

  /** A scan that absorbs the records from `a` up to `b` does the first
      piece of the work of absorbing those from `a` on. */
  lemma {:induction false} FoldOfChunk(recs: seq<Token>, a: nat, b: nat, t: Table, parse: seq<byte> -> Option<int>,
                                       s: Result<(Table, nat)>, variant: Variant)
    requires forall i :: 0 <= i < |recs| ==> |recs[i].key| <= KeyCapacity
    requires a <= b <= |recs| && s == WithLines(Absorb(t, recs[a..b], parse, variant), b - a)
    ensures s.Err? ==> Absorb(t, recs[a..], parse, variant) == Err(s.error)
    ensures s.Ok? ==> Absorb(t, recs[a..], parse, variant) == Absorb(s.value.0, recs[b..], parse, variant)
                      && s.value.1 == (|recs| - a) - (|recs| - b)
  {
    ChunkThenRest(recs, a, b, t, parse, variant);
  }

  /** Past the last window no work and no lines are left. */
  lemma {:induction false} NothingLeft(recs: seq<Token>, k: nat, t: Table, parse: seq<byte> -> Option<int>, variant: Variant)
    requires forall i :: 0 <= i < |recs| ==> |recs[i].key| <= KeyCapacity
    requires WindowCount(|Encode(recs)|) <= k
    ensures Rests(recs, parse, variant)(k, t) == Ok(t) && Lefts(recs)(k) == 0
  {
    assert Bound(recs, k) == |recs|;
    assert recs[|recs|..] == [];
  }

  /** The whole run of the worker loop over a file of valid records, under
      the corrected variant or, as written, when no record starts at a window
      boundary just before the end of the file: every record is read once, the loop ends without error exactly
      when the dictionary steps succeed, and the line count is the number of
      records. */
  lemma {:induction false} DrainOfRecords(recs: seq<Token>, parse: seq<byte> -> Option<int>, variant: Variant)
    requires ValidRecords(recs) && (variant.Corrected? || WrittenSafe(recs))
    ensures var o := Drain(Encode(recs), -1, 0, [], parse, variant);
      var r := Absorb([], recs, parse, variant);
      (r.Err? ==> o.error == Some(r.error))
      && (r.Ok? ==> o.error.None? && o.allLines == |recs| && o.local == r.value)
  {
    var data := Encode(recs);
    WindowsFold(recs, parse, variant);
    NothingLeftPast(recs, parse, variant);
    DrainFold(data, parse, Rests(recs, parse, variant), Lefts(recs), variant);
    assert Bound(recs, 0) == 0;
    assert recs[0..] == recs;
  }

  /** Every window of the file does the first piece of the work left from
      it. */
  lemma {:induction false} WindowsFold(recs: seq<Token>, parse: seq<byte> -> Option<int>, variant: Variant)
    requires ValidRecords(recs) && (variant.Corrected? || WrittenSafe(recs))
    ensures Folds(WindowCount(|Encode(recs)|), SectionAt(Encode(recs), parse, variant), Rests(recs, parse, variant), Lefts(recs))
  {
    forall k: nat, t | k < WindowCount(|Encode(recs)|)
      ensures FoldsAt(SectionAt(Encode(recs), parse, variant), Rests(recs, parse, variant), Lefts(recs), k, t)
    {
      WindowFolds(recs, k, t, parse, variant);
    }
  }

  /** Past the last window of the file no work and no lines are left. */
  lemma {:induction false} NothingLeftPast(recs: seq<Token>, parse: seq<byte> -> Option<int>, variant: Variant)
    requires ValidRecords(recs)
    ensures Finished(WindowCount(|Encode(recs)|), Rests(recs, parse, variant), Lefts(recs))
  {
    forall k: nat, t | WindowCount(|Encode(recs)|) <= k ensures Rests(recs, parse, variant)(k, t) == Ok(t) && Lefts(recs)(k) == 0 {
      NothingLeft(recs, k, t, parse, variant);
    }
  }

  /** The whole-file result: with valid records, the corrected variant or no
      record at such a window boundary, and station names the comparer tells apart, the worker loop
      ends without error, counts every record, and leaves one entry per
      station holding exactly that station's readings; merged into the empty
      shared dictionary, it gives the shared dictionary the same grouping. */
  lemma {:induction false} ProcessFile(recs: seq<Token>, parse: seq<byte> -> Option<int>, variant: Variant)
    requires ValidRecords(recs) && (variant.Corrected? || WrittenSafe(recs)) && Separated(Stations(recs), variant)
    requires Parses(recs, parse)
    ensures var o := Drain(Encode(recs), -1, 0, [], parse, variant);
      o.error.None? && o.allLines == |recs|
      && Groups(o.local, recs, parse) && Groups(Merge([], o.local, variant), recs, parse)
  {
    EmptyGroups(parse);
    assert [] + recs == recs;
    AbsorbGroups([], [], recs, parse, variant);
    DrainOfRecords(recs, parse, variant);
    var o := Drain(Encode(recs), -1, 0, [], parse, variant);
    MergeGroups([], [], o.local, recs, parse, variant);
  }

  /** With valid records and station names the comparer tells apart, a
      number that `float.Parse` rejects anywhere in the file stops the worker
      loop with `BadNumber`. */
  lemma BadNumberStops(recs: seq<Token>, parse: seq<byte> -> Option<int>, variant: Variant)
    requires ValidRecords(recs) && (variant.Corrected? || WrittenSafe(recs)) && Separated(Stations(recs), variant)
    requires !Parses(recs, parse)
    ensures Drain(Encode(recs), -1, 0, [], parse, variant).error == Some(BadNumber)
  {
    EmptyGroups(parse);
    assert [] + recs == recs;
    AbsorbFails([], [], recs, parse, variant);
    DrainOfRecords(recs, parse, variant);
  }

  /** The corrected comparison tells the stations of any valid file apart. */
  lemma ValidSeparated(recs: seq<Token>)
    requires ValidRecords(recs)
    ensures Separated(Stations(recs), Corrected)
  {
    forall a | a in Stations(recs) ensures StationKey(a) {
      var i :| 0 <= i < |recs| && recs[i].key == a;
      assert ValidRecord(recs[i]);
    }
  }

  /** The whole-file result of the corrected program, for any file of valid
      records: the worker loop fails exactly when some number does not
      parse, and then with `BadNumber`; otherwise it counts every record and
      its dictionary, and the shared one it is merged into, hold one entry
      per station with exactly that station's readings. */
  lemma ProcessFileCorrected(recs: seq<Token>, parse: seq<byte> -> Option<int>)
    requires ValidRecords(recs)
    ensures var o := Drain(Encode(recs), -1, 0, [], parse, Corrected);
      (o.error.None? <==> Parses(recs, parse))
      && (o.error.Some? ==> o.error == Some(BadNumber))
      && (o.error.None? ==>
            o.allLines == |recs| && Groups(o.local, recs, parse)
            && Groups(Merge([], o.local, Corrected), recs, parse))
  {
    ValidSeparated(recs);
    if Parses(recs, parse) {
      ProcessFile(recs, parse, Corrected);
    } else {
      BadNumberStops(recs, parse, Corrected);
    }
  }
}
