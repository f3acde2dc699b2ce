/** The `Program` object: the mapped file, the shared section counter, the
    shared line count and the shared dictionary, with the worker loop
    `Process` written step by step as in Program.cs (pointer walks become indices
    into the file contents, the spans become arrays). */
module Processing {
  import opened Common
  import opened Windows
  import opened Tokenizer
  import opened Tables
  import opened Sections

  class Program {
    /** The contents of the memory-mapped file; `_fileSize` is its length. */
    const data: seq<byte>
    /** The program as written or corrected: the `BagKeyComparer` its
        dictionaries are built with and how its windows' scan ends are found. */
    const variant: Variant
    /** `_section`: the last section number claimed. */
    var section: int
    /** `_allLines`. */
    var allLines: int
    /** `_aggregate`. */
    var aggregate: Table

    ghost predicate Valid()
      reads this
    {
      -1 <= section && Sound(aggregate, variant)
    }

    constructor(data: seq<byte>, variant: Variant)
      ensures this.data == data && this.variant == variant
      ensures section == -1 && allLines == 0 && aggregate == []
      ensures Valid()
    {
      this.data := data;
      this.variant := variant;
      section := -1;
      allLines := 0;
      aggregate := [];
    }

    /** One worker run to completion: claim sections until one starts past
        the end of the file, scanning each into a local dictionary and adding
        its line count to `_allLines`, then merge the local dictionary into
        `_aggregate`. A failure (an exception in C#) ends the run
        without the merge. The object's `variant` chooses the key comparison
        and how a window's scan end is found: `AsWritten` is the test on the
        accessor's length, `Corrected` runs on whenever any byte of the file
        follows the window. */
    method Process(parse: seq<byte> -> Option<int>) returns (err: Option<Error>)
      requires Valid()
      modifies this
      ensures Valid()
      ensures var o := Drain(data, old(section), old(allLines), [], parse, variant);
        section == o.section && allLines == o.allLines && err == o.error
        && aggregate == (if o.error.None? then Merge(old(aggregate), o.local, variant) else old(aggregate))
    {
      var dict;
      dict, err := ClaimSections(parse);
      if err.Some? {
        return;
      }
      MergeLocal(dict);
      MergeKeeps(old(aggregate), dict, variant);
    }

    /** The `while (true)` loop of `Process`: claim the next section,
        stop once its start is past the end of the file, else scan it into
        the local dictionary and add its line count to `_allLines`. */
    method ClaimSections(parse: seq<byte> -> Option<int>) returns (dict: Table, err: Option<Error>)
      requires -1 <= section
      modifies this
      ensures var o := Drain(data, old(section), old(allLines), [], parse, variant);
        section == o.section && allLines == o.allLines && err == o.error
        && (err.None? ==> dict == o.local && Sound(dict, variant))
      ensures -1 <= section && aggregate == old(aggregate)
    {
      dict := [];
      var stationBuffer := new byte[KeyCapacity](_ => 0);
      var numberBuffer := new byte[NumberCapacity](_ => 0);
      ghost var target := Drain(data, section, allLines, dict, parse, variant);
      DrainKeeps(data, section, allLines, dict, parse, variant);
      while true
        invariant -1 <= section && Sound(dict, variant)
        invariant Drain(data, section, allLines, dict, parse, variant) == target
        invariant aggregate == old(aggregate)
        decreases |data| - section
      {
        var claimed, counted := section, allLines;
        var mySection := claimed + 1;
        if NominalStart(mySection) >= |data| {
          DrainStop(data, claimed, counted, dict, parse, variant);
          section := mySection;
          return dict, None;
        }
        var r := ScanSection(mySection, dict, stationBuffer, numberBuffer, parse);
        var lines := if r.Ok? then counted + r.value.1 else counted;
        ScanOfSection(data, mySection, dict, parse, variant);
        DrainStep(data, claimed, counted, dict, parse, r, lines, variant);
        section := mySection;
        if r.Err? {
          return dict, Some(r.error);
        }
        SectionKeepsAt(data, mySection, dict, parse, variant);
        dict := r.value.0;
        allLines := lines;
      }
    }

    /** The final `foreach` over the local dictionary: `GetOrAdd` then
        `Append` for each entry, in insertion order. */
    method MergeLocal(local: Table)
      modifies this
      ensures aggregate == Merge(old(aggregate), local, variant)
      ensures section == old(section) && allLines == old(allLines)
    {
      var i := 0;
      while i < |local|
        invariant 0 <= i <= |local|
        invariant Merge(aggregate, local[i..], variant) == Merge(old(aggregate), local, variant)
        invariant section == old(section) && allLines == old(allLines)
      {
        assert local[i..][1..] == local[i + 1..];
        aggregate := MergeEntry(aggregate, local[i], variant);
        i := i + 1;
      }
    }

    /** The body of the `while (true)` loop for the claimed section `k`: trim
        the range, running its end on to a '\n' when `variant` says so, then
        tokenize it into `dict`, counting the records. */
    method ScanSection(k: nat, dict: Table, station: array<byte>, number: array<byte>, parse: seq<byte> -> Option<int>)
      returns (r: Result<(Table, nat)>)
      requires NominalStart(k) < |data|
      requires station.Length == KeyCapacity && number.Length == NumberCapacity && station != number
      modifies station, number
      ensures r == Section(data, k, dict, parse, variant)
    {
      var start := NominalStart(k);
      var viewEnd := ViewEnd(start, |data|, variant);
      var pEnd := NominalEnd(k, |data|);
      var pCurr := start;
      if start != 0 {
        var nl := SkipTo(start, viewEnd, NL);
        if nl.Err? {
          return Err(nl.error);
        }
        pCurr := nl.value + 1;
      }
      if RunsOn(variant, start, |data|) {
        var nl := SkipTo(pEnd, viewEnd, NL);
        if nl.Err? {
          return Err(nl.error);
        }
        pEnd := nl.value;
      }
      assert ScanStart(data, start, variant) == Ok(pCurr);
      assert ScanEnd(data, k, variant) == Ok(pEnd);
      ScanEndInFile(data, k, variant);
      r := Tokenize(pCurr, pEnd, viewEnd, dict, station, number, parse);
    }

    /** `while (*p != b) ++p;` inside the view. */
    method SkipTo(from: nat, viewEnd: nat, b: byte) returns (r: Result<nat>)
      requires viewEnd <= |data|
      ensures r == FindByte(data, from, viewEnd, b)
    {
      var p := from;
      while p < viewEnd && data[p] != b
        invariant from <= p
        invariant FindByte(data, p, viewEnd, b) == FindByte(data, from, viewEnd, b)
        decreases viewEnd - p
      {
        p := p + 1;
      }
      if p >= viewEnd {
        return Err(ReadPastView);
      }
      return Ok(p);
    }

    /** The tokenizer loop `while (pCurr < pEnd && *pCurr != 0)`. */
    method Tokenize(p0: nat, end: nat, viewEnd: nat, dict: Table, station: array<byte>, number: array<byte>,
                    parse: seq<byte> -> Option<int>) returns (r: Result<(Table, nat)>)
      requires end <= viewEnd <= |data|
      requires station.Length == KeyCapacity && number.Length == NumberCapacity && station != number
      modifies station, number
      ensures r == ScanFrom(data, viewEnd, p0, end, dict, 0, parse, variant)
    {
      var pCurr := p0;
      var t := dict;
      var lines: nat := 0;
      while pCurr < end && data[pCurr] != 0
        invariant ScanFrom(data, viewEnd, pCurr, end, t, lines, parse, variant) == ScanFrom(data, viewEnd, p0, end, dict, 0, parse, variant)
        decreases |data| - pCurr
      {
        var turn := ReadAndRecord(pCurr, viewEnd, t, station, number, parse);
        ScanFromStep(data, viewEnd, pCurr, end, t, lines, parse, turn, lines + 1, variant);
        if turn.Err? {
          return Err(turn.error);
        }
        pCurr := turn.value.1;
        t := turn.value.0;
        lines := lines + 1;
      }
      return Ok((t, lines));
    }

    /** One pass of the tokenizer loop's body at `p`: read the record, then
        look the station buffer up and, on a miss, add a copy of the key bytes;
        the reading goes into the bag found or added. */
    method ReadAndRecord(p: nat, viewEnd: nat, t: Table, station: array<byte>, number: array<byte>,
                         parse: seq<byte> -> Option<int>) returns (r: Result<(Table, nat)>)
      requires p <= viewEnd <= |data|
      requires station.Length == KeyCapacity && number.Length == NumberCapacity && station != number
      modifies station, number
      ensures r == Turn(data, viewEnd, p, t, parse, variant)
    {
      var rr := ReadFields(p, viewEnd, station, number);
      if rr.Err? {
        return Err(rr.error);
      }
      // The lookup and the `Add` of a new key come before the parse, so a
      // failed `Add` is reported even when the number does not parse either.
      var reading := parse(rr.value.0.number);
      var recorded := Record(t, station[..], rr.value.0.key, if reading.Some? then reading.value else 0, variant);
      if recorded.Err? {
        return Err(recorded.error);
      }
      if reading.None? {
        return Err(BadNumber);
      }
      return Ok((recorded.value, rr.value.1));
    }

    /** The reads of one pass: the key into the station buffer up to `';'`,
        the number into the number buffer up to `'\n'`; the token is the
        filled prefixes of the two buffers. */
    method ReadFields(p: nat, viewEnd: nat, station: array<byte>, number: array<byte>) returns (rr: Result<(Token, nat)>)
      requires p <= viewEnd <= |data|
      requires station.Length == KeyCapacity && number.Length == NumberCapacity && station != number
      modifies station, number
      ensures rr == ReadRecord(data, viewEnd, p)
      ensures rr.Ok? ==> station[..] == Pad(rr.value.0.key)
    {
      var semi := CopyField(p, viewEnd, SEMI, station, KeyTooLong);
      if semi.Err? {
        return Err(semi.error);
      }
      var tIdx := semi.value - p;
      var nl := CopyField(semi.value + 1, viewEnd, NL, number, NumberTooLong);
      if nl.Err? {
        return Err(nl.error);
      }
      var nIdx := nl.value - (semi.value + 1);
      ReadRecordOfFields(data, viewEnd, p, semi.value, nl.value);
      PrefixOfPadded(data[p..semi.value], station[..]);
      PrefixOfPadded(data[semi.value + 1..nl.value], number[..]);
      return Ok((Token(station[..tIdx], number[..nIdx]), nl.value + 1));
    }

    /** `buffer.Clear()`, then copy bytes from `from` into `buffer` until
        `stop`: reading past the view or writing past the buffer fails. */
    method CopyField(from: nat, viewEnd: nat, stop: byte, buffer: array<byte>, tooLong: Error) returns (r: Result<nat>)
      requires from <= viewEnd <= |data| && tooLong != ReadPastView
      modifies buffer
      ensures r == FieldEnd(data, viewEnd, from, from, stop, buffer.Length, tooLong)
      ensures r.Ok? ==> buffer[..] == data[from..r.value] + Zeros(buffer.Length - (r.value - from))
    {
      forall j | 0 <= j < buffer.Length {
        buffer[j] := 0;
      }
      var i := from;
      while true
        invariant from <= i <= viewEnd && i <= from + buffer.Length
        invariant FieldEnd(data, viewEnd, from, i, stop, buffer.Length, tooLong)
               == FieldEnd(data, viewEnd, from, from, stop, buffer.Length, tooLong)
        invariant buffer[..i - from] == data[from..i]
        invariant forall j :: i - from <= j < buffer.Length ==> buffer[j] == 0
        decreases viewEnd - i
      {
        if i >= viewEnd {
          return Err(ReadPastView);
        }
        if data[i] == stop {
          assert buffer[..] == data[from..i] + Zeros(buffer.Length - (i - from));
          return Ok(i);
        }
        if i - from == buffer.Length {
          return Err(tooLong);
        }
        buffer[i - from] := data[i];
        i := i + 1;
      }
    }
  }

  /** The first bytes of a cleared buffer after a copy are the bytes copied. */
  lemma PrefixOfPadded(field: seq<byte>, buffer: seq<byte>)
    requires |field| <= |buffer| && buffer == field + Zeros(|buffer| - |field|)
    ensures buffer[..|field|] == field
  {
  }
}
