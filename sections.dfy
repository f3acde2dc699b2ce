/** One worker's loop over sections, as functions of the file contents: the
    scan of one section into the local dictionary, the absorption of a list of
    tokens, and the whole `while (true)` loop up to the first unclaimed section
    or the first failure. */
module Sections {
  import opened Common
  import opened Aggregate
  import opened Windows
  import opened Tokenizer
  import opened Tables

  /** The station buffer after `stationSpan.Clear()` and the copy of the key:
      the key bytes followed by zeros. */
  function Pad(key: seq<byte>): (r: seq<byte>)
    requires |key| <= KeyCapacity
    ensures |r| == KeyCapacity && r[..|key|] == key
    ensures forall i :: |key| <= i < KeyCapacity ==> r[i] == 0
  {
    key + Zeros(KeyCapacity - |key|)
  }

  /** The dictionary step for one token: the lookup (and on a miss the `Add`)
      of its key, then `float.Parse` of its number, which `parse` stands for
      (None where it throws), and `bag.Add` of the reading. A failed `Add`
      throws before the number is parsed. */
  function Step(t: Table, tok: Token, parse: seq<byte> -> Option<int>, variant: Variant): Result<Table>
    requires |tok.key| <= KeyCapacity
  {
    match parse(tok.number)
    case Some(v) => Record(t, Pad(tok.key), tok.key, v, variant)
    case None =>
      match Record(t, Pad(tok.key), tok.key, 0, variant)
      case Err(e) => Err(e)
      case Ok(_) => Err(BadNumber)
  }

  /** The dictionary steps for a list of tokens in order, stopping at the
      first failure. */
  function Absorb(t: Table, ts: seq<Token>, parse: seq<byte> -> Option<int>, variant: Variant): Result<Table>
    requires forall i :: 0 <= i < |ts| ==> |ts[i].key| <= KeyCapacity
    decreases |ts|
  {
    if ts == [] then Ok(t)
    else match Step(t, ts[0], parse, variant)
      case Err(e) => Err(e)
      case Ok(t') => Absorb(t', ts[1..], parse, variant)
  }

  /** One turn of the tokenizer loop at `p`: read the record there, then
      take the dictionary step for it; the new table and the cursor after the
      record. */
  function Turn(data: seq<byte>, viewEnd: nat, p: nat, t: Table, parse: seq<byte> -> Option<int>, variant: Variant): (r: Result<(Table, nat)>)
    requires viewEnd <= |data|
    ensures r.Ok? ==> p < r.value.1 <= viewEnd
  {
    match ReadRecord(data, viewEnd, p)
    case Err(e) => Err(e)
    case Ok((tok, q)) =>
      match Step(t, tok, parse, variant)
      case Err(e) => Err(e)
      case Ok(t') => Ok((t', q))
  }

  /** Each successful turn moves the cursor forward. */
  ghost predicate Advances(turn: (nat, Table) -> Result<(Table, nat)>)
  {
    forall p: nat, t :: turn(p, t).Ok? ==> p < turn(p, t).value.1
  }

  /** The tokenizer loop `while (pCurr < pEnd && *pCurr != 0)` from `p`, for
      any turn that advances the cursor; `lines` counts the turns taken. */
  function Run(data: seq<byte>, end: nat, turn: (nat, Table) -> Result<(Table, nat)>, p: nat, t: Table, lines: nat): Result<(Table, nat)>
    requires end <= |data| && Advances(turn)
    decreases end - p
  {
    if p >= end || data[p] == 0 then Ok((t, lines))
    else
      var s := turn(p, t);
      if s.Err? then Err(s.error)
      else Run(data, end, turn, s.value.1, s.value.0, lines + 1)
  }

  /** One turn of the loop, for any turn function. */
  lemma RunStep(data: seq<byte>, end: nat, turn: (nat, Table) -> Result<(Table, nat)>, p: nat, t: Table, lines: nat,
                s: Result<(Table, nat)>, next: nat)
    requires end <= |data| && Advances(turn) && p < end && data[p] != 0
    requires s == turn(p, t) && next == lines + 1
    ensures s.Err? ==> Run(data, end, turn, p, t, lines) == Err(s.error)
    ensures s.Ok? ==> Run(data, end, turn, p, t, lines) == Run(data, end, turn, s.value.1, s.value.0, next)
  {
  }

  /** `Turn` as a function of the cursor and the table. */
  function TurnAt(data: seq<byte>, viewEnd: nat, parse: seq<byte> -> Option<int>, variant: Variant): (r: (nat, Table) -> Result<(Table, nat)>)
    requires viewEnd <= |data|
    ensures Advances(r)
  {
    (p: nat, t: Table) => Turn(data, viewEnd, p, t, parse, variant)
  }

  /** The tokenizer loop over the records of a view from `p` up to `end`. */
  function ScanFrom(data: seq<byte>, viewEnd: nat, p: nat, end: nat, t: Table, lines: nat,
                    parse: seq<byte> -> Option<int>, variant: Variant): Result<(Table, nat)>
    requires end <= viewEnd <= |data|
  {
    Run(data, end, TurnAt(data, viewEnd, parse, variant), p, t, lines)
  }

  /** One turn of the tokenizer loop with result `s`; `next` is the line
      count after it: a failed turn fails the loop, a successful one continues
      it from the cursor and table it returns. */
  lemma ScanFromStep(data: seq<byte>, viewEnd: nat, p: nat, end: nat, t: Table, lines: nat, parse: seq<byte> -> Option<int>,
                     s: Result<(Table, nat)>, next: nat, variant: Variant)
    requires end <= viewEnd <= |data| && p < end && data[p] != 0
    requires s == Turn(data, viewEnd, p, t, parse, variant) && next == lines + 1
    ensures s.Err? ==> ScanFrom(data, viewEnd, p, end, t, lines, parse, variant) == Err(s.error)
    ensures s.Ok? ==> ScanFrom(data, viewEnd, p, end, t, lines, parse, variant) == ScanFrom(data, viewEnd, s.value.1, end, s.value.0, next, parse, variant)
  {
    var turn := TurnAt(data, viewEnd, parse, variant);
    assert turn(p, t) == s;
    RunStep(data, end, turn, p, t, lines, s, next);
  }

  /** A table result paired with a line count. */
  function WithLines(r: Result<Table>, lines: nat): Result<(Table, nat)>
  {
    match r
    case Ok(t) => Ok((t, lines))
    case Err(e) => Err(e)
  }

  /** When the tokens of a range can be read, the loop over it absorbs exactly
      those tokens, fails where absorbing them fails, and counts one line per
      token. */
  lemma {:induction false} ScanFromTokens(data: seq<byte>, viewEnd: nat, p: nat, end: nat, t: Table, lines: nat,
                                          parse: seq<byte> -> Option<int>, ts: seq<Token>, total: nat, variant: Variant)
    requires end <= viewEnd <= |data| && Tokens(data, viewEnd, p, end) == Ok(ts) && total == lines + |ts|
    ensures ScanFrom(data, viewEnd, p, end, t, lines, parse, variant) == WithLines(Absorb(t, ts, parse, variant), total)
    decreases |data| - p
  {
    if !(p >= end || data[p] == 0) {
      var rr := ReadRecord(data, viewEnd, p);
      var tok, q := rr.value.0, rr.value.1;
      var rest := Tokens(data, viewEnd, q, end).value;
      assert ts == [tok] + rest;
      assert ts[0] == tok && ts[1..] == rest;
      var stepped := Step(t, tok, parse, variant);
      var s := Turn(data, viewEnd, p, t, parse, variant);
      ScanFromStep(data, viewEnd, p, end, t, lines, parse, s, lines + 1, variant);
      if stepped.Ok? {
        assert s == Ok((stepped.value, q));
        ScanFromTokens(data, viewEnd, q, end, stepped.value, lines + 1, parse, rest, total, variant);
      }
    }
  }

  /** One pass of the `while (true)` body for section `k` (start below the
      file size): trim the range, choosing its end by `variant`, then run the
      tokenizer loop over it. */
  function Section(data: seq<byte>, k: nat, t: Table, parse: seq<byte> -> Option<int>, variant: Variant): Result<(Table, nat)>
    requires NominalStart(k) < |data|
  {
    var start := NominalStart(k);
    match ScanStart(data, start, variant)
    case Err(e) => Err(e)
    case Ok(p) =>
      match ScanEnd(data, k, variant)
      case Err(e) => Err(e)
      case Ok(end) => ScanFrom(data, ViewEnd(start, |data|, variant), p, end, t, 0, parse, variant)
  }

  /** A section whose trim finds the range from `p` to `end` runs the
      tokenizer loop over exactly that range. */
  lemma SectionOfBounds(data: seq<byte>, k: nat, t: Table, parse: seq<byte> -> Option<int>, p: nat, end: nat, variant: Variant)
    requires NominalStart(k) < |data|
    requires ScanStart(data, NominalStart(k), variant) == Ok(p) && ScanEnd(data, k, variant) == Ok(end)
    ensures Section(data, k, t, parse, variant) == ScanFrom(data, ViewEnd(NominalStart(k), |data|, variant), p, end, t, 0, parse, variant)
  {
  }

  /** Section `k` of `data` reads exactly the tokens `ts`: it absorbs them
      into `t` in order, fails where absorbing them fails, and counts one
      line per token. */
  predicate SectionReads(data: seq<byte>, k: nat, t: Table, parse: seq<byte> -> Option<int>, ts: seq<Token>, variant: Variant)
  {
    NominalStart(k) < |data| && (forall i :: 0 <= i < |ts| ==> |ts[i].key| <= KeyCapacity)
    && Section(data, k, t, parse, variant) == WithLines(Absorb(t, ts, parse, variant), |ts|)
  }

  /** A section whose trimmed range tokenizes to `ts` reads exactly `ts`. */
  lemma SectionOfTokens(data: seq<byte>, k: nat, t: Table, parse: seq<byte> -> Option<int>, p: nat, end: nat, ts: seq<Token>, variant: Variant)
    requires NominalStart(k) < |data|
    requires ScanStart(data, NominalStart(k), variant) == Ok(p) && ScanEnd(data, k, variant) == Ok(end)
    requires end <= ViewEnd(NominalStart(k), |data|, variant)
    requires Tokens(data, ViewEnd(NominalStart(k), |data|, variant), p, end) == Ok(ts)
    ensures SectionReads(data, k, t, parse, ts, variant)
  {
    ScanFromTokens(data, ViewEnd(NominalStart(k), |data|, variant), p, end, t, 0, parse, ts, |ts|, variant);
    SectionOfBounds(data, k, t, parse, p, end, variant);
  }

  /** The section scan as a total function of the section number: sections
      at or past the end of the file are never scanned. */
  function SectionAt(data: seq<byte>, parse: seq<byte> -> Option<int>, variant: Variant): (nat, Table) -> Result<(Table, nat)>
  {
    (k: nat, t: Table) => if NominalStart(k) < |data| then Section(data, k, t, parse, variant) else Ok((t, 0))
  }

  /** Before the end of the file, the section scan is `Section`. */
  lemma ScanOfSection(data: seq<byte>, k: nat, t: Table, parse: seq<byte> -> Option<int>, variant: Variant)
    requires NominalStart(k) < |data|
    ensures SectionAt(data, parse, variant)(k, t) == Section(data, k, t, parse, variant)
  {
  }

  /** Where a worker's loop stops: the last section number it claimed, the
      shared line count, its local dictionary and the failure that ended it,
      if any. */
  datatype Outcome = Outcome(section: int, allLines: int, local: Table, error: Option<Error>)

  /** The worker's `while (true)` loop from the shared section counter
      `section`, for `count` sections and the section scan `scan`: claim the
      next section, stop when it is past the last one, else scan it and add
      its line count to the shared total. */
  function Sweep(count: nat, scan: (nat, Table) -> Result<(Table, nat)>, section: int, allLines: int, local: Table): Outcome
    requires -1 <= section
    decreases count - section
  {
    var k := section + 1;
    if k >= count then Outcome(k, allLines, local, None)
    else
      var s := scan(k, local);
      if s.Err? then Outcome(k, allLines, local, Some(s.error))
      else Sweep(count, scan, k, allLines + s.value.1, s.value.0)
  }

  /** The loop of `Process` on the file `data`, with scan ends chosen by
      `variant`: a section is claimed while its start lies before the end of the
      file. */
  function Drain(data: seq<byte>, section: int, allLines: int, local: Table, parse: seq<byte> -> Option<int>, variant: Variant): Outcome
    requires -1 <= section
  {
    Sweep(WindowCount(|data|), SectionAt(data, parse, variant), section, allLines, local)
  }

  /** The loop's outcome `o` reports the result `r` of the work it does:
      its error if there is one, and otherwise the final section counter,
      the line count and the table. */
  predicate Reports(o: Outcome, r: Result<Table>, section: int, lines: int)
  {
    (r.Err? ==> o.error == Some(r.error))
    && (r.Ok? ==> o == Outcome(section, lines, r.value, None))
  }

  /** Section `k`'s scan with table `t` does the first piece of the work
      `rest(k, t)` left from it: it fails as that work fails, and otherwise
      leaves the work left from the next section and passes on the lines
      `left` says its piece holds. */
  ghost predicate FoldsAt(scan: (nat, Table) -> Result<(Table, nat)>,
                          rest: (nat, Table) -> Result<Table>, left: nat -> int, k: nat, t: Table)
  {
    var s := scan(k, t);
    (s.Err? ==> rest(k, t) == Err(s.error))
    && (s.Ok? ==> rest(k, t) == rest(k + 1, s.value.0) && s.value.1 == left(k) - left(k + 1))
  }

  /** Every section scan below `count` does the first piece of the work
      left from it. */
  ghost predicate Folds(count: nat, scan: (nat, Table) -> Result<(Table, nat)>,
                        rest: (nat, Table) -> Result<Table>, left: nat -> int)
  {
    forall k: nat, t :: k < count ==> FoldsAt(scan, rest, left, k, t)
  }

  /** From section `count` on, no work and no lines are left. */
  ghost predicate Finished(count: nat, rest: (nat, Table) -> Result<Table>, left: nat -> int)
  {
    (forall k: nat, t {:trigger rest(k, t)} :: count <= k ==> rest(k, t) == Ok(t))
    && forall k: nat {:trigger left(k)} :: count <= k ==> left(k) == 0
  }

  /** The loop as a fold: when `rest(k, t)` is the result of the work left
      from section `k` on with table `t`, and `left(k)` the lines left, and
      each section scan does the first piece of that work, then the loop
      started after `section` reports the work left from the next section. */
  lemma {:induction false} SweepFold(count: nat, scan: (nat, Table) -> Result<(Table, nat)>,
                                     rest: (nat, Table) -> Result<Table>, left: nat -> int,
                                     section: int, allLines: int, local: Table)
    requires -1 <= section
    requires Folds(count, scan, rest, left) && Finished(count, rest, left)
    ensures Reports(Sweep(count, scan, section, allLines, local), rest(section + 1, local),
                    Max(section + 1, count), allLines + left(section + 1))
    decreases count - section
  {
    var k := section + 1;
    if k < count {
      var s := scan(k, local);
      assert FoldsAt(scan, rest, left, k, local);
      if s.Err? {
        SweepStep(count, scan, section, allLines, local, s, allLines);
      } else {
        var lines := allLines + s.value.1;
        SweepFold(count, scan, rest, left, k, lines, s.value.0);
        assert lines + left(k + 1) == allLines + left(k);
        ReportsStep(count, scan, section, allLines, local, s.value.0, s.value.1, lines,
                    rest(k + 1, s.value.0), rest(k, local), Max(k + 1, count), allLines + left(k));
      }
    } else {
      assert Sweep(count, scan, section, allLines, local) == Outcome(k, allLines, local, None);
    }
  }

  /** `SweepFold` for the whole loop of `Process` over the file `data`. */
  lemma DrainFold(data: seq<byte>, parse: seq<byte> -> Option<int>, rest: (nat, Table) -> Result<Table>, left: nat -> int, variant: Variant)
    requires Folds(WindowCount(|data|), SectionAt(data, parse, variant), rest, left)
    requires Finished(WindowCount(|data|), rest, left)
    ensures Reports(Drain(data, -1, 0, [], parse, variant), rest(0, []), WindowCount(|data|), left(0))
  {
    SweepFold(WindowCount(|data|), SectionAt(data, parse, variant), rest, left, -1, 0, []);
  }

  /** A successful turn of the loop hands its report on to the rest. */
  lemma ReportsStep(count: nat, scan: (nat, Table) -> Result<(Table, nat)>, section: int, allLines: int, local: Table,
                    next: Table, step: nat, lines: int, rest: Result<Table>, whole: Result<Table>, n: int, total: int)
    requires -1 <= section && section + 1 < count
    requires scan(section + 1, local) == Ok((next, step)) && lines == allLines + step
    requires Reports(Sweep(count, scan, section + 1, lines, next), rest, n, total)
    requires whole == rest
    ensures Reports(Sweep(count, scan, section, allLines, local), whole, n, total)
  {
    SweepStep(count, scan, section, allLines, local, scan(section + 1, local), lines);
  }

  /** The loop claims sections in order: it ends on the first section past
      the last one, or on the section whose scan failed. */
  lemma {:induction false} SweepSections(count: nat, scan: (nat, Table) -> Result<(Table, nat)>, section: int, allLines: int, local: Table)
    requires -1 <= section
    ensures Claimed(Sweep(count, scan, section, allLines, local), section, count)
    decreases count - section
  {
    var k := section + 1;
    if k < count {
      var s := scan(k, local);
      if s.Ok? {
        SweepSections(count, scan, k, allLines + s.value.1, s.value.0);
      }
    }
  }

  /** A loop that began after section `section` claimed at least one more
      section and stopped on the first section at or past `count`, or earlier
      on a failure. */
  predicate Claimed(o: Outcome, section: int, count: nat)
  {
    section < o.section
    && (o.error.None? ==> o.section == Max(section + 1, count))
    && (o.error.Some? ==> o.section < count)
  }

  /** A claim past the end of the file ends the loop. */
  lemma DrainStop(data: seq<byte>, section: int, allLines: int, local: Table, parse: seq<byte> -> Option<int>, variant: Variant)
    requires -1 <= section && NominalStart(section + 1) >= |data|
    ensures Drain(data, section, allLines, local, parse, variant) == Outcome(section + 1, allLines, local, None)
  {
    assert section + 1 >= WindowCount(|data|);
  }

  /** A claim before the end of the file scans that section (with result `s`)
      and goes on with its result, or ends on its failure. */
  lemma DrainStep(data: seq<byte>, section: int, allLines: int, local: Table, parse: seq<byte> -> Option<int>,
                  s: Result<(Table, nat)>, lines: int, variant: Variant)
    requires -1 <= section && NominalStart(section + 1) < |data|
    requires s == SectionAt(data, parse, variant)(section + 1, local)
    requires s.Ok? ==> lines == allLines + s.value.1
    ensures s.Err? ==> Drain(data, section, allLines, local, parse, variant) == Outcome(section + 1, allLines, local, Some(s.error))
    ensures s.Ok? ==> Drain(data, section, allLines, local, parse, variant) == Drain(data, section + 1, lines, s.value.0, parse, variant)
  {
    assert section + 1 < WindowCount(|data|);
    SweepStep(WindowCount(|data|), SectionAt(data, parse, variant), section, allLines, local, s, lines);
  }

  /** One turn of the loop, for any section scan. */
  lemma SweepStep(count: nat, scan: (nat, Table) -> Result<(Table, nat)>, section: int, allLines: int, local: Table,
                  s: Result<(Table, nat)>, lines: int)
    requires -1 <= section && section + 1 < count && s == scan(section + 1, local)
    requires s.Ok? ==> lines == allLines + s.value.1
    ensures s.Err? ==> Sweep(count, scan, section, allLines, local) == Outcome(section + 1, allLines, local, Some(s.error))
    ensures s.Ok? ==> Sweep(count, scan, section, allLines, local) == Sweep(count, scan, section + 1, lines, s.value.0)
  {
  }

  /** A property of dictionaries that every section scan keeps. */
  ghost predicate Sound(t: Table, variant: Variant)
  {
    Distinct(t, variant) && KeysNonEmpty(t)
  }

  /** The loop keeps the local dictionary sound when every scan does. */
  lemma {:induction false} SweepKeeps(count: nat, scan: (nat, Table) -> Result<(Table, nat)>, section: int, allLines: int, local: Table, variant: Variant)
    requires -1 <= section && Sound(local, variant)
    requires forall k: nat, t :: Sound(t, variant) && scan(k, t).Ok? ==> Sound(scan(k, t).value.0, variant)
    ensures Sound(Sweep(count, scan, section, allLines, local).local, variant)
    decreases count - section
  {
    var k := section + 1;
    if k < count {
      var s := scan(k, local);
      if s.Ok? {
        SweepKeeps(count, scan, k, allLines + s.value.1, s.value.0, variant);
      }
    }
  }

  /** The tokenizer loop keeps the dictionary sound. */
  lemma {:induction false} ScanFromKeeps(data: seq<byte>, viewEnd: nat, p: nat, end: nat, t: Table, lines: nat,
                                         parse: seq<byte> -> Option<int>, variant: Variant)
    requires end <= viewEnd <= |data| && Sound(t, variant) && ScanFrom(data, viewEnd, p, end, t, lines, parse, variant).Ok?
    ensures Sound(ScanFrom(data, viewEnd, p, end, t, lines, parse, variant).value.0, variant)
    decreases |data| - p
  {
    if !(p >= end || data[p] == 0) {
      var s := Turn(data, viewEnd, p, t, parse, variant);
      ScanFromStep(data, viewEnd, p, end, t, lines, parse, s, lines + 1, variant);
      var tok := ReadRecord(data, viewEnd, p).value.0;
      RecordKeepsDistinct(t, Pad(tok.key), tok.key, parse(tok.number).value, variant);
      ScanFromKeeps(data, viewEnd, s.value.1, end, s.value.0, lines + 1, parse, variant);
    }
  }

  /** Every section scan keeps the dictionary sound. */
  lemma SectionKeeps(data: seq<byte>, parse: seq<byte> -> Option<int>, variant: Variant)
    ensures forall k: nat, t :: Sound(t, variant) && SectionAt(data, parse, variant)(k, t).Ok? ==> Sound(SectionAt(data, parse, variant)(k, t).value.0, variant)
  {
    forall k: nat, t | Sound(t, variant) && SectionAt(data, parse, variant)(k, t).Ok?
      ensures Sound(SectionAt(data, parse, variant)(k, t).value.0, variant)
    {
      if NominalStart(k) < |data| {
        SectionKeepsAt(data, k, t, parse, variant);
      }
    }
  }

  /** Scanning one section keeps the dictionary sound. */
  lemma SectionKeepsAt(data: seq<byte>, k: nat, t: Table, parse: seq<byte> -> Option<int>, variant: Variant)
    requires NominalStart(k) < |data| && Sound(t, variant) && Section(data, k, t, parse, variant).Ok?
    ensures Sound(Section(data, k, t, parse, variant).value.0, variant)
  {
    var start := NominalStart(k);
    var p := ScanStart(data, start, variant).value;
    var end := ScanEnd(data, k, variant).value;
    ScanFromKeeps(data, ViewEnd(start, |data|, variant), p, end, t, 0, parse, variant);
  }

  /** The loop of `Process` keeps its dictionary sound. */
  lemma DrainKeeps(data: seq<byte>, section: int, allLines: int, local: Table, parse: seq<byte> -> Option<int>, variant: Variant)
    requires -1 <= section && Sound(local, variant)
    ensures Sound(Drain(data, section, allLines, local, parse, variant).local, variant)
  {
    SectionKeeps(data, parse, variant);
    SweepKeeps(WindowCount(|data|), SectionAt(data, parse, variant), section, allLines, local, variant);
  }
}
