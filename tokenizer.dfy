/** The record tokenizer: key bytes up to ';' into a 100-byte buffer, number
    bytes up to '\n' into a 16-byte buffer, then past the '\n'. */
module Tokenizer {
  import opened Common

  /** `new byte[100]`: the station buffer. */
  const KeyCapacity: nat := 100
  /** `new byte[16]`: the number buffer. */
  const NumberCapacity: nat := 16

  /** One record as the tokenizer cuts it: the key bytes and the number bytes. */
  datatype Token = Token(key: seq<byte>, number: seq<byte>)

  /** The bytes of one record in the input format: `key;number\n`. */
  function Line(t: Token): seq<byte>
  {
    t.key + [SEMI] + t.number + [NL]
  }

  /** The position of the first `stop` at or after `i`, copying the bytes of
      the field that starts at `from` into a buffer of `cap` bytes: reading past
      the view fails, and so does writing a byte when the buffer is full. */
  function FieldEnd(data: seq<byte>, viewEnd: nat, from: nat, i: nat, stop: byte, cap: nat, tooLong: Error): (r: Result<nat>)
    requires viewEnd <= |data| && from <= i <= from + cap && tooLong != ReadPastView
    ensures r.Ok? ==> i <= r.value < viewEnd && r.value <= from + cap && data[r.value] == stop
    ensures r.Err? ==> r.error == ReadPastView || r.error == tooLong
    ensures r.Err? && r.error == tooLong ==> from + cap < viewEnd
    ensures r.Err? && r.error == ReadPastView ==> viewEnd <= from + cap
    decreases viewEnd - i
  {
    if i >= viewEnd then Err(ReadPastView)
    else if data[i] == stop then Ok(i)
    else if i - from == cap then Err(tooLong)
    else FieldEnd(data, viewEnd, from, i + 1, stop, cap, tooLong)
  }

  /** A field ends at the first `stop`; it is too long exactly when the
      buffer fills before a `stop`, and runs past the view when the view ends
      first. */
  lemma {:induction false} FieldEndFirst(data: seq<byte>, viewEnd: nat, from: nat, i: nat, stop: byte, cap: nat, tooLong: Error)
    requires viewEnd <= |data| && from <= i <= from + cap && tooLong != ReadPastView
    ensures var r := FieldEnd(data, viewEnd, from, i, stop, cap, tooLong);
      (r.Ok? ==> forall k :: i <= k < r.value ==> data[k] != stop)
      && (r.Err? && r.error == tooLong ==> forall k :: i <= k <= from + cap ==> data[k] != stop)
      && (r.Err? && r.error == ReadPastView ==> forall k :: i <= k < viewEnd ==> data[k] != stop)
    decreases viewEnd - i
  {
    if i < viewEnd && data[i] != stop && i - from != cap {
      FieldEndFirst(data, viewEnd, from, i + 1, stop, cap, tooLong);
    }
  }

  /** One iteration of the tokenizer loop starting at `p`: the token and the
      cursor after it. */
  function ReadRecord(data: seq<byte>, viewEnd: nat, p: nat): (r: Result<(Token, nat)>)
    requires viewEnd <= |data|
    ensures r.Ok? ==> var (t, q) := r.value;
      p < q <= viewEnd && data[p..q] == Line(t)
      && |t.key| <= KeyCapacity && SEMI !in t.key
      && |t.number| <= NumberCapacity && NL !in t.number
  {
    match FieldEnd(data, viewEnd, p, p, SEMI, KeyCapacity, KeyTooLong)
    case Err(e) => Err(e)
    case Ok(semi) =>
      match FieldEnd(data, viewEnd, semi + 1, semi + 1, NL, NumberCapacity, NumberTooLong)
      case Err(e) => Err(e)
      case Ok(nl) =>
        FieldEndFirst(data, viewEnd, p, p, SEMI, KeyCapacity, KeyTooLong);
        FieldEndFirst(data, viewEnd, semi + 1, semi + 1, NL, NumberCapacity, NumberTooLong);
        LineOfFields(data, p, semi, nl);
        Ok((Token(data[p..semi], data[semi + 1..nl]), nl + 1))
  }

  /** The bytes from `p` through a '\n' at `nl`, with a first ';' at `semi`
      and no '\n' before `nl`, are the line of the token they hold. */
  lemma LineOfFields(data: seq<byte>, p: nat, semi: nat, nl: nat)
    requires p <= semi < nl < |data| && data[semi] == SEMI && data[nl] == NL
    requires forall k :: p <= k < semi ==> data[k] != SEMI
    requires forall k :: semi + 1 <= k < nl ==> data[k] != NL
    ensures data[p..nl + 1] == Line(Token(data[p..semi], data[semi + 1..nl]))
    ensures SEMI !in data[p..semi] && NL !in data[semi + 1..nl]
  {
    assert data[p..nl + 1] == data[p..semi] + [SEMI] + data[semi + 1..nl] + [NL];
  }

  /** A record is read when both of its fields end inside the view and
      inside their buffers. */
  lemma ReadRecordOfFields(data: seq<byte>, viewEnd: nat, p: nat, semi: nat, nl: nat)
    requires viewEnd <= |data|
    requires FieldEnd(data, viewEnd, p, p, SEMI, KeyCapacity, KeyTooLong) == Ok(semi)
    requires FieldEnd(data, viewEnd, semi + 1, semi + 1, NL, NumberCapacity, NumberTooLong) == Ok(nl)
    ensures p <= semi < nl && ReadRecord(data, viewEnd, p) == Ok((Token(data[p..semi], data[semi + 1..nl]), nl + 1))
  {
  }

  /** The tokens the loop `while (pCurr < pEnd && *pCurr != 0)` yields from `p`. */
  function Tokens(data: seq<byte>, viewEnd: nat, p: nat, end: nat): (r: Result<seq<Token>>)
    requires end <= viewEnd <= |data|
    ensures r.Ok? ==> forall i :: 0 <= i < |r.value| ==>
      |r.value[i].key| <= KeyCapacity && |r.value[i].number| <= NumberCapacity
    decreases |data| - p
  {
    if p >= end || data[p] == 0 then Ok([])
    else match ReadRecord(data, viewEnd, p)
      case Err(e) => Err(e)
      case Ok((t, q)) =>
        match Tokens(data, viewEnd, q, end)
        case Err(e) => Err(e)
        case Ok(ts) => Ok([t] + ts)
  }

  /** One record read, then the rest of the range. */
  lemma TokensStep(data: seq<byte>, viewEnd: nat, p: nat, end: nat, t: Token, q: nat, ts: seq<Token>)
    requires end <= viewEnd <= |data| && p < end && data[p] != 0
    requires ReadRecord(data, viewEnd, p) == Ok((t, q)) && Tokens(data, viewEnd, q, end) == Ok(ts)
    ensures Tokens(data, viewEnd, p, end) == Ok([t] + ts)
  {
  }

  /** Tokenizing the line of a token gives that token back, whatever follows
      it, as long as the view holds the whole line. */
  lemma ReadRecordOfLine(data: seq<byte>, viewEnd: nat, p: nat, t: Token)
    requires viewEnd <= |data| && p + |Line(t)| <= viewEnd
    requires data[p..p + |Line(t)|] == Line(t)
    requires |t.key| <= KeyCapacity && SEMI !in t.key
    requires |t.number| <= NumberCapacity && NL !in t.number
    ensures ReadRecord(data, viewEnd, p) == Ok((t, p + |Line(t)|))
  {
    var semi := p + |t.key|;
    var nl := semi + 1 + |t.number|;
    LineSlices(data, p, t);
    FieldEndAt(data, viewEnd, p, p, SEMI, KeyCapacity, KeyTooLong, semi);
    FieldEndAt(data, viewEnd, semi + 1, semi + 1, NL, NumberCapacity, NumberTooLong, nl);
    ReadRecordOfFields(data, viewEnd, p, semi, nl);
  }

  /** Where the line of `t` lies in `data` from `p`, its fields lie at their
      offsets in the line. */
  lemma LineSlices(data: seq<byte>, p: nat, t: Token)
    requires p + |Line(t)| <= |data| && data[p..p + |Line(t)|] == Line(t)
    ensures var semi := p + |t.key|; var nl := semi + 1 + |t.number|;
      nl < |data| && data[p..semi] == t.key && data[semi] == SEMI
      && data[semi + 1..nl] == t.number && data[nl] == NL
  {
    var k, m := |t.key|, |t.number|;
    LineParts(t);
    var line := data[p..p + k + m + 2];
    assert line == Line(t);
    SubSlice(data, p, p + k + m + 2, 0, k);
    assert data[p..p + k] == t.key;
    SubSlice(data, p, p + k + m + 2, k + 1, k + 1 + m);
    assert data[p + k + 1..p + k + 1 + m] == t.number;
    assert data[p + k] == line[k] == SEMI;
    assert data[p + k + 1 + m] == line[k + 1 + m] == NL;
  }

  /** A slice of a slice is a slice. */
  lemma SubSlice(s: seq<byte>, a: nat, b: nat, i: nat, j: nat)
    requires a <= b <= |s| && i <= j <= b - a
    ensures s[a..b][i..j] == s[a + i..a + j]
    ensures i == 0 ==> s[a..b][..j] == s[a..a + j]
  {
    forall x | 0 <= x < j - i
      ensures s[a..b][i..j][x] == s[a + i..a + j][x]
    {
    }
    assert s[a..b][i..j] == s[a + i..a + j];
    if i == 0 {
      assert s[a..b][..j] == s[a..b][0..j];
    }
  }

  /** Where the key, the ';', the number and the '\n' sit in a line. */
  lemma LineParts(t: Token)
    ensures |Line(t)| == |t.key| + |t.number| + 2
    ensures Line(t)[..|t.key|] == t.key && Line(t)[|t.key|] == SEMI
    ensures Line(t)[|t.key| + 1..|t.key| + 1 + |t.number|] == t.number
    ensures Line(t)[|t.key| + 1 + |t.number|] == NL
  {
    assert Line(t) == t.key + ([SEMI] + t.number + [NL]);
    assert Line(t) == (t.key + [SEMI]) + t.number + [NL];
  }

  /** The field ends at the first `stop` when that lies within the view and
      within the capacity. */
  lemma {:induction false} FieldEndAt(data: seq<byte>, viewEnd: nat, from: nat, i: nat, stop: byte, cap: nat, tooLong: Error, j: nat)
    requires viewEnd <= |data| && from <= i <= j <= from + cap && j < viewEnd && tooLong != ReadPastView
    requires data[j] == stop && stop !in data[i..j]
    ensures FieldEnd(data, viewEnd, from, i, stop, cap, tooLong) == Ok(j)
    decreases j - i
  {
    if i < j {
      assert data[i] == data[i..j][0];
      assert data[i + 1..j] == data[i..j][1..];
      FieldEndAt(data, viewEnd, from, i + 1, stop, cap, tooLong, j);
    }
  }
}
