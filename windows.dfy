/** Window claiming and boundary trimming: window `k` nominally covers
    `[k * WindowsSize, min((k + 1) * WindowsSize, fileSize))`; the scan then
    starts after the first '\n' at or after the nominal start (except for the
    first window) and, when the accessor view reaches `Overlap` bytes past the
    nominal end, runs on to the next '\n'. */
module Windows {
  import opened Common

  const WindowsSize: int := 32 * 1024 * 1024
  /** Room for the longest record: a 100-byte key, ';' and a 5-byte number
      (the '\n' that ends its line is not counted). */
  const Overlap: int := 100 + 1 + 5

  /** The longest line of the format: a 100-byte key, ';', a 5-byte number
      such as `-99.9`, and the '\n'. */
  const LongestLine: int := Overlap + 1

  /** Where window `k` starts. */
  function NominalStart(k: nat): (r: nat)
    ensures k <= r
  {
    k * WindowsSize
  }

  /** `start + Math.Min(WindowsSize, fileSize - start)`. */
  function NominalEnd(k: nat, fileSize: nat): nat
    requires NominalStart(k) < fileSize
  {
    NominalStart(k) + Min(WindowsSize, fileSize - NominalStart(k))
  }

  /** The number of windows claimed before a claim's start reaches the file size. */
  function WindowCount(fileSize: nat): (n: nat)
    ensures forall k: nat :: k < n <==> NominalStart(k) < fileSize
  {
    var n := (fileSize + WindowsSize - 1) / WindowsSize;
    assert forall k: nat :: k < n <==> NominalStart(k) < fileSize by {
      forall k: nat ensures k < n <==> NominalStart(k) < fileSize {
        if k < n {
          assert k * WindowsSize <= (n - 1) * WindowsSize;
        } else {
          assert k * WindowsSize >= n * WindowsSize;
        }
      }
    }
    n
  }

  /** Window starts are the multiples of the window size, one window apart. */
  lemma {:induction false} StartStep(k: nat)
    ensures NominalStart(k + 1) == NominalStart(k) + WindowsSize
    ensures NominalStart(k) % WindowsSize == 0
  {
    assert (k + 1) * WindowsSize == k * WindowsSize + WindowsSize;
    if k > 0 {
      StartStep(k - 1);
      var s := NominalStart(k - 1);
      assert NominalStart(k) == s + WindowsSize;
      assert (s + WindowsSize) % WindowsSize == s % WindowsSize;
    }
  }

  /** The nominal windows tile `[0, fileSize)`: each is non-empty, the first
      starts at 0, each ends where the next starts and the last ends at the
      file size. */
  lemma NominalTiling(k: nat, fileSize: nat)
    requires k < WindowCount(fileSize)
    ensures NominalStart(k) < NominalEnd(k, fileSize)
    ensures k + 1 < WindowCount(fileSize) ==> NominalEnd(k, fileSize) == NominalStart(k + 1)
    ensures k + 1 == WindowCount(fileSize) ==> NominalEnd(k, fileSize) == fileSize
  {
    assert NominalStart(k + 1) == NominalStart(k) + WindowsSize;
  }

  /** Every offset of the file lies in exactly one nominal window. */
  lemma OffsetInOneWindow(x: nat, fileSize: nat)
    requires x < fileSize
    ensures x / WindowsSize < WindowCount(fileSize)
    ensures NominalStart(x / WindowsSize) <= x < NominalEnd(x / WindowsSize, fileSize)
    ensures forall k: nat :: k < WindowCount(fileSize) && NominalStart(k) <= x < NominalEnd(k, fileSize)
              ==> k == x / WindowsSize
  {
    var w := x / WindowsSize;
    assert NominalStart(w) <= x;
  }

  /** How far past the window the accessor reaches when it is opened with
      its overlap: `Overlap` as written; the longest line, '\n' included,
      under the corrected variant, so that the line starting on the next
      window's start always ends inside the view. */
  function Reach(variant: Variant): (r: nat)
    ensures r <= LongestLine
    ensures variant.Corrected? ==> r == LongestLine
  {
    match variant
    case AsWritten => Overlap
    case Corrected => LongestLine
  }

  /** Whether the accessor is opened `WindowsSize + Reach(variant)` bytes long,
      rather than to the end of the file. */
  predicate Extends(start: nat, fileSize: nat, variant: Variant)
  {
    start + WindowsSize + Reach(variant) <= fileSize
  }

  /** The first offset past the accessor's view. */
  function ViewEnd(start: nat, fileSize: nat, variant: Variant): (r: nat)
    ensures r <= fileSize
  {
    if Extends(start, fileSize, variant) then start + WindowsSize + Reach(variant) else fileSize
  }

  /** The first `b` at or after `from`, scanning byte by byte; running into
      the end of the view first is an error. */
  function FindByte(data: seq<byte>, from: nat, viewEnd: nat, b: byte): (r: Result<nat>)
    requires viewEnd <= |data|
    ensures r.Ok? ==> from <= r.value < viewEnd && data[r.value] == b
    ensures r.Err? ==> r.error == ReadPastView
    decreases viewEnd - from
  {
    if from >= viewEnd then Err(ReadPastView)
    else if data[from] == b then Ok(from)
    else FindByte(data, from + 1, viewEnd, b)
  }

  /** The search finds the first `b` of the view from `from` on, and fails
      exactly when the rest of the view holds none. */
  lemma {:induction false} FindByteFirst(data: seq<byte>, from: nat, viewEnd: nat, b: byte)
    requires viewEnd <= |data|
    ensures var r := FindByte(data, from, viewEnd, b);
      (r.Ok? ==> forall i :: from <= i < r.value ==> data[i] != b)
      && (r.Err? <==> forall i :: from <= i < viewEnd ==> data[i] != b)
    decreases viewEnd - from
  {
    if from < viewEnd && data[from] != b {
      FindByteFirst(data, from + 1, viewEnd, b);
    }
  }

  /** `pCurr` after trimming: 0 for the first window, else one past the first
      '\n' at or after the start. */
  function ScanStart(data: seq<byte>, start: nat, variant: Variant): (r: Result<nat>)
    ensures r.Ok? && start == 0 ==> r.value == 0
    ensures r.Ok? && start != 0 ==>
      start < r.value <= ViewEnd(start, |data|, variant) && data[r.value - 1] == NL
    ensures r.Err? ==> start != 0
  {
    if start == 0 then Ok(0)
    else match FindByte(data, start, ViewEnd(start, |data|, variant), NL)
      case Ok(j) => Ok(j + 1)
      case Err(e) => Err(e)
  }

  /** A trimmed start skips exactly the bytes up to the first '\n', and
      trimming fails exactly when the view holds no '\n' from the start on. */
  lemma ScanStartFirst(data: seq<byte>, start: nat, variant: Variant)
    requires start != 0
    ensures var r := ScanStart(data, start, variant);
      (r.Ok? ==> forall i :: start <= i < r.value - 1 ==> data[i] != NL)
      && (r.Err? <==> forall i :: start <= i < ViewEnd(start, |data|, variant) ==> data[i] != NL)
  {
    FindByteFirst(data, start, ViewEnd(start, |data|, variant), NL);
  }

  /** Whether the scan end runs on past the nominal end. `AsWritten` runs
      on to the next '\n' only when the view reaches `Overlap` bytes past the
      nominal end; `Corrected` does so whenever any byte of the file follows
      the nominal end. */
  predicate RunsOn(variant: Variant, start: nat, fileSize: nat)
  {
    match variant
    case AsWritten => Extends(start, fileSize, AsWritten)
    case Corrected => start + WindowsSize < fileSize
  }

  /** `pEnd` after trimming: the first '\n' at or after the nominal end when
      the variant runs on past it, else the nominal end. */
  function ScanEnd(data: seq<byte>, k: nat, variant: Variant): (r: Result<nat>)
    requires NominalStart(k) < |data|
    ensures r.Ok? && RunsOn(variant, NominalStart(k), |data|) ==>
      NominalEnd(k, |data|) <= r.value < ViewEnd(NominalStart(k), |data|, variant) && data[r.value] == NL
    ensures r.Ok? && !RunsOn(variant, NominalStart(k), |data|) ==> r.value == NominalEnd(k, |data|)
    ensures r.Err? ==> RunsOn(variant, NominalStart(k), |data|)
  {
    var start := NominalStart(k);
    var pEnd := NominalEnd(k, |data|);
    if RunsOn(variant, start, |data|) then FindByte(data, pEnd, ViewEnd(start, |data|, variant), NL)
    else Ok(pEnd)
  }

  /** Running on, the trimmed end is the first '\n' from the nominal end on,
      and trimming fails exactly when the rest of the view holds none. */
  lemma ScanEndFirst(data: seq<byte>, k: nat, variant: Variant)
    requires NominalStart(k) < |data| && RunsOn(variant, NominalStart(k), |data|)
    ensures var r := ScanEnd(data, k, variant);
      (r.Ok? ==> forall i :: NominalEnd(k, |data|) <= i < r.value ==> data[i] != NL)
      && (r.Err? <==> forall i :: NominalEnd(k, |data|) <= i < ViewEnd(NominalStart(k), |data|, variant) ==> data[i] != NL)
  {
    FindByteFirst(data, NominalEnd(k, |data|), ViewEnd(NominalStart(k), |data|, variant), NL);
  }

  /** Not running on, the scan ends at the nominal end. */
  lemma ScanEndShort(data: seq<byte>, k: nat, variant: Variant)
    requires NominalStart(k) < |data| && !RunsOn(variant, NominalStart(k), |data|)
    ensures ScanEnd(data, k, variant) == Ok(NominalEnd(k, |data|))
  {
  }

  /** Running on, the scan ends on the '\n' the search finds. */
  lemma ScanEndExtended(data: seq<byte>, k: nat, variant: Variant, e: nat)
    requires NominalStart(k) < |data| && RunsOn(variant, NominalStart(k), |data|)
    requires FindByte(data, NominalEnd(k, |data|), ViewEnd(NominalStart(k), |data|, variant), NL) == Ok(e)
    ensures ScanEnd(data, k, variant) == Ok(e)
  {
  }

  /** A scan range never reaches past the end of the file. */
  lemma ScanEndInFile(data: seq<byte>, k: nat, variant: Variant)
    requires NominalStart(k) < |data| && ScanEnd(data, k, variant).Ok?
    ensures ScanEnd(data, k, variant).value <= ViewEnd(NominalStart(k), |data|, variant) <= |data|
  {
  }
}
