/** `data.copy`: segment records, the layout check, and what a readable segment is. */
module CopySegments {
  import opened Results
  import opened Text

  const CHUNK_SIZE: nat := 1048576
  const DEFAULT_MAX_RATIO: nat := 200
  const DEFAULT_MAX_TOTAL: nat := 64 * 1073741824
  const IDENTIFIER_MAX_BYTES: nat := 63

  datatype CopyError =
    | BadIdentifier | NoColumns | DuplicateColumn | NegativeRows
    | WriterClosed | SegmentOpen | SegmentFinished | SinkStalled
    | NotContiguous | PastFile | BudgetExceeded | NotCovered
    | EmptyClaimsData | RatioExceeded
    | Truncated | InflatesPast | InvalidStream | SizeMismatch | TrailingBytes | UnusedBytes
    | CompressedHashMismatch | PlainHashMismatch

  predicate IsLetter(c: cp) { 97 <= c <= 122 || 65 <= c <= 90 || c == 95 }

  predicate IsIdentifier(s: text) {
    && 0 < |s| <= IDENTIFIER_MAX_BYTES
    && IsLetter(s[0]) && forall i :: 0 <= i < |s| ==> IsLetter(s[i]) || IsDigit(s[i])
  }

  predicate ValidColumns(columns: seq<text>) {
    columns != [] && (forall i :: 0 <= i < |columns| ==> IsIdentifier(columns[i])) && Distinct(columns)
  }

  /** One table's stream inside `data.copy`. */
  datatype CopySegment = CopySegment(
    table: text, columns: seq<text>,
    offset: nat, compressedSize: nat, compressedSha: text,
    uncompressedSize: nat, uncompressedSha: text, rowCount: nat)
  {
    function EndOffset(): nat { offset + compressedSize }

    /** Nothing is wrong exactly when the data is at most `maxRatio` times its compressed size. */
    function RatioError(maxRatio: nat): (r: Option<CopyError>)
      ensures r.None? <==> uncompressedSize <= compressedSize * maxRatio
      ensures r == Some(EmptyClaimsData) ==> compressedSize == 0
    {
      if compressedSize == 0 then if uncompressedSize != 0 then Some(EmptyClaimsData) else None
      else if uncompressedSize > compressedSize * maxRatio then Some(RatioExceeded)
      else None
    }
  }

  /** Segments sit end to end from `from` to `total`. */
  ghost predicate Tiles(segments: seq<CopySegment>, from: nat, total: nat) {
    if segments == [] then from == total
    else segments[0].offset == from && Tiles(segments[1..], segments[0].EndOffset(), total)
  }

  function TotalPlain(segments: seq<CopySegment>): nat {
    if segments == [] then 0 else segments[0].uncompressedSize + TotalPlain(segments[1..])
  }

  ghost predicate RatiosOk(segments: seq<CopySegment>, maxRatio: nat) {
    forall s :: s in segments ==> s.uncompressedSize <= s.compressedSize * maxRatio
  }

  ghost predicate SoundLayout(segments: seq<CopySegment>, total: nat, maxTotal: nat, maxRatio: nat) {
    Tiles(segments, 0, total) && RatiosOk(segments, maxRatio) && TotalPlain(segments) <= maxTotal
  }

  /** Where the segments before `i` end, walking from `from`. */
  function Cursor(segments: seq<CopySegment>, from: nat): nat {
    if segments == [] then from else segments[|segments| - 1].EndOffset()
  }

  lemma {:induction false} TilesSnoc(a: seq<CopySegment>, s: CopySegment, from: nat, total: nat)
    ensures Tiles(a + [s], from, total) <==> Tiles(a, from, s.offset) && s.EndOffset() == total
    ensures TotalPlain(a + [s]) == TotalPlain(a) + s.uncompressedSize
    decreases a
  {
    if a == [] {
      assert (a + [s])[1..] == [];
    } else {
      assert (a + [s])[1..] == a[1..] + [s];
      TilesSnoc(a[1..], s, a[0].EndOffset(), total);
    }
  }

  lemma {:induction false} TilesPrefix(a: seq<CopySegment>, b: seq<CopySegment>, from: nat, total: nat)
    requires Tiles(a + b, from, total)
    ensures Tiles(a, from, Cursor(a, from)) && Tiles(b, Cursor(a, from), total)
    ensures Cursor(a, from) <= total
    ensures TotalPlain(a) <= TotalPlain(a + b)
    decreases a
  {
    if a == [] {
      assert a + b == b;
      TilesEnd(b, from, total);
    } else {
      assert (a + b)[1..] == a[1..] + b;
      TilesPrefix(a[1..], b, a[0].EndOffset(), total);
      assert |a| > 1 ==> a[1..][|a| - 2] == a[|a| - 1];
    }
  }

  lemma {:induction false} TilesEnd(a: seq<CopySegment>, from: nat, total: nat)
    requires Tiles(a, from, total)
    ensures from <= total
    decreases a
  {
    if a != [] { TilesEnd(a[1..], a[0].EndOffset(), total); }
  }

  /** The layout check: it accepts exactly the layouts that tile the file, with every segment within
      the ratio and all of them within the budget. */
  method ValidateSegmentLayout(segments: seq<CopySegment>, total: nat, maxTotal: nat, maxRatio: nat)
    returns (r: Result<seq<CopySegment>, CopyError>)
    ensures r.Ok? <==> Tiles(segments, 0, total) && TotalPlain(segments) <= maxTotal
                       && forall s :: s in segments ==> s.uncompressedSize <= s.compressedSize * maxRatio
    ensures r.Ok? ==> r.value == segments
  {
    var cursor, totalPlain := 0, 0;
    for i := 0 to |segments|
      invariant Tiles(segments[..i], 0, cursor) && cursor == Cursor(segments[..i], 0) <= total
      invariant totalPlain == TotalPlain(segments[..i]) <= maxTotal
      invariant RatiosOk(segments[..i], maxRatio)
    {
      var s := segments[i];
      assert segments[..i + 1] == segments[..i] + [s] && segments == segments[..i + 1] + segments[i + 1..];
      TilesSnoc(segments[..i], s, 0, s.EndOffset());
      if Tiles(segments, 0, total) {
        TilesPrefix(segments[..i + 1], segments[i + 1..], 0, total);
        TilesSnoc(segments[..i], s, 0, s.EndOffset());
        TilesUnique(segments[..i], 0, cursor, s.offset);
      }
      if s.offset != cursor { return Err(NotContiguous); }
      if s.EndOffset() > total { return Err(PastFile); }
      var bad := s.RatioError(maxRatio);
      if bad.Some? { return Err(bad.value); }
      totalPlain := totalPlain + s.uncompressedSize;
      if totalPlain > maxTotal { return Err(BudgetExceeded); }
      cursor := s.EndOffset();
    }
    assert segments[..|segments|] == segments;
    if cursor != total {
      if Tiles(segments, 0, total) { TilesUnique(segments, 0, cursor, total); }
      return Err(NotCovered);
    }
    return Ok(segments);
  }

  lemma {:induction false} TilesUnique(a: seq<CopySegment>, from: nat, x: nat, y: nat)
    requires Tiles(a, from, x) && Tiles(a, from, y)
    ensures x == y
    decreases a
  {
    if a != [] { TilesUnique(a[1..], a[0].EndOffset(), x, y); }
  }

  /** An accepted layout inflates to at most both the byte budget and the ratio cap. */
  lemma {:induction false} LayoutBoundsInflation(segments: seq<CopySegment>, from: nat, total: nat, maxRatio: nat)
    requires Tiles(segments, from, total) && RatiosOk(segments, maxRatio)
    ensures from <= total && TotalPlain(segments) <= maxRatio * (total - from)
    decreases segments
  {
    if segments != [] {
      var s := segments[0];
      LayoutBoundsInflation(segments[1..], s.EndOffset(), total, maxRatio);
      assert s.uncompressedSize <= s.compressedSize * maxRatio == maxRatio * s.compressedSize;
      assert maxRatio * (total - from) == maxRatio * s.compressedSize + maxRatio * (total - s.EndOffset());
    }
  }

  /** No byte of the file is in two segments, and every byte is in one. */
  lemma {:induction false} TilesPartition(segments: seq<CopySegment>, from: nat, total: nat, position: nat)
    requires Tiles(segments, from, total) && from <= position < total
    ensures exists i :: 0 <= i < |segments| && segments[i].offset <= position < segments[i].EndOffset()
    ensures forall i, j :: 0 <= i < j < |segments| ==> segments[i].EndOffset() <= segments[j].offset
    decreases segments
  {
    var s := segments[0];
    TilesAbove(segments[1..], s.EndOffset(), total);
    forall i, j | 0 <= i < j < |segments| ensures segments[i].EndOffset() <= segments[j].offset {
      TilesOrdered(segments, from, total, i, j);
    }
    if position < s.EndOffset() { assert segments[0].offset <= position; }
    else {
      TilesPartition(segments[1..], s.EndOffset(), total, position);
      var i :| 0 <= i < |segments| - 1 && segments[1..][i].offset <= position < segments[1..][i].EndOffset();
      assert segments[i + 1] == segments[1..][i];
    }
  }

  lemma {:induction false} TilesAbove(segments: seq<CopySegment>, from: nat, total: nat)
    requires Tiles(segments, from, total)
    ensures forall i :: 0 <= i < |segments| ==> from <= segments[i].offset
    decreases segments
  {
    if segments != [] {
      TilesAbove(segments[1..], segments[0].EndOffset(), total);
      forall i | 0 <= i < |segments| ensures from <= segments[i].offset {
        if i > 0 { assert segments[i] == segments[1..][i - 1]; }
      }
    }
  }

  lemma {:induction false} TilesOrdered(segments: seq<CopySegment>, from: nat, total: nat, i: nat, j: nat)
    requires Tiles(segments, from, total) && i < j < |segments|
    ensures segments[i].EndOffset() <= segments[j].offset
    decreases segments
  {
    TilesAbove(segments[1..], segments[0].EndOffset(), total);
    assert segments[j] == segments[1..][j - 1];
    if i > 0 {
      TilesOrdered(segments[1..], segments[0].EndOffset(), total, i - 1, j - 1);
      assert segments[i] == segments[1..][i - 1];
    }
  }
}
