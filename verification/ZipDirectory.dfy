/** Bounding a ZIP's central directory before anything allocates it (APPNOTE.TXT, sections 4.3.12
    and 4.3.14 to 4.3.16). */
module ZipDirectory {
  import opened Results
  import opened Bytes
  import opened CopyReader

  const END_SIZE: nat := 22
  const LOCATOR_SIZE: nat := 20
  const ZIP64_SIZE: nat := 56
  const HEADER_SIZE: nat := 46
  const MAX_COMMENT: nat := 65535

  datatype Limits = Limits(maxEntries: nat, maxDirectory: nat)
  datatype ZipError = ZipInvalid | TooManyEntries | DirectoryTooLarge

  /** An unsigned little-endian number of `n` bytes. */
  function Le(b: bytes, at: nat, n: nat): nat
    requires at + n <= |b|
    decreases n
  {
    if n == 0 then 0 else var low: int := b[at]; low + 256 * Le(b, at + 1, n - 1)
  }

  lemma {:induction false} LeSlice(b: bytes, i: nat, j: nat, k: nat, n: nat)
    requires i <= j <= |b| && k + n <= j - i
    ensures Le(b[i..j], k, n) == Le(b, i + k, n)
    decreases n
  {
    if n > 0 { LeSlice(b, i, j, k + 1, n - 1); }
  }

  /** `PK` and two more bytes. */
  predicate Signed(b: bytes, at: nat, x: byte, y: byte) {
    at + 4 <= |b| && b[at] == 0x50 && b[at + 1] == 0x4B && b[at + 2] == x && b[at + 3] == y
  }

  predicate EndSigned(b: bytes, at: nat) { Signed(b, at, 5, 6) }

  /** An end record whose comment reaches exactly to the end of the file. */
  predicate EndsAt(file: bytes, i: nat) {
    i + END_SIZE <= |file| && EndSigned(file, i) && i + END_SIZE + Le(file, i + 20, 2) == |file|
  }

  ghost predicate LastEnd(file: bytes, e: nat) {
    EndsAt(file, e) && forall j: nat :: j > e ==> !EndsAt(file, j)
  }

  /** What a directory record claims, and where the directory must stop. */
  datatype Directory = Directory(total: nat, size: nat, offset: nat, end: nat)

  datatype EndRecord = EndRecord(disk: nat, directoryDisk: nat, onDisk: nat, total: nat, size: nat, offset: nat)

  function EndRecordOf(b: bytes, at: nat): EndRecord
    requires at + END_SIZE <= |b|
  {
    EndRecord(Le(b, at + 4, 2), Le(b, at + 6, 2), Le(b, at + 8, 2), Le(b, at + 10, 2), Le(b, at + 12, 4), Le(b, at + 16, 4))
  }

  datatype Locator = Locator(disk: nat, offset: nat, disks: nat)

  function LocatorOf(b: bytes, at: nat): Locator
    requires at + LOCATOR_SIZE <= |b|
  {
    Locator(Le(b, at + 4, 4), Le(b, at + 8, 8), Le(b, at + 16, 4))
  }

  datatype Zip64Record = Zip64Record(
    size: nat, disk: nat, directoryDisk: nat, onDisk: nat, total: nat, directorySize: nat, offset: nat)

  function Zip64Of(b: bytes, at: nat): Zip64Record
    requires at + ZIP64_SIZE <= |b|
  {
    Zip64Record(Le(b, at + 4, 8), Le(b, at + 16, 4), Le(b, at + 20, 4), Le(b, at + 24, 8), Le(b, at + 32, 8),
                Le(b, at + 40, 8), Le(b, at + 48, 8))
  }

  predicate Sentinels(r: EndRecord) {
    r.onDisk == 0xFFFF || r.total == 0xFFFF || r.size == 0xFFFFFFFF || r.offset == 0xFFFFFFFF
  }

  predicate Agrees(legacy: nat, actual: nat, sentinel: nat) { legacy == sentinel || legacy == actual }

  /** The ZIP64 record and the legacy record describe one single-disk archive. */
  predicate Zip64Consistent(r: EndRecord, z: Zip64Record, at: nat, locatorAt: nat) {
    && z.size >= ZIP64_SIZE - 12 && at + 12 + z.size == locatorAt
    && z.disk == 0 && z.directoryDisk == 0 && z.onDisk == z.total
    && Agrees(r.onDisk, z.onDisk, 0xFFFF) && Agrees(r.total, z.total, 0xFFFF)
    && Agrees(r.size, z.directorySize, 0xFFFFFFFF) && Agrees(r.offset, z.offset, 0xFFFFFFFF)
  }

  predicate HasLocator(file: bytes, e: nat) { e >= LOCATOR_SIZE && Signed(file, e - LOCATOR_SIZE, 6, 7) }

  /** The directory of the archive whose ZIP64 locator stands right before `e`. */
  function Zip64Directory(file: bytes, e: nat): (d: Option<Directory>)
    requires EndsAt(file, e) && HasLocator(file, e)
    ensures d.Some? ==> d.value.end <= e
  {
    var l := LocatorOf(file, e - LOCATOR_SIZE);
    if l.disk != 0 || l.disks != 1 || l.offset + ZIP64_SIZE > |file| || !Signed(file, l.offset, 6, 6) then None
    else
      var z := Zip64Of(file, l.offset);
      if Zip64Consistent(EndRecordOf(file, e), z, l.offset, e - LOCATOR_SIZE)
      then Some(Directory(z.total, z.directorySize, z.offset, l.offset)) else None
  }

  function DirectoryOf(file: bytes, e: nat): (d: Option<Directory>)
    requires EndsAt(file, e)
    ensures d.Some? ==> d.value.end <= e
  {
    var r := EndRecordOf(file, e);
    if r.disk != 0 || r.directoryDisk != 0 then None
    else if HasLocator(file, e) then Zip64Directory(file, e)
    else if Sentinels(r) || r.onDisk != r.total then None
    else Some(Directory(r.total, r.size, r.offset, e))
  }

  /** A central directory header and its variable parts, inside `[at, end)`. */
  predicate HeaderAt(file: bytes, at: nat, end: nat) {
    at + HEADER_SIZE <= end <= |file| && Signed(file, at, 1, 2) && at + HeaderLength(file, at) <= end
  }

  function HeaderLength(file: bytes, at: nat): nat
    requires at + HEADER_SIZE <= |file|
  {
    HEADER_SIZE + Le(file, at + 28, 2) + Le(file, at + 30, 2) + Le(file, at + 32, 2)
  }

  function Plus(n: nat, more: Option<nat>): Option<nat> {
    match more case None => None case Some(m) => Some(n + m)
  }

  /** How many headers fill `[at, end)` exactly, if they do. */
  function Headers(file: bytes, at: nat, end: nat): (r: Option<nat>)
    ensures r.Some? ==> at + HEADER_SIZE * r.value <= end
    decreases end - at
  {
    if at >= end then if at == end then Some(0) else None
    else if !HeaderAt(file, at, end) then None
    else match Headers(file, at + HeaderLength(file, at), end)
         case None => None
         case Some(n) => Some(n + 1)
  }

  /** Where the header behind the i-th one starts, or the end. */
  ghost function Behind(starts: seq<nat>, i: nat, end: nat): nat {
    if i + 1 < |starts| then starts[i + 1] else end
  }

  /** `starts` are header positions that fill `[from, end)` with no gap or overlap. */
  ghost predicate Tiling(file: bytes, starts: seq<nat>, from: nat, end: nat) {
    && (if starts == [] then from == end else starts[0] == from)
    && forall i {:trigger HeaderAt(file, starts[i], end)} :: 0 <= i < |starts| ==>
         HeaderAt(file, starts[i], end) && starts[i] + HeaderLength(file, starts[i]) == Behind(starts, i, end)
  }

  lemma BehindShifts(from: nat, rest: seq<nat>, i: nat, end: nat)
    requires i < |rest|
    ensures ([from] + rest)[i + 1] == rest[i] && Behind([from] + rest, i + 1, end) == Behind(rest, i, end)
  {
  }

  lemma TilingAdds(file: bytes, from: nat, rest: seq<nat>, end: nat)
    requires HeaderAt(file, from, end) && Tiling(file, rest, from + HeaderLength(file, from), end)
    ensures Tiling(file, [from] + rest, from, end)
  {
    var starts := [from] + rest;
    assert starts[0] == from && Behind(starts, 0, end) == if rest == [] then end else rest[0];
    forall i {:trigger HeaderAt(file, starts[i], end)} | 0 <= i < |starts|
      ensures HeaderAt(file, starts[i], end) && starts[i] + HeaderLength(file, starts[i]) == Behind(starts, i, end)
    {
      if i > 0 {
        BehindShifts(from, rest, i - 1, end);
        assert HeaderAt(file, rest[i - 1], end);
      }
    }
  }

  lemma TilingDrops(file: bytes, from: nat, rest: seq<nat>, end: nat)
    requires HeaderAt(file, from, end) && Tiling(file, [from] + rest, from, end)
    ensures Tiling(file, rest, from + HeaderLength(file, from), end)
  {
    var starts := [from] + rest;
    assert starts[0] == from && Behind(starts, 0, end) == if rest == [] then end else rest[0];
    assert HeaderAt(file, starts[0], end);
    forall i {:trigger HeaderAt(file, rest[i], end)} | 0 <= i < |rest|
      ensures HeaderAt(file, rest[i], end) && rest[i] + HeaderLength(file, rest[i]) == Behind(rest, i, end)
    {
      BehindShifts(from, rest, i, end);
      assert HeaderAt(file, starts[i + 1], end);
    }
  }

  lemma {:induction false} HeadersTile(file: bytes, from: nat, end: nat) returns (starts: seq<nat>)
    requires Headers(file, from, end).Some?
    ensures Tiling(file, starts, from, end) && |starts| == Headers(file, from, end).value
    decreases end - from
  {
    if from == end {
      starts := [];
    } else {
      var rest := HeadersTile(file, from + HeaderLength(file, from), end);
      TilingAdds(file, from, rest, end);
      starts := [from] + rest;
    }
  }

  lemma HeadersCons(file: bytes, from: nat, end: nat)
    requires HeaderAt(file, from, end)
    ensures Headers(file, from, end) == Plus(1, Headers(file, from + HeaderLength(file, from), end))
  {
  }

  lemma TilingSplits(file: bytes, starts: seq<nat>, from: nat, end: nat)
    requires Tiling(file, starts, from, end) && starts != []
    ensures var next := Behind(starts, 0, end);
            Tiling(file, starts[1..], next, end) && Headers(file, from, end) == Plus(1, Headers(file, next, end))
  {
    assert HeaderAt(file, starts[0], end);
    assert starts == [from] + starts[1..];
    TilingDrops(file, from, starts[1..], end);
    HeadersCons(file, from, end);
  }

  lemma {:induction false} TilingCounts(file: bytes, starts: seq<nat>, from: nat, end: nat)
    requires Tiling(file, starts, from, end)
    ensures Headers(file, from, end) == Some(|starts|)
    decreases |starts|
  {
    if starts != [] {
      TilingSplits(file, starts, from, end);
      TilingCounts(file, starts[1..], Behind(starts, 0, end), end);
    }
  }

  /** An archive the check lets through: the last end record that closes the file names a directory
      within the limits, and exactly its headers fill the space up to the record behind it. */
  ghost predicate Bounded(file: bytes, limits: Limits, e: nat, d: Directory, starts: seq<nat>) {
    && LastEnd(file, e) && DirectoryOf(file, e) == Some(d)
    && d.total <= limits.maxEntries && d.size <= limits.maxDirectory && d.offset + d.size == d.end
    && Tiling(file, starts, d.offset, d.end) && |starts| == d.total
  }

  ghost predicate Acceptable(file: bytes, limits: Limits) { exists e, d, starts :: Bounded(file, limits, e, d, starts) }

  // The checker

  /** Seeks and reads exactly `size` bytes, or fails. */
  method ReadArchiveRange(source: PinnedFile, offset: nat, size: nat) returns (r: Option<bytes>)
    modifies source
    ensures r.Some? <==> size == 0 || offset + size <= |source.content|
    ensures r.Some? && size > 0 ==> r.value == source.content[offset..offset + size]
    ensures r.Some? ==> |r.value| == size
  {
    source.Seek(offset);
    var payload := source.Read(size);
    return if |payload| != size then None else Some(payload);
  }

  /** `tail.rfind(signature, 0, end)`. */
  method FindLast(tail: bytes, end: nat) returns (r: Option<nat>)
    requires end <= |tail|
    ensures r.Some? ==> r.value + 4 <= end && EndSigned(tail, r.value)
    ensures forall j: nat :: j + 4 <= end && (r.Some? ==> j > r.value) ==> !EndSigned(tail, j)
  {
    var i := end;
    while i > 0
      invariant 0 <= i <= end
      invariant forall j: nat :: j + 4 <= end && j >= i ==> !EndSigned(tail, j)
    {
      i := i - 1;
      if i + 4 <= end && EndSigned(tail, i) { return Some(i); }
    }
    return None;
  }

  /** Two end signatures never overlap, so restarting a search at one misses none. */
  lemma SignaturesApart(b: bytes, i: nat, j: nat)
    requires EndSigned(b, i) && EndSigned(b, j) && i < j
    ensures i + 4 <= j
  {
  }

  /** The backward search in the tail window; `file` is all of it. */
  method FindEndRecord(tail: bytes, ghost file: bytes, ghost tailOffset: nat) returns (r: Option<nat>)
    requires tailOffset <= |file| && tail == file[tailOffset..]
    requires tailOffset == 0 || |tail| == MAX_COMMENT + END_SIZE
    ensures r.Some? ==> LastEnd(file, tailOffset + r.value) && r.value + END_SIZE <= |tail|
    ensures r.None? ==> forall i: nat :: !EndsAt(file, i)
  {
    forall i: nat | EndsAt(file, i) ensures i >= tailOffset { EndInWindow(file, tailOffset, i); }
    var searchEnd: nat := |tail|;
    while true
      invariant searchEnd <= |tail|
      invariant forall i: nat :: EndsAt(file, i) ==> tailOffset <= i && i + 4 <= tailOffset + searchEnd
      decreases searchEnd
    {
      var found := FindLast(tail, searchEnd);
      if found.None? {
        forall i: nat ensures !EndsAt(file, i) {
          if EndsAt(file, i) { EndSignedIn(file, tailOffset, i); }
        }
        return None;
      }
      var index := found.value;
      forall i: nat | EndsAt(file, i) ensures i <= tailOffset + index {
        EndSignedIn(file, tailOffset, i);
      }
      if index + END_SIZE <= |tail| {
        LeSlice(file, tailOffset, |file|, index + 20, 2);
        if index + END_SIZE + Le(tail, index + 20, 2) == |tail| { return Some(index); }
      }
      forall i: nat | EndsAt(file, i) ensures i + 4 <= tailOffset + index {
        EndSignedIn(file, tailOffset, i);
        if i < tailOffset + index { SignaturesApart(tail, i - tailOffset, index); }
      }
      searchEnd := index;
    }
  }

  lemma EndSignedIn(file: bytes, from: nat, at: nat)
    requires from <= at && EndsAt(file, at)
    ensures EndSigned(file[from..], at - from)
  {
  }

  lemma {:induction false} LeBound(b: bytes, at: nat, n: nat)
    requires at + n <= |b| && n <= 2
    ensures 0 <= Le(b, at, n) <= 65535
  {
    if n == 2 { assert Le(b, at + 1, 1) == b[at + 1]; }
  }

  /** The tail window reaches back over the longest possible comment. */
  lemma EndInWindow(file: bytes, tailOffset: nat, i: nat)
    requires EndsAt(file, i) && (tailOffset == 0 || |file| - tailOffset == MAX_COMMENT + END_SIZE)
    ensures i >= tailOffset
  {
    LeBound(file, i + 20, 2);
  }

  lemma SignedSlice(b: bytes, i: nat, j: nat, x: byte, y: byte)
    requires i + 4 <= j <= |b|
    ensures Signed(b[i..j], 0, x, y) == Signed(b, i, x, y)
  {
  }

  lemma EndRecordSlice(b: bytes, i: nat, j: nat, at: nat)
    requires i <= j <= |b| && at + END_SIZE <= j - i
    ensures EndRecordOf(b[i..j], at) == EndRecordOf(b, i + at)
  {
    LeSlice(b, i, j, at + 4, 2);
    LeSlice(b, i, j, at + 6, 2);
    LeSlice(b, i, j, at + 8, 2);
    LeSlice(b, i, j, at + 10, 2);
    LeSlice(b, i, j, at + 12, 4);
    LeSlice(b, i, j, at + 16, 4);
  }

  lemma LocatorSlice(b: bytes, i: nat, j: nat)
    requires i + LOCATOR_SIZE == j <= |b|
    ensures LocatorOf(b[i..j], 0) == LocatorOf(b, i) && Signed(b[i..j], 0, 6, 7) == Signed(b, i, 6, 7)
  {
    SignedSlice(b, i, j, 6, 7);
    LeSlice(b, i, j, 4, 4);
    LeSlice(b, i, j, 8, 8);
    LeSlice(b, i, j, 16, 4);
  }

  lemma Zip64Slice(b: bytes, i: nat, j: nat)
    requires i + ZIP64_SIZE == j <= |b|
    ensures Zip64Of(b[i..j], 0) == Zip64Of(b, i) && Signed(b[i..j], 0, 6, 6) == Signed(b, i, 6, 6)
  {
    SignedSlice(b, i, j, 6, 6);
    LeSlice(b, i, j, 4, 8);
    LeSlice(b, i, j, 16, 4);
    LeSlice(b, i, j, 20, 4);
    LeSlice(b, i, j, 24, 8);
    LeSlice(b, i, j, 32, 8);
    LeSlice(b, i, j, 40, 8);
    LeSlice(b, i, j, 48, 8);
  }

  lemma HeaderSlice(b: bytes, i: nat, j: nat)
    requires i + HEADER_SIZE == j <= |b|
    ensures HeaderLength(b[i..j], 0) == HeaderLength(b, i) && Signed(b[i..j], 0, 1, 2) == Signed(b, i, 1, 2)
  {
    SignedSlice(b, i, j, 1, 2);
    LeSlice(b, i, j, 28, 2);
    LeSlice(b, i, j, 30, 2);
    LeSlice(b, i, j, 32, 2);
  }

  /** Reads what the end record at `e` says about the directory. */
  method ReadDirectory(source: PinnedFile, e: nat, eocd: EndRecord) returns (d: Option<Directory>)
    requires EndsAt(source.content, e) && eocd == EndRecordOf(source.content, e)
    modifies source
    ensures d == DirectoryOf(source.content, e)
  {
    if eocd.disk != 0 || eocd.directoryDisk != 0 { return None; }
    var locator: Option<Locator> := None;
    if e >= LOCATOR_SIZE {
      var candidate := ReadArchiveRange(source, e - LOCATOR_SIZE, LOCATOR_SIZE);
      if candidate.None? { return None; }
      LocatorSlice(source.content, e - LOCATOR_SIZE, e);
      if Signed(candidate.value, 0, 6, 7) { locator := Some(LocatorOf(candidate.value, 0)); }
    }
    if locator.None? {
      return if Sentinels(eocd) || eocd.onDisk != eocd.total then None
             else Some(Directory(eocd.total, eocd.size, eocd.offset, e));
    }
    d := ReadZip64(source, e, eocd, locator.value);
  }

  method ReadZip64(source: PinnedFile, e: nat, eocd: EndRecord, l: Locator) returns (d: Option<Directory>)
    requires EndsAt(source.content, e) && eocd == EndRecordOf(source.content, e)
    requires HasLocator(source.content, e) && l == LocatorOf(source.content, e - LOCATOR_SIZE)
    modifies source
    ensures d == Zip64Directory(source.content, e)
  {
    ghost var b := source.content;
    if l.disk != 0 || l.disks != 1 { return None; }
    var fixed := ReadArchiveRange(source, l.offset, ZIP64_SIZE);
    if fixed.None? { return None; }
    Zip64Slice(b, l.offset, l.offset + ZIP64_SIZE);
    if !Signed(fixed.value, 0, 6, 6) { return None; }
    var z := Zip64Of(fixed.value, 0);
    if !Zip64Consistent(eocd, z, l.offset, e - LOCATOR_SIZE) { return None; }
    return Some(Directory(z.total, z.directorySize, z.offset, l.offset));
  }

  /** Reads the header at the source's position; its length, if it is one and stays inside. */
  method ReadHeader(source: PinnedFile, end: nat) returns (length: Option<nat>)
    requires end <= |source.content| && source.pos < end
    modifies source
    ensures length.Some? <==> HeaderAt(source.content, old(source.pos), end)
    ensures length.Some? ==> length.value == HeaderLength(source.content, old(source.pos))
    ensures length.Some? ==> source.pos == old(source.pos) + length.value
  {
    var at := source.pos;
    var header := source.Read(HEADER_SIZE);
    if |header| != HEADER_SIZE { return None; }
    HeaderSlice(source.content, at, at + HEADER_SIZE);
    if !Signed(header, 0, 1, 2) || at + HeaderLength(header, 0) > end { return None; }
    source.Seek(at + HeaderLength(header, 0));
    return Some(HeaderLength(header, 0));
  }

  /** The walk over the central directory headers. */
  method WalkHeaders(source: PinnedFile, limits: Limits, d: Directory) returns (error: Option<ZipError>)
    requires d.end <= |source.content| && d.offset <= d.end && d.total <= limits.maxEntries
    modifies source
    ensures error.None? <==> Headers(source.content, d.offset, d.end) == Some(d.total)
  {
    var cursor, actual := d.offset, 0;
    source.Seek(d.offset);
    while cursor < d.end
      invariant d.offset <= cursor <= d.end && source.pos == cursor && actual <= limits.maxEntries
      invariant Headers(source.content, d.offset, d.end) == Plus(actual, Headers(source.content, cursor, d.end))
    {
      if actual >= limits.maxEntries { return Some(TooManyEntries); }
      var length := ReadHeader(source, d.end);
      if length.None? { return Some(ZipInvalid); }
      cursor, actual := cursor + length.value, actual + 1;
    }
    return if actual != d.total then Some(ZipInvalid) else None;
  }

  lemma AcceptableMeans(file: bytes, limits: Limits, e: nat)
    requires LastEnd(file, e)
    ensures Acceptable(file, limits) <==>
            DirectoryOf(file, e).Some? &&
            var d := DirectoryOf(file, e).value;
            && d.total <= limits.maxEntries && d.size <= limits.maxDirectory && d.offset + d.size == d.end
            && Headers(file, d.offset, d.end) == Some(d.total)
  {
    if Acceptable(file, limits) {
      var f, d, starts :| Bounded(file, limits, f, d, starts);
      assert EndsAt(file, e) && EndsAt(file, f);
      assert f == e;
      TilingCounts(file, starts, d.offset, d.end);
    }
    if DirectoryOf(file, e).Some? {
      var d := DirectoryOf(file, e).value;
      if && d.total <= limits.maxEntries && d.size <= limits.maxDirectory && d.offset + d.size == d.end
         && Headers(file, d.offset, d.end) == Some(d.total)
      {
        var starts := HeadersTile(file, d.offset, d.end);
        assert Bounded(file, limits, e, d, starts);
      }
    }
  }

  /** Accepts exactly the archives whose directory is bounded and tiled by its headers. */
  method PrevalidateZipDirectory(source: PinnedFile, limits: Limits) returns (error: Option<ZipError>)
    modifies source
    ensures error.None? <==> Acceptable(source.content, limits)
  {
    var archiveSize := |source.content|;
    var tailSize := if archiveSize < MAX_COMMENT + END_SIZE then archiveSize else MAX_COMMENT + END_SIZE;
    var tailOffset := archiveSize - tailSize;
    var tail := ReadArchiveRange(source, tailOffset, tailSize);
    if tail.None? { return Some(ZipInvalid); }
    assert tail.value == source.content[tailOffset..];
    var found := FindEndRecord(tail.value, source.content, tailOffset);
    if found.None? { return Some(ZipInvalid); }
    var e := tailOffset + found.value;
    EndRecordSlice(source.content, tailOffset, archiveSize, found.value);
    AcceptableMeans(source.content, limits, e);
    var directory := ReadDirectory(source, e, EndRecordOf(tail.value, found.value));
    if directory.None? { return Some(ZipInvalid); }
    var d := directory.value;
    if d.total > limits.maxEntries { return Some(TooManyEntries); }
    if d.size > limits.maxDirectory { return Some(DirectoryTooLarge); }
    if d.size < d.total * HEADER_SIZE { return Some(ZipInvalid); }
    if d.offset + d.size != d.end { return Some(ZipInvalid); }
    error := WalkHeaders(source, limits, d);
    if error.None? { source.Seek(0); }
  }
}
