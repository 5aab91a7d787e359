/** What a ZIP writer puts behind the members, field by field, and that the check accepts exactly such
    files (APPNOTE.TXT, sections 4.3.12 and 4.3.14 to 4.3.16). */
module ZipWriter {
  import opened Results
  import opened Bytes
  import opened ZipDirectory

  /** `n` in `k` bytes, the lowest first. */
  function LeBytes(n: nat, k: nat): (r: bytes)
    ensures |r| == k
  {
    if k == 0 then [] else [n % 256] + LeBytes(n / 256, k - 1)
  }

  function Power256(k: nat): nat { if k == 0 then 1 else 256 * Power256(k - 1) }

  const ZEROS: bytes := [0, 0, 0, 0]

  /** A member's entry in the directory: the fields of a header the check does not look at, and the
      three variable parts. */
  datatype Entry = Entry(front: bytes, back: bytes, name: bytes, extra: bytes, comment: bytes)

  predicate EntryOk(e: Entry) {
    |e.front| == 24 && |e.back| == 12 && |e.name| < 0x10000 && |e.extra| < 0x10000 && |e.comment| < 0x10000
  }

  predicate EntriesOk(es: seq<Entry>) { forall i :: 0 <= i < |es| ==> EntryOk(es[i]) }

  function EntryBytes(e: Entry): bytes {
    [0x50, 0x4B, 1, 2] + (e.front + (LeBytes(|e.name|, 2) + (LeBytes(|e.extra|, 2) + (LeBytes(|e.comment|, 2)
    + (e.back + (e.name + (e.extra + e.comment)))))))
  }

  function EntriesBytes(es: seq<Entry>): bytes {
    if es == [] then [] else EntryBytes(es[0]) + EntriesBytes(es[1..])
  }

  /** The end record, with nothing on other disks. */
  function EndBytes(onDisk: nat, total: nat, size: nat, offset: nat, comment: bytes): bytes {
    [0x50, 0x4B, 5, 6] + (ZEROS + (LeBytes(onDisk, 2) + (LeBytes(total, 2) + EndPlace(size, offset, comment))))
  }

  function EndPlace(size: nat, offset: nat, comment: bytes): bytes {
    LeBytes(size, 4) + (LeBytes(offset, 4) + (LeBytes(|comment|, 2) + comment))
  }

  /** The ZIP64 end record of `n` entries in `size` bytes at `offset`. */
  function RecordBytes(n: nat, size: nat, offset: nat, versions: bytes, more: bytes): bytes {
    [0x50, 0x4B, 6, 6] + (LeBytes(44 + |more|, 8) + (versions + RecordRest(n, size, offset, more)))
  }

  function RecordRest(n: nat, size: nat, offset: nat, more: bytes): bytes {
    ZEROS + (ZEROS + RecordCounts(n, size, offset, more))
  }

  function RecordCounts(n: nat, size: nat, offset: nat, more: bytes): bytes {
    LeBytes(n, 8) + (LeBytes(n, 8) + (LeBytes(size, 8) + (LeBytes(offset, 8) + more)))
  }

  /** The locator of a ZIP64 end record, on one disk of one. */
  function LocatorBytes(offset: nat): bytes {
    [0x50, 0x4B, 6, 7] + (ZEROS + (LeBytes(offset, 8) + LeBytes(1, 4)))
  }

  /** The ZIP64 part: what stands in the record besides the counts, and the numbers in the legacy record. */
  datatype Zip64 = Zip64(versions: bytes, more: bytes, onDisk: nat, total: nat, size: nat, offset: nat)

  datatype Archive = Archive(body: bytes, entries: seq<Entry>, zip64: Option<Zip64>, comment: bytes)
  {
    function Headers(): bytes { EntriesBytes(entries) }

    /** Where the directory ends. */
    function Stop(): nat { |body| + |Headers()| }

    function Middle(): bytes {
      match zip64
      case None => []
      case Some(z) => RecordBytes(|entries|, |Headers()|, |body|, z.versions, z.more) + LocatorBytes(Stop())
    }

    function End(): bytes {
      match zip64
      case None => EndBytes(|entries|, |entries|, |Headers()|, |body|, comment)
      case Some(z) => EndBytes(z.onDisk, z.total, z.size, z.offset, comment)
    }

    /** The bytes of the file. */
    function Written(): bytes { body + (Headers() + (Middle() + End())) }

    /** Where the end record stands. */
    function EndAt(): nat { Stop() + |Middle()| }
  }

  /** A locator signature twenty bytes before the end of `b`. */
  predicate LocatorBehind(b: bytes) { |b| >= 20 && b[|b| - 20..|b| - 16] == [0x50, 0x4B, 6, 7] }

  /** The legacy field says the number, or that it stands in the ZIP64 record. */
  predicate Tells(legacy: nat, n: nat, sentinel: nat) { legacy == sentinel || (legacy == n && n < sentinel) }

  /** A single-disk archive whose numbers fit their fields. */
  predicate Sound(a: Archive) {
    && EntriesOk(a.entries) && |a.comment| < 0x10000
    && match a.zip64
       case None =>
         |a.entries| < 0xFFFF && |a.Headers()| < 0xFFFFFFFF && |a.body| < 0xFFFFFFFF && !LocatorBehind(a.body + a.Headers())
       case Some(z) =>
         && |z.versions| == 4 && 44 + |z.more| < 0x1_0000_0000_0000_0000 && |a.entries| < 0x1_0000_0000_0000_0000
         && a.Stop() < 0x1_0000_0000_0000_0000
         && Tells(z.onDisk, |a.entries|, 0xFFFF) && Tells(z.total, |a.entries|, 0xFFFF)
         && Tells(z.size, |a.Headers()|, 0xFFFFFFFF) && Tells(z.offset, |a.body|, 0xFFFFFFFF)
  }

  /** An end signature at `j` whose comment reaches the end of the file. */
  predicate ClosesAt(file: bytes, j: nat) {
    && j + 22 <= |file| && file[j..j + 4] == [0x50, 0x4B, 5, 6]
    && var low: int, high: int := file[j + 20], file[j + 21]; j + 22 + low + 256 * high == |file|
  }

  ghost predicate NothingCloses(file: bytes, e: nat) { forall j: nat :: e < j ==> !ClosesAt(file, j) }

  // Fields at positions

  ghost predicate At(file: bytes, at: nat, part: bytes) { at + |part| <= |file| && file[at..at + |part|] == part }

  lemma AtBoth(file: bytes, at: nat, a: bytes, b: bytes)
    ensures At(file, at, a + b) <==> At(file, at, a) && At(file, at + |a|, b)
  {
    if at + |a| + |b| <= |file| {
      var whole := file[at..at + |a| + |b|];
      assert whole[..|a|] == file[at..at + |a|] && whole[|a|..] == file[at + |a|..at + |a| + |b|];
      assert whole == whole[..|a|] + whole[|a|..];
      assert (a + b)[..|a|] == a && (a + b)[|a|..] == b;
    }
  }

  lemma AtIndex(file: bytes, at: nat, part: bytes, i: nat)
    requires At(file, at, part) && i < |part|
    ensures file[at + i] == part[i]
  {
    assert file[at..at + |part|][i] == part[i];
  }

  lemma SignedAt(file: bytes, at: nat, x: byte, y: byte)
    ensures Signed(file, at, x, y) <==> At(file, at, [0x50, 0x4B, x, y])
  {
    if At(file, at, [0x50, 0x4B, x, y]) {
      AtIndex(file, at, [0x50, 0x4B, x, y], 0);
      AtIndex(file, at, [0x50, 0x4B, x, y], 1);
      AtIndex(file, at, [0x50, 0x4B, x, y], 2);
      AtIndex(file, at, [0x50, 0x4B, x, y], 3);
    }
    if Signed(file, at, x, y) { assert file[at..at + 4] == [0x50, 0x4B, x, y]; }
  }

  /** Reading a field inverts writing it. */
  lemma {:induction false} LeReads(file: bytes, at: nat, n: nat, k: nat)
    requires At(file, at, LeBytes(n, k)) && n < Power256(k)
    ensures Le(file, at, k) == n
    decreases k
  {
    if k > 0 {
      AtIndex(file, at, LeBytes(n, k), 0);
      AtBoth(file, at, [n % 256], LeBytes(n / 256, k - 1));
      LeReads(file, at + 1, n / 256, k - 1);
    }
  }

  /** And writing what was read gives the bytes back. */
  lemma {:induction false} LeWrites(file: bytes, at: nat, k: nat)
    requires at + k <= |file|
    ensures At(file, at, LeBytes(Le(file, at, k), k)) && Le(file, at, k) < Power256(k)
    decreases k
  {
    if k > 0 {
      var n := Le(file, at, k);
      LeWrites(file, at + 1, k - 1);
      assert n % 256 == file[at] && n / 256 == Le(file, at + 1, k - 1);
      assert file[at..at + 1] == [n % 256];
      AtBoth(file, at, [n % 256], LeBytes(n / 256, k - 1));
    }
  }

  lemma Powers()
    ensures Power256(2) == 0x10000 && Power256(4) == 0x1_0000_0000 && Power256(8) == 0x1_0000_0000_0000_0000
  {
    assert Power256(3) == 0x100_0000;
    assert Power256(5) == 0x100_0000_0000;
    assert Power256(6) == 0x1_0000_0000_0000;
    assert Power256(7) == 0x100_0000_0000_0000;
  }

  lemma ZerosAre()
    ensures LeBytes(0, 2) + LeBytes(0, 2) == ZEROS && LeBytes(0, 4) == ZEROS
  {
    assert LeBytes(0, 2) == [0, 0];
    assert LeBytes(0, 3) == [0, 0, 0];
  }

  // Entries

  ghost function EntryTail(e: Entry): bytes { e.name + (e.extra + e.comment) }

  lemma EntryFields(file: bytes, at: nat, e: Entry)
    requires |e.front| == 24 && |e.back| == 12
    ensures At(file, at, EntryBytes(e)) <==>
            && At(file, at, [0x50, 0x4B, 1, 2]) && At(file, at + 4, e.front) && At(file, at + 28, LeBytes(|e.name|, 2))
            && At(file, at + 30, LeBytes(|e.extra|, 2)) && At(file, at + 32, LeBytes(|e.comment|, 2))
            && At(file, at + 34, e.back) && At(file, at + 46, EntryTail(e))
  {
    var tail := EntryTail(e);
    var five := e.back + tail;
    var four := LeBytes(|e.comment|, 2) + five;
    var three := LeBytes(|e.extra|, 2) + four;
    var two := LeBytes(|e.name|, 2) + three;
    AtBoth(file, at, [0x50, 0x4B, 1, 2], e.front + two);
    AtBoth(file, at + 4, e.front, two);
    AtBoth(file, at + 28, LeBytes(|e.name|, 2), three);
    AtBoth(file, at + 30, LeBytes(|e.extra|, 2), four);
    AtBoth(file, at + 32, LeBytes(|e.comment|, 2), five);
    AtBoth(file, at + 34, e.back, tail);
  }

  lemma EntrySize(e: Entry)
    requires |e.front| == 24 && |e.back| == 12
    ensures |EntryBytes(e)| == 46 + |e.name| + |e.extra| + |e.comment|
  {
  }

  lemma EntryIsHeader(file: bytes, at: nat, e: Entry, end: nat)
    requires EntryOk(e) && At(file, at, EntryBytes(e)) && at + |EntryBytes(e)| <= end <= |file|
    ensures HeaderAt(file, at, end) && HeaderLength(file, at) == |EntryBytes(e)|
  {
    Powers();
    EntrySize(e);
    EntryFields(file, at, e);
    SignedAt(file, at, 1, 2);
    LeReads(file, at + 28, |e.name|, 2);
    LeReads(file, at + 30, |e.extra|, 2);
    LeReads(file, at + 32, |e.comment|, 2);
  }

  lemma FirstEntry(file: bytes, at: nat, es: seq<Entry>, end: nat)
    requires es != [] && EntryOk(es[0]) && At(file, at, EntriesBytes(es)) && at + |EntriesBytes(es)| == end
    ensures HeaderAt(file, at, end)
    ensures var next := at + HeaderLength(file, at);
            At(file, next, EntriesBytes(es[1..])) && next + |EntriesBytes(es[1..])| == end
  {
    AtBoth(file, at, EntryBytes(es[0]), EntriesBytes(es[1..]));
    EntryIsHeader(file, at, es[0], end);
  }

  lemma {:induction false} EntriesAreHeaders(file: bytes, at: nat, es: seq<Entry>, end: nat)
    requires EntriesOk(es) && At(file, at, EntriesBytes(es)) && at + |EntriesBytes(es)| == end
    ensures ZipDirectory.Headers(file, at, end) == Some(|es|)
    decreases |es|
  {
    if es != [] {
      FirstEntry(file, at, es, end);
      var next := at + HeaderLength(file, at);
      EntriesAreHeaders(file, next, es[1..], end);
      CountsOneMore(file, at, next, end, |es| - 1);
    }
  }

  lemma CountsOneMore(file: bytes, at: nat, next: nat, end: nat, n: nat)
    requires HeaderAt(file, at, end) && next == at + HeaderLength(file, at) && ZipDirectory.Headers(file, next, end) == Some(n)
    ensures ZipDirectory.Headers(file, at, end) == Some(n + 1)
  {
    HeadersCons(file, at, end);
  }

  /** The entry a header is the writing of. */
  lemma HeaderIsEntry(file: bytes, at: nat, end: nat) returns (e: Entry)
    requires HeaderAt(file, at, end)
    ensures EntryOk(e) && At(file, at, EntryBytes(e)) && |EntryBytes(e)| == HeaderLength(file, at)
  {
    var n, x, c := Le(file, at + 28, 2), Le(file, at + 30, 2), Le(file, at + 32, 2);
    Powers();
    LeWrites(file, at + 28, 2);
    LeWrites(file, at + 30, 2);
    LeWrites(file, at + 32, 2);
    var a := at + 46;
    HeaderParts(file, a, n, x, c);
    e := Entry(file[at + 4..at + 28], file[at + 34..at + 46], file[a..a + n], file[a + n..a + n + x], file[a + n + x..a + n + x + c]);
    SignedAt(file, at, 1, 2);
    EntryFields(file, at, e);
    EntrySize(e);
  }

  lemma HeaderParts(file: bytes, a: nat, n: nat, x: nat, c: nat)
    requires a + n + x + c <= |file|
    ensures At(file, a, file[a..a + n] + (file[a + n..a + n + x] + file[a + n + x..a + n + x + c]))
  {
    AtBoth(file, a + n, file[a + n..a + n + x], file[a + n + x..a + n + x + c]);
    AtBoth(file, a, file[a..a + n], file[a + n..a + n + x] + file[a + n + x..a + n + x + c]);
  }

  lemma {:induction false} HeadersAreEntries(file: bytes, at: nat, end: nat) returns (es: seq<Entry>)
    requires ZipDirectory.Headers(file, at, end).Some? && end <= |file|
    ensures at <= end && EntriesOk(es) && |es| == ZipDirectory.Headers(file, at, end).value
    ensures file[at..end] == EntriesBytes(es)
    decreases end - at
  {
    if at == end {
      es := [];
    } else {
      var e := HeaderIsEntry(file, at, end);
      var next := at + HeaderLength(file, at);
      var rest := HeadersAreEntries(file, next, end);
      es := [e] + rest;
      assert es[1..] == rest;
      assert file[at..end] == file[at..next] + file[next..end];
    }
  }

  // The end record

  lemma EndFields(file: bytes, at: nat, onDisk: nat, total: nat, size: nat, offset: nat, comment: bytes)
    ensures At(file, at, EndBytes(onDisk, total, size, offset, comment)) <==>
            && At(file, at, [0x50, 0x4B, 5, 6]) && At(file, at + 4, LeBytes(0, 2)) && At(file, at + 6, LeBytes(0, 2))
            && At(file, at + 8, LeBytes(onDisk, 2)) && At(file, at + 10, LeBytes(total, 2))
            && At(file, at + 12, LeBytes(size, 4)) && At(file, at + 16, LeBytes(offset, 4))
            && At(file, at + 20, LeBytes(|comment|, 2)) && At(file, at + 22, comment)
  {
    var place := EndPlace(size, offset, comment);
    var counts := LeBytes(onDisk, 2) + (LeBytes(total, 2) + place);
    AtBoth(file, at, [0x50, 0x4B, 5, 6], ZEROS + counts);
    AtBoth(file, at + 4, ZEROS, counts);
    ZerosAt(file, at + 4);
    AtBoth(file, at + 8, LeBytes(onDisk, 2), LeBytes(total, 2) + place);
    AtBoth(file, at + 10, LeBytes(total, 2), place);
    EndPlaceFields(file, at + 12, size, offset, comment);
  }

  lemma EndPlaceFields(file: bytes, at: nat, size: nat, offset: nat, comment: bytes)
    ensures At(file, at, EndPlace(size, offset, comment)) <==>
            && At(file, at, LeBytes(size, 4)) && At(file, at + 4, LeBytes(offset, 4))
            && At(file, at + 8, LeBytes(|comment|, 2)) && At(file, at + 10, comment)
  {
    AtBoth(file, at, LeBytes(size, 4), LeBytes(offset, 4) + (LeBytes(|comment|, 2) + comment));
    AtBoth(file, at + 4, LeBytes(offset, 4), LeBytes(|comment|, 2) + comment);
    AtBoth(file, at + 8, LeBytes(|comment|, 2), comment);
  }

  lemma ZerosAt(file: bytes, at: nat)
    ensures At(file, at, ZEROS) <==> At(file, at, LeBytes(0, 2)) && At(file, at + 2, LeBytes(0, 2))
  {
    ZerosAre();
    AtBoth(file, at, LeBytes(0, 2), LeBytes(0, 2));
  }

  lemma EndIsRead(file: bytes, at: nat, onDisk: nat, total: nat, size: nat, offset: nat, comment: bytes)
    requires At(file, at, EndBytes(onDisk, total, size, offset, comment)) && at + 22 + |comment| == |file|
    requires onDisk < 0x10000 && total < 0x10000 && size < 0x1_0000_0000 && offset < 0x1_0000_0000 && |comment| < 0x10000
    ensures EndsAt(file, at) && EndRecordOf(file, at) == EndRecord(0, 0, onDisk, total, size, offset)
  {
    Powers();
    EndFields(file, at, onDisk, total, size, offset, comment);
    SignedAt(file, at, 5, 6);
    LeReads(file, at + 4, 0, 2);
    LeReads(file, at + 6, 0, 2);
    LeReads(file, at + 8, onDisk, 2);
    LeReads(file, at + 10, total, 2);
    LeReads(file, at + 12, size, 4);
    LeReads(file, at + 16, offset, 4);
    LeReads(file, at + 20, |comment|, 2);
  }

  lemma EndWasWritten(file: bytes, at: nat)
    requires EndsAt(file, at) && EndRecordOf(file, at).disk == 0 && EndRecordOf(file, at).directoryDisk == 0
    ensures var r := EndRecordOf(file, at);
            && r.onDisk < 0x10000 && r.total < 0x10000 && r.size < 0x1_0000_0000 && r.offset < 0x1_0000_0000
            && |file| - at - 22 < 0x10000
            && file[at..] == EndBytes(r.onDisk, r.total, r.size, r.offset, file[at + 22..])
  {
    var r := EndRecordOf(file, at);
    Powers();
    LeWrites(file, at + 4, 2);
    LeWrites(file, at + 6, 2);
    LeWrites(file, at + 8, 2);
    LeWrites(file, at + 10, 2);
    LeWrites(file, at + 12, 4);
    LeWrites(file, at + 16, 4);
    LeWrites(file, at + 20, 2);
    SignedAt(file, at, 5, 6);
    EndFields(file, at, r.onDisk, r.total, r.size, r.offset, file[at + 22..]);
  }

  lemma ClosesMeansEnds(file: bytes, j: nat)
    ensures ClosesAt(file, j) <==> EndsAt(file, j)
  {
    if j + 22 <= |file| {
      SignedAt(file, j, 5, 6);
      var high: int := file[j + 21];
      assert Le(file, j + 21, 1) == high + 256 * Le(file, j + 22, 0);
    }
  }

  // The ZIP64 records

  lemma CountsFields(file: bytes, at: nat, n: nat, size: nat, offset: nat, more: bytes)
    ensures At(file, at, RecordCounts(n, size, offset, more)) <==>
            && At(file, at, LeBytes(n, 8)) && At(file, at + 8, LeBytes(n, 8)) && At(file, at + 16, LeBytes(size, 8))
            && At(file, at + 24, LeBytes(offset, 8)) && At(file, at + 32, more)
  {
    AtBoth(file, at, LeBytes(n, 8), LeBytes(n, 8) + (LeBytes(size, 8) + (LeBytes(offset, 8) + more)));
    AtBoth(file, at + 8, LeBytes(n, 8), LeBytes(size, 8) + (LeBytes(offset, 8) + more));
    AtBoth(file, at + 16, LeBytes(size, 8), LeBytes(offset, 8) + more);
    AtBoth(file, at + 24, LeBytes(offset, 8), more);
  }

  lemma RecordFields(file: bytes, at: nat, n: nat, size: nat, offset: nat, versions: bytes, more: bytes)
    requires |versions| == 4
    ensures At(file, at, RecordBytes(n, size, offset, versions, more)) <==>
            && At(file, at, [0x50, 0x4B, 6, 6]) && At(file, at + 4, LeBytes(44 + |more|, 8)) && At(file, at + 12, versions)
            && At(file, at + 16, LeBytes(0, 4)) && At(file, at + 20, LeBytes(0, 4))
            && At(file, at + 24, RecordCounts(n, size, offset, more))
  {
    var rest := RecordRest(n, size, offset, more);
    AtBoth(file, at, [0x50, 0x4B, 6, 6], LeBytes(44 + |more|, 8) + (versions + rest));
    AtBoth(file, at + 4, LeBytes(44 + |more|, 8), versions + rest);
    AtBoth(file, at + 12, versions, rest);
    RestFields(file, at + 16, n, size, offset, more);
  }

  lemma RestFields(file: bytes, at: nat, n: nat, size: nat, offset: nat, more: bytes)
    ensures At(file, at, RecordRest(n, size, offset, more)) <==>
            At(file, at, LeBytes(0, 4)) && At(file, at + 4, LeBytes(0, 4)) && At(file, at + 8, RecordCounts(n, size, offset, more))
  {
    var counts := RecordCounts(n, size, offset, more);
    ZerosAre();
    AtBoth(file, at, ZEROS, ZEROS + counts);
    AtBoth(file, at + 4, ZEROS, counts);
  }

  lemma LocatorFields(file: bytes, at: nat, offset: nat)
    ensures At(file, at, LocatorBytes(offset)) <==>
            && At(file, at, [0x50, 0x4B, 6, 7]) && At(file, at + 4, LeBytes(0, 4)) && At(file, at + 8, LeBytes(offset, 8))
            && At(file, at + 16, LeBytes(1, 4))
  {
    ZerosAre();
    AtBoth(file, at, [0x50, 0x4B, 6, 7], ZEROS + (LeBytes(offset, 8) + LeBytes(1, 4)));
    AtBoth(file, at + 4, ZEROS, LeBytes(offset, 8) + LeBytes(1, 4));
    AtBoth(file, at + 8, LeBytes(offset, 8), LeBytes(1, 4));
  }

  lemma RecordIsRead(file: bytes, at: nat, n: nat, size: nat, offset: nat, versions: bytes, more: bytes)
    requires At(file, at, RecordBytes(n, size, offset, versions, more)) && |versions| == 4
    requires n < Power256(8) && size < Power256(8) && offset < Power256(8) && 44 + |more| < Power256(8)
    ensures at + 56 + |more| <= |file| && Signed(file, at, 6, 6)
    ensures Zip64Of(file, at) == Zip64Record(44 + |more|, 0, 0, n, n, size, offset)
  {
    Powers();
    RecordFields(file, at, n, size, offset, versions, more);
    CountsFields(file, at + 24, n, size, offset, more);
    SignedAt(file, at, 6, 6);
    LeReads(file, at + 4, 44 + |more|, 8);
    LeReads(file, at + 16, 0, 4);
    LeReads(file, at + 20, 0, 4);
    LeReads(file, at + 24, n, 8);
    LeReads(file, at + 32, n, 8);
    LeReads(file, at + 40, size, 8);
    LeReads(file, at + 48, offset, 8);
  }

  lemma LocatorIsRead(file: bytes, at: nat, offset: nat)
    requires At(file, at, LocatorBytes(offset)) && offset < Power256(8)
    ensures at + 20 <= |file| && Signed(file, at, 6, 7) && LocatorOf(file, at) == Locator(0, offset, 1)
  {
    Powers();
    LocatorFields(file, at, offset);
    SignedAt(file, at, 6, 7);
    LeReads(file, at + 4, 0, 4);
    LeReads(file, at + 8, offset, 8);
    LeReads(file, at + 16, 1, 4);
  }

  lemma RecordWasWritten(file: bytes, at: nat, stop: nat)
    requires at + 56 <= stop <= |file| && Signed(file, at, 6, 6)
    requires var z := Zip64Of(file, at); at + 12 + z.size == stop && z.disk == 0 && z.directoryDisk == 0 && z.onDisk == z.total
    ensures var z := Zip64Of(file, at);
            && z.total < Power256(8) && z.directorySize < Power256(8) && z.offset < Power256(8) && z.size < Power256(8)
            && file[at..stop] == RecordBytes(z.total, z.directorySize, z.offset, file[at + 12..at + 16], file[at + 56..stop])
  {
    var z, more := Zip64Of(file, at), file[at + 56..stop];
    LeWrites(file, at + 4, 8);
    LeWrites(file, at + 16, 4);
    LeWrites(file, at + 20, 4);
    LeWrites(file, at + 24, 8);
    LeWrites(file, at + 32, 8);
    LeWrites(file, at + 40, 8);
    LeWrites(file, at + 48, 8);
    SignedAt(file, at, 6, 6);
    CountsFields(file, at + 24, z.total, z.directorySize, z.offset, more);
    RecordFields(file, at, z.total, z.directorySize, z.offset, file[at + 12..at + 16], more);
  }

  lemma LocatorWasWritten(file: bytes, at: nat)
    requires at + 20 <= |file| && Signed(file, at, 6, 7) && LocatorOf(file, at).disk == 0 && LocatorOf(file, at).disks == 1
    ensures file[at..at + 20] == LocatorBytes(LocatorOf(file, at).offset) && LocatorOf(file, at).offset < Power256(8)
  {
    LeWrites(file, at + 4, 4);
    LeWrites(file, at + 8, 8);
    LeWrites(file, at + 16, 4);
    SignedAt(file, at, 6, 7);
    LocatorFields(file, at, LocatorOf(file, at).offset);
  }

  // Written archives are accepted

  lemma Parts(a: Archive)
    ensures var file := a.Written();
            && At(file, 0, a.body) && At(file, |a.body|, a.Headers()) && At(file, a.Stop(), a.Middle())
            && At(file, a.EndAt(), a.End()) && |file| == a.EndAt() + |a.End()|
  {
    FourParts(a.Written(), a.body, a.Headers(), a.Middle(), a.End());
  }

  lemma FourParts(file: bytes, b: bytes, h: bytes, m: bytes, e: bytes)
    requires file == b + (h + (m + e))
    ensures At(file, 0, b) && At(file, |b|, h) && At(file, |b| + |h|, m) && At(file, |b| + |h| + |m|, e)
    ensures |file| == |b| + |h| + |m| + |e|
  {
    Whole(file);
    AtBoth(file, 0, b, h + (m + e));
    AtBoth(file, |b|, h, m + e);
    AtBoth(file, |b| + |h|, m, e);
  }

  lemma Whole(file: bytes)
    ensures At(file, 0, file)
  {
  }

  lemma EndSize(onDisk: nat, total: nat, size: nat, offset: nat, comment: bytes)
    ensures |EndBytes(onDisk, total, size, offset, comment)| == 22 + |comment|
  {
  }

  lemma LegacyDirectory(a: Archive)
    requires Sound(a) && a.zip64.None?
    ensures EndsAt(a.Written(), a.EndAt())
    ensures DirectoryOf(a.Written(), a.EndAt()) == Some(Directory(|a.entries|, |a.Headers()|, |a.body|, a.Stop()))
  {
    var file, e := a.Written(), a.EndAt();
    Parts(a);
    EndSize(|a.entries|, |a.entries|, |a.Headers()|, |a.body|, a.comment);
    EndIsRead(file, e, |a.entries|, |a.entries|, |a.Headers()|, |a.body|, a.comment);
    NoLocatorBehind(a, file);
  }

  lemma NoLocatorBehind(a: Archive, file: bytes)
    requires file == a.Written() && Sound(a) && a.zip64.None?
    ensures !HasLocator(file, a.EndAt())
  {
    FrontIs(a, file);
    if HasLocator(file, a.EndAt()) { LocatorShows(file, a.EndAt(), a.body + a.Headers()); }
  }

  lemma FrontIs(a: Archive, file: bytes)
    requires file == a.Written() && a.zip64.None?
    ensures a.EndAt() <= |file| && file[..a.EndAt()] == a.body + a.Headers()
  {
    Parts(a);
    AtBoth(file, 0, a.body, a.Headers());
  }

  lemma LocatorShows(file: bytes, e: nat, front: bytes)
    requires e <= |file| && HasLocator(file, e) && front == file[..e]
    ensures LocatorBehind(front)
  {
    SignedAt(file, e - 20, 6, 7);
    assert front[e - 20..e - 16] == file[e - 20..e - 16];
  }

  lemma Zip64Sizes(z: Zip64, n: nat, size: nat, offset: nat, stop: nat)
    requires |z.versions| == 4
    ensures |RecordBytes(n, size, offset, z.versions, z.more)| == 56 + |z.more| && |LocatorBytes(stop)| == 20
  {
  }

  /** What the reader finds behind the directory. */
  ghost predicate FoundWide(file: bytes, stop: nat, e: nat, n: nat, size: nat, offset: nat) {
    && stop + 56 + 20 <= e <= |file| && HasLocator(file, e) && LocatorOf(file, e - 20) == Locator(0, stop, 1)
    && Signed(file, stop, 6, 6) && Zip64Of(file, stop) == Zip64Record(e - 32 - stop, 0, 0, n, n, size, offset)
  }

  lemma MiddleIsRead(file: bytes, stop: nat, e: nat, n: nat, size: nat, offset: nat, z: Zip64)
    requires At(file, stop, RecordBytes(n, size, offset, z.versions, z.more) + LocatorBytes(stop)) && |z.versions| == 4
    requires n < Power256(8) && size < Power256(8) && offset < Power256(8) && 44 + |z.more| < Power256(8) && stop < Power256(8)
    requires e == stop + 76 + |z.more|
    ensures FoundWide(file, stop, e, n, size, offset)
  {
    RecordFound(file, stop, n, size, offset, z);
    LocatorFound(file, stop, n, size, offset, z);
    AssembleWide(file, stop, e, n, size, offset);
  }

  lemma RecordFound(file: bytes, stop: nat, n: nat, size: nat, offset: nat, z: Zip64)
    requires At(file, stop, RecordBytes(n, size, offset, z.versions, z.more) + LocatorBytes(stop)) && |z.versions| == 4
    requires n < Power256(8) && size < Power256(8) && offset < Power256(8) && 44 + |z.more| < Power256(8)
    ensures stop + 56 + |z.more| <= |file| && Signed(file, stop, 6, 6)
    ensures Zip64Of(file, stop) == Zip64Record(44 + |z.more|, 0, 0, n, n, size, offset)
  {
    MiddleSplits(file, stop, n, size, offset, z);
    RecordIsRead(file, stop, n, size, offset, z.versions, z.more);
  }

  lemma LocatorFound(file: bytes, stop: nat, n: nat, size: nat, offset: nat, z: Zip64)
    requires At(file, stop, RecordBytes(n, size, offset, z.versions, z.more) + LocatorBytes(stop)) && |z.versions| == 4
    requires stop < Power256(8)
    ensures var l := stop + 56 + |z.more|;
            l + 20 <= |file| && Signed(file, l, 6, 7) && LocatorOf(file, l) == Locator(0, stop, 1)
  {
    MiddleSplits(file, stop, n, size, offset, z);
    LocatorIsRead(file, stop + 56 + |z.more|, stop);
  }

  lemma MiddleSplits(file: bytes, stop: nat, n: nat, size: nat, offset: nat, z: Zip64)
    requires At(file, stop, RecordBytes(n, size, offset, z.versions, z.more) + LocatorBytes(stop)) && |z.versions| == 4
    ensures At(file, stop, RecordBytes(n, size, offset, z.versions, z.more)) && At(file, stop + 56 + |z.more|, LocatorBytes(stop))
  {
    Zip64Sizes(z, n, size, offset, stop);
    AtBoth(file, stop, RecordBytes(n, size, offset, z.versions, z.more), LocatorBytes(stop));
  }

  lemma AssembleWide(file: bytes, stop: nat, e: nat, n: nat, size: nat, offset: nat)
    requires stop + 76 <= e <= |file| && Signed(file, e - 20, 6, 7) && LocatorOf(file, e - 20) == Locator(0, stop, 1)
    requires Signed(file, stop, 6, 6) && Zip64Of(file, stop) == Zip64Record(e - 32 - stop, 0, 0, n, n, size, offset)
    ensures FoundWide(file, stop, e, n, size, offset)
  {
  }

  lemma WideFound(a: Archive, z: Zip64)
    requires Sound(a) && a.zip64 == Some(z)
    ensures FoundWide(a.Written(), a.Stop(), a.EndAt(), |a.entries|, |a.Headers()|, |a.body|)
  {
    Powers();
    Parts(a);
    Zip64Sizes(z, |a.entries|, |a.Headers()|, |a.body|, a.Stop());
    MiddleIsRead(a.Written(), a.Stop(), a.EndAt(), |a.entries|, |a.Headers()|, |a.body|, z);
  }

  lemma FoundWideDirectory(file: bytes, stop: nat, e: nat, n: nat, size: nat, offset: nat, z: Zip64)
    requires EndsAt(file, e) && EndRecordOf(file, e) == EndRecord(0, 0, z.onDisk, z.total, z.size, z.offset)
    requires FoundWide(file, stop, e, n, size, offset)
    requires Tells(z.onDisk, n, 0xFFFF) && Tells(z.total, n, 0xFFFF) && Tells(z.size, size, 0xFFFFFFFF) && Tells(z.offset, offset, 0xFFFFFFFF)
    ensures DirectoryOf(file, e) == Some(Directory(n, size, offset, stop))
  {
  }

  lemma WideDirectory(a: Archive, z: Zip64)
    requires Sound(a) && a.zip64 == Some(z)
    ensures EndsAt(a.Written(), a.EndAt())
    ensures DirectoryOf(a.Written(), a.EndAt()) == Some(Directory(|a.entries|, |a.Headers()|, |a.body|, a.Stop()))
  {
    var file, e := a.Written(), a.EndAt();
    Parts(a);
    EndSize(z.onDisk, z.total, z.size, z.offset, a.comment);
    EndIsRead(file, e, z.onDisk, z.total, z.size, z.offset, a.comment);
    WideFound(a, z);
    FoundWideDirectory(file, a.Stop(), e, |a.entries|, |a.Headers()|, |a.body|, z);
  }

  /** A written archive with no later end record is accepted exactly within the limits. */
  lemma WrittenIsAccepted(a: Archive, limits: Limits)
    requires Sound(a) && NothingCloses(a.Written(), a.EndAt())
    ensures Acceptable(a.Written(), limits) <==> |a.entries| <= limits.maxEntries && |a.Headers()| <= limits.maxDirectory
  {
    var file, e := a.Written(), a.EndAt();
    match a.zip64 { case None => LegacyDirectory(a); case Some(z) => WideDirectory(a, z); }
    forall j: nat | j > e ensures !EndsAt(file, j) { ClosesMeansEnds(file, j); }
    AcceptableMeans(file, limits, e);
    Parts(a);
    EntriesAreHeaders(file, |a.body|, a.entries, a.Stop());
  }

  // Accepted archives are written so

  lemma FileInParts(file: bytes, o: nat, d: nat, m: nat)
    requires o <= d <= m <= |file|
    ensures file == file[..o] + (file[o..d] + (file[d..m] + file[m..]))
  {
  }

  lemma NoLocatorInFront(file: bytes, e: nat, front: bytes)
    requires e <= |file| && !HasLocator(file, e) && front == file[..e]
    ensures !LocatorBehind(front)
  {
    if e >= 20 {
      SignedAt(file, e - 20, 6, 7);
      assert front[e - 20..e - 16] == file[e - 20..e - 16];
    }
  }

  /** An archive whose parts are those of the file is written as the file. */
  lemma PutTogether(a: Archive, file: bytes, o: nat, stop: nat, e: nat)
    requires o <= stop <= e <= |file| && a.body == file[..o] && a.Headers() == file[o..stop]
    requires a.Middle() == file[stop..e] && a.End() == file[e..]
    ensures a.Written() == file && a.Stop() == stop && a.EndAt() == e
  {
    FileInParts(file, o, stop, e);
  }

  lemma LegacyMeans(file: bytes, e: nat, d: Directory)
    requires EndsAt(file, e) && !HasLocator(file, e) && DirectoryOf(file, e) == Some(d)
    ensures d.end == e && EndRecordOf(file, e) == EndRecord(0, 0, d.total, d.total, d.size, d.offset)
    ensures d.total != 0xFFFF && d.size != 0xFFFFFFFF && d.offset != 0xFFFFFFFF
  {
  }

  lemma LegacyWasWritten(file: bytes, e: nat, d: Directory, es: seq<Entry>) returns (a: Archive)
    requires EndsAt(file, e) && !HasLocator(file, e) && DirectoryOf(file, e) == Some(d) && d.offset + d.size == d.end
    requires EntriesOk(es) && |es| == d.total && file[d.offset..d.end] == EntriesBytes(es)
    ensures Sound(a) && a.Written() == file && a.EndAt() == e && a.entries == es && |a.Headers()| == d.size
  {
    LegacyMeans(file, e, d);
    EndPart(file, e);
    a := Archive(file[..d.offset], es, None, file[e + 22..]);
    assert file[e..e] == [];
    PutTogether(a, file, d.offset, e, e);
    LegacyIsSound(file, e, d, a);
  }

  lemma LegacyIsSound(file: bytes, e: nat, d: Directory, a: Archive)
    requires EndsAt(file, e) && !HasLocator(file, e) && DirectoryOf(file, e) == Some(d) && d.offset + d.size == d.end
    requires a.zip64.None? && EntriesOk(a.entries) && |a.entries| == d.total && |a.Headers()| == d.size && |a.comment| < 0x10000
    requires a.body == file[..d.offset] && a.Headers() == file[d.offset..d.end]
    ensures Sound(a)
  {
    LegacyMeans(file, e, d);
    LegacyBounds(file, e, d);
    TwoParts(file, 0, d.offset, e);
    NoLocatorInFront(file, e, a.body + a.Headers());
  }

  lemma LegacyBounds(file: bytes, e: nat, d: Directory)
    requires EndsAt(file, e) && EndRecordOf(file, e) == EndRecord(0, 0, d.total, d.total, d.size, d.offset)
    ensures d.total < 0x10000 && d.size < 0x1_0000_0000 && d.offset < 0x1_0000_0000
  {
    EndWasWritten(file, e);
  }

  /** What an accepted ZIP64 directory says of the records it was read from. */
  lemma WideMeans(file: bytes, e: nat, d: Directory)
    requires EndsAt(file, e) && HasLocator(file, e) && DirectoryOf(file, e) == Some(d)
    ensures LocatorOf(file, e - 20) == Locator(0, d.end, 1) && d.end + 76 <= e && Signed(file, d.end, 6, 6)
    ensures Zip64Of(file, d.end) == Zip64Record(e - 32 - d.end, 0, 0, d.total, d.total, d.size, d.offset)
    ensures EndRecordOf(file, e).disk == 0 && EndRecordOf(file, e).directoryDisk == 0
  {
  }

  lemma LegacyTells(file: bytes, e: nat, d: Directory)
    requires EndsAt(file, e) && HasLocator(file, e) && DirectoryOf(file, e) == Some(d)
    ensures var r := EndRecordOf(file, e);
            && Tells(r.onDisk, d.total, 0xFFFF) && Tells(r.total, d.total, 0xFFFF)
            && Tells(r.size, d.size, 0xFFFFFFFF) && Tells(r.offset, d.offset, 0xFFFFFFFF)
  {
    WideMeans(file, e, d);
    EndWasWritten(file, e);
  }

  lemma WideBounds(file: bytes, e: nat, d: Directory)
    requires EndsAt(file, e) && HasLocator(file, e) && DirectoryOf(file, e) == Some(d)
    ensures d.end + 76 <= e && e - 32 - d.end < Power256(8) && d.total < Power256(8) && d.end < Power256(8)
  {
    WideMeans(file, e, d);
    LeWrites(file, e - 20 + 8, 8);
    LeWrites(file, d.end + 4, 8);
    LeWrites(file, d.end + 32, 8);
  }

  lemma Joined(file: bytes, i: nat, j: nat, k: nat, a: bytes, b: bytes)
    requires i <= j <= k <= |file| && file[i..j] == a && file[j..k] == b
    ensures file[i..k] == a + b
  {
    TwoParts(file, i, j, k);
  }

  lemma LocatorPart(file: bytes, l: nat, stop: nat)
    requires l + 20 <= |file| && Signed(file, l, 6, 7) && LocatorOf(file, l) == Locator(0, stop, 1)
    ensures file[l..l + 20] == LocatorBytes(stop)
  {
    LocatorWasWritten(file, l);
  }

  lemma RecordPart(file: bytes, at: nat, l: nat, d: Directory)
    requires at + 56 <= l <= |file| && Signed(file, at, 6, 6)
    requires Zip64Of(file, at) == Zip64Record(l - 12 - at, 0, 0, d.total, d.total, d.size, d.offset)
    ensures file[at..l] == RecordBytes(d.total, d.size, d.offset, file[at + 12..at + 16], file[at + 56..l])
  {
    RecordWasWritten(file, at, l);
  }

  lemma WideLocatorPart(file: bytes, e: nat, d: Directory)
    requires EndsAt(file, e) && HasLocator(file, e) && DirectoryOf(file, e) == Some(d) && d.end + 76 <= e
    ensures file[e - 20..e] == LocatorBytes(d.end)
  {
    WideMeans(file, e, d);
    LocatorPart(file, e - 20, d.end);
  }

  lemma WideRecordPart(file: bytes, e: nat, d: Directory)
    requires EndsAt(file, e) && HasLocator(file, e) && DirectoryOf(file, e) == Some(d) && d.end + 76 <= e
    ensures file[d.end..e - 20] == RecordBytes(d.total, d.size, d.offset, file[d.end + 12..d.end + 16], file[d.end + 56..e - 20])
  {
    WideMeans(file, e, d);
    RecordPart(file, d.end, e - 20, d);
  }

  lemma WideFields(file: bytes, e: nat, d: Directory)
    requires EndsAt(file, e) && HasLocator(file, e) && DirectoryOf(file, e) == Some(d) && d.end + 76 <= e
    ensures file[d.end..e] == RecordBytes(d.total, d.size, d.offset, file[d.end + 12..d.end + 16], file[d.end + 56..e - 20])
                              + LocatorBytes(d.end)
  {
    WideLocatorPart(file, e, d);
    WideRecordPart(file, e, d);
    Joined(file, d.end, e - 20, e,
           RecordBytes(d.total, d.size, d.offset, file[d.end + 12..d.end + 16], file[d.end + 56..e - 20]), LocatorBytes(d.end));
  }

  /** The archive whose end stands at `e`, read off the file. */
  function WideArchive(file: bytes, e: nat, r: EndRecord, d: Directory, es: seq<Entry>): Archive
    requires d.offset <= d.end && d.end + 76 <= e && e + 22 <= |file|
  {
    var z := Zip64(file[d.end + 12..d.end + 16], file[d.end + 56..e - 20], r.onDisk, r.total, r.size, r.offset);
    Archive(file[..d.offset], es, Some(z), file[e + 22..])
  }

  lemma EndPart(file: bytes, e: nat)
    requires EndsAt(file, e) && EndRecordOf(file, e).disk == 0 && EndRecordOf(file, e).directoryDisk == 0
    ensures |file[e + 22..]| < 0x10000
    ensures var r := EndRecordOf(file, e); EndBytes(r.onDisk, r.total, r.size, r.offset, file[e + 22..]) == file[e..]
  {
    EndWasWritten(file, e);
  }

  lemma WideIsSound(file: bytes, e: nat, r: EndRecord, d: Directory, es: seq<Entry>)
    requires EndsAt(file, e) && d.end + 76 <= e && d.offset + d.size == d.end && EntriesOk(es) && |es| == d.total
    requires && Tells(r.onDisk, d.total, 0xFFFF) && Tells(r.total, d.total, 0xFFFF)
             && Tells(r.size, d.size, 0xFFFFFFFF) && Tells(r.offset, d.offset, 0xFFFFFFFF)
    requires |file[e + 22..]| < 0x10000 && e - 32 - d.end < 0x1_0000_0000_0000_0000
    requires d.total < 0x1_0000_0000_0000_0000 && d.end < 0x1_0000_0000_0000_0000
    requires |EntriesBytes(es)| == d.size
    ensures Sound(WideArchive(file, e, r, d, es))
  {
  }

  lemma WideMiddle(a: Archive, z: Zip64, d: Directory)
    requires a.zip64 == Some(z) && |a.entries| == d.total && |a.Headers()| == d.size && |a.body| == d.offset && d.offset + d.size == d.end
    ensures a.Middle() == RecordBytes(d.total, d.size, d.offset, z.versions, z.more) + LocatorBytes(d.end)
    ensures a.End() == EndBytes(z.onDisk, z.total, z.size, z.offset, a.comment)
  {
  }

  lemma WideReadsSound(file: bytes, e: nat, d: Directory, es: seq<Entry>)
    requires EndsAt(file, e) && HasLocator(file, e) && DirectoryOf(file, e) == Some(d) && d.offset + d.size == d.end && d.end + 76 <= e
    requires EntriesOk(es) && |es| == d.total && |EntriesBytes(es)| == d.size
    ensures Sound(WideArchive(file, e, EndRecordOf(file, e), d, es))
  {
    WideMeans(file, e, d);
    WideBounds(file, e, d);
    LegacyTells(file, e, d);
    EndPart(file, e);
    Powers();
    WideIsSound(file, e, EndRecordOf(file, e), d, es);
  }

  lemma MiddleOf(file: bytes, e: nat, a: Archive, z: Zip64, d: Directory)
    requires a.zip64 == Some(z) && |a.entries| == d.total && |a.Headers()| == d.size && |a.body| == d.offset && d.offset + d.size == d.end
    requires d.end + 76 <= e && e + 22 <= |file| && z.versions == file[d.end + 12..d.end + 16] && z.more == file[d.end + 56..e - 20]
    requires file[d.end..e] == RecordBytes(d.total, d.size, d.offset, file[d.end + 12..d.end + 16], file[d.end + 56..e - 20])
                               + LocatorBytes(d.end)
    ensures a.Middle() == file[d.end..e]
  {
    WideMiddle(a, z, d);
  }

  lemma WideArchiveIs(file: bytes, e: nat, r: EndRecord, d: Directory, es: seq<Entry>)
    requires d.offset + d.size == d.end && d.end + 76 <= e && e + 22 <= |file| && |es| == d.total && |EntriesBytes(es)| == d.size
    ensures var a := WideArchive(file, e, r, d, es);
            && |a.entries| == d.total && |a.Headers()| == d.size && |a.body| == d.offset
            && a.zip64 == Some(Zip64(file[d.end + 12..d.end + 16], file[d.end + 56..e - 20], r.onDisk, r.total, r.size, r.offset))
  {
  }

  lemma WideReadsMiddle(file: bytes, e: nat, r: EndRecord, d: Directory, es: seq<Entry>)
    requires d.offset + d.size == d.end && d.end + 76 <= e && e + 22 <= |file| && |es| == d.total && |EntriesBytes(es)| == d.size
    requires file[d.end..e] == RecordBytes(d.total, d.size, d.offset, file[d.end + 12..d.end + 16], file[d.end + 56..e - 20])
                               + LocatorBytes(d.end)
    ensures WideArchive(file, e, r, d, es).Middle() == file[d.end..e]
  {
    WideArchiveIs(file, e, r, d, es);
    MiddleOf(file, e, WideArchive(file, e, r, d, es),
             Zip64(file[d.end + 12..d.end + 16], file[d.end + 56..e - 20], r.onDisk, r.total, r.size, r.offset), d);
  }

  lemma WideReadsEnd(file: bytes, e: nat, r: EndRecord, d: Directory, es: seq<Entry>)
    requires d.offset + d.size == d.end && d.end + 76 <= e && e + 22 <= |file| && |es| == d.total && |EntriesBytes(es)| == d.size
    requires EndBytes(r.onDisk, r.total, r.size, r.offset, file[e + 22..]) == file[e..]
    ensures WideArchive(file, e, r, d, es).End() == file[e..]
  {
    var a := WideArchive(file, e, r, d, es);
    WideMiddle(a, a.zip64.value, d);
  }

  lemma WideReadsParts(file: bytes, e: nat, d: Directory, es: seq<Entry>)
    requires EndsAt(file, e) && HasLocator(file, e) && DirectoryOf(file, e) == Some(d) && d.offset + d.size == d.end && d.end + 76 <= e
    requires |es| == d.total && |EntriesBytes(es)| == d.size
    ensures WideArchive(file, e, EndRecordOf(file, e), d, es).Middle() == file[d.end..e] && WideArchive(file, e, EndRecordOf(file, e), d, es).End() == file[e..]
  {
    WideMeans(file, e, d);
    EndPart(file, e);
    WideFields(file, e, d);
    WideReadsMiddle(file, e, EndRecordOf(file, e), d, es);
    WideReadsEnd(file, e, EndRecordOf(file, e), d, es);
  }

  lemma WideWasWritten(file: bytes, e: nat, d: Directory, es: seq<Entry>) returns (a: Archive)
    requires EndsAt(file, e) && HasLocator(file, e) && DirectoryOf(file, e) == Some(d) && d.offset + d.size == d.end
    requires EntriesOk(es) && |es| == d.total && file[d.offset..d.end] == EntriesBytes(es)
    ensures Sound(a) && a.Written() == file && a.EndAt() == e && a.entries == es && |a.Headers()| == d.size
  {
    WideBounds(file, e, d);
    WideReadsSound(file, e, d, es);
    WideReadsParts(file, e, d, es);
    a := WideArchive(file, e, EndRecordOf(file, e), d, es);
    PutTogether(a, file, d.offset, d.end, e);
  }

  lemma TwoParts(file: bytes, i: nat, j: nat, k: nat)
    requires i <= j <= k <= |file|
    ensures file[i..j] + file[j..k] == file[i..k]
  {
  }

  /** A single-disk archive within the limits whose end record is the last that closes the file. */
  ghost predicate WrittenAs(file: bytes, limits: Limits, a: Archive) {
    && Sound(a) && file == a.Written() && NothingCloses(file, a.EndAt())
    && |a.entries| <= limits.maxEntries && |a.Headers()| <= limits.maxDirectory
  }

  /** The check accepts exactly the files a writer produces: any bytes, the directory's headers, with
      or without the ZIP64 records, and the end record with its comment. */
  lemma AcceptedIffWritten(file: bytes, limits: Limits)
    ensures Acceptable(file, limits) <==> exists a :: WrittenAs(file, limits, a)
  {
    if a :| WrittenAs(file, limits, a) { WrittenIsAccepted(a, limits); }
    if Acceptable(file, limits) { var a := AcceptedWasWritten(file, limits); }
  }

  lemma AcceptedWasWritten(file: bytes, limits: Limits) returns (a: Archive)
    requires Acceptable(file, limits)
    ensures WrittenAs(file, limits, a)
  {
    var e, d, starts :| Bounded(file, limits, e, d, starts);
    TilingCounts(file, starts, d.offset, d.end);
    var es := HeadersAreEntries(file, d.offset, d.end);
    if HasLocator(file, e) { a := WideWasWritten(file, e, d, es); } else { a := LegacyWasWritten(file, e, d, es); }
    forall j: nat | j > e ensures !ClosesAt(file, j) { ClosesMeansEnds(file, j); }
  }
}
