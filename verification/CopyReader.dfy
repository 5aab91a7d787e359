/** Reading one segment back: bounded, verified, and accepting exactly the good segments. */
module CopyReader {
  import opened Results
  import opened Bytes
  import opened Text
  import opened Codec
  import opened CopySegments

  /** A pinned, seekable file. `log` records every read as (position, bytes). */
  class PinnedFile {
    const content: bytes
    var pos: nat
    ghost var log: seq<(nat, nat)>

    constructor (content: bytes)
      ensures this.content == content && pos == 0 && log == []
    {
      this.content := content;
      pos := 0;
      log := [];
    }

    method Seek(to: nat)
      modifies this
      ensures pos == to && log == old(log)
    {
      pos := to;
    }

    method Read(want: nat) returns (data: bytes)
      modifies this
      ensures |data| <= want && pos == old(pos) + |data|
      ensures old(pos) <= |content| ==>
                pos <= |content| && data == content[old(pos)..pos] && (|data| < want ==> pos == |content|)
      ensures old(pos) > |content| ==> data == []
      ensures log == old(log) + [(old(pos), want)]
    {
      log := log + [(pos, want)];
      if pos >= |content| { return []; }
      var end := if pos + want <= |content| then pos + want else |content|;
      data := content[pos..end];
      pos := end;
    }
  }

  /** `decompress` with the unlimited limit 0 excluded. */
  function Inflate<C, D>(z: Zlib<C, D>, d: D, x: bytes, limit: nat): Inflated<D>
    requires limit > 0
  {
    z.decompress(d, x, limit)
  }

  /** The segment's range, when the file has it. */
  function Range(content: bytes, s: CopySegment): bytes
    requires s.EndOffset() <= |content|
  {
    content[s.offset..s.EndOffset()]
  }

  /** The range is one whole stream with the recorded sizes and hashes and an allowed ratio. */
  predicate Readable<C, D>(z: Zlib<C, D>, sha: bytes -> text, content: bytes, total: nat, maxRatio: nat, s: CopySegment) {
    && s.EndOffset() <= total && s.EndOffset() <= |content| && s.uncompressedSize <= s.compressedSize * maxRatio
    && var range := Range(content, s);
       && z.inflate(range).Some?
       && |z.inflate(range).value| == s.uncompressedSize
       && sha(range) == s.compressedSha && sha(z.inflate(range).value) == s.uncompressedSha
  }

  /** How far a decompressor is: `fed` of the range taken, `given` passed on. */
  ghost predicate Progress<C(!new), D(!new)>(z: Zlib<C, D>, d: D, fed: bytes, given: bytes) {
    if z.eof(d) then
      |z.unused(d)| <= |fed| && z.unused(d) == fed[|fed| - |z.unused(d)|..]
      && z.inflate(fed[..|fed| - |z.unused(d)|]) == Some(given)
    else z.decodes(d, fed, given) && z.unused(d) == [] && given <= z.ready(fed)
  }

  lemma HopelessRange<C(!new), D(!new)>(z: Zlib<C, D>, fed: bytes, rest: bytes)
    requires Hopeless(z, fed)
    ensures z.inflate(fed + rest).None?
  {
  }

  /** What one bounded call may do, `rest` being the unread part of the range. */
  ghost predicate StepOk<C(!new), D(!new)>(z: Zlib<C, D>, d: D, fed: bytes, given: bytes, x: bytes, limit: nat, rest: bytes) {
    match z.decompress(d, x, limit)
    case Corrupt => z.inflate(fed + x + rest).None?
    case Inflated(plain, e) =>
      && |plain| <= limit
      && (|plain| < limit ==> z.tail(e) == [] && Progress(z, e, fed + x, given + plain))
      && (z.inflate(fed + x + rest).Some? ==> |given + plain| <= |z.inflate(fed + x + rest).value|)
  }

  lemma EndedStep<C(!new), D(!new)>(z: Zlib<C, D>, d: D, fed: bytes, given: bytes, x: bytes, limit: nat, rest: bytes)
    requires Lawful(z) && Progress(z, d, fed, given) && limit > 0 && z.eof(d)
    ensures StepOk(z, d, fed, given, x, limit, rest)
  {
    assert EndedLaw(z, d, x, limit);
    var n := |fed| - |z.unused(d)|;
    assert (fed + x)[..n] == fed[..n] && (fed + x)[n..] == z.unused(d) + x;
    assert given + [] == given;
    assert fed + x + rest == fed[..n] + (fed[n..] + x + rest);
  }

  lemma RunningStep<C(!new), D(!new)>(z: Zlib<C, D>, d: D, fed: bytes, given: bytes, x: bytes, limit: nat, rest: bytes)
    requires LawfulStreams(z) && DecompressLaw(z, d, fed, given, x, limit)
    ensures StepOk(z, d, fed, given, x, limit, rest)
  {
    match z.decompress(d, x, limit)
    case Corrupt => HopelessRange(z, fed + x, rest);
    case Inflated(plain, e) =>
      var k := |x| - |z.tail(e)| - |z.unused(e)|;
      assert fed + x + rest == (fed + x[..k]) + (x[k..] + rest);
      assert x[..|x|] == x;
      if z.eof(e) {
        assert (fed + x)[..|fed| + k] == fed + x[..k] && (fed + x)[|fed| + k..] == x[k..];
      }
  }

  /** One bounded call: either the range is bad, or progress is kept and nothing is left over. */
  lemma StepProgress<C(!new), D(!new)>(z: Zlib<C, D>, d: D, fed: bytes, given: bytes, x: bytes, limit: nat, rest: bytes)
    requires Lawful(z) && Progress(z, d, fed, given) && limit > 0
    ensures StepOk(z, d, fed, given, x, limit, rest)
  {
    if z.eof(d) {
      EndedStep(z, d, fed, given, x, limit, rest);
    } else {
      assert DecompressLaw(z, d, fed, given, x, limit);
      RunningStep(z, d, fed, given, x, limit, rest);
    }
  }

  /** The flush at the end of the range. */
  lemma FlushProgress<C(!new), D(!new)>(z: Zlib<C, D>, d: D, range: bytes, given: bytes)
    requires Lawful(z) && Progress(z, d, range, given)
    ensures match z.flushD(d)
            case Corrupt => z.inflate(range).None?
            case Inflated(plain, e) =>
              && (z.inflate(range).Some? ==>
                    given + plain == z.inflate(range).value && z.eof(e) && z.unused(e) == [])
              && (z.eof(e) && z.unused(e) == [] ==> z.inflate(range) == Some(given + plain))
  {
    if z.eof(d) {
      var n := |range| - |z.unused(d)|;
      assert range == range[..n] + range[n..];
      assert given + [] == given;
      assert z.unused(d) == [] ==> range[..n] == range;
    } else {
      assert FlushLaw(z, d, range, given);
      assert range + [] == range;
      if z.flushD(d).Corrupt? { HopelessRange(z, range, []); }
    }
  }

  /** No read since `from` leaves the recorded range. */
  ghost predicate ReadsInside(log: seq<(nat, nat)>, from: nat, s: CopySegment) {
    from <= |log| && forall k :: from <= k < |log| ==> s.offset <= log[k].0 <= log[k].0 + log[k].1 <= s.EndOffset()
  }

  /** `taken` is what reading the segment's range up to `pos` gave. */
  ghost predicate ReadUpTo(content: bytes, s: CopySegment, pos: nat, taken: bytes) {
    && s.offset <= pos <= s.EndOffset() && |taken| == pos - s.offset
    && (pos > s.offset ==> pos <= |content|)
    && (pos <= |content| ==> taken == content[s.offset..pos])
  }

  /** The unread part of the range, when the file has it. */
  ghost function Unread(content: bytes, s: CopySegment, pos: nat): bytes
    requires s.offset <= pos <= s.EndOffset()
  {
    if s.EndOffset() <= |content| then content[pos..s.EndOffset()] else []
  }

  lemma ReadExtends(content: bytes, s: CopySegment, pos: nat, taken: bytes, chunk: bytes)
    requires ReadUpTo(content, s, pos, taken) && 0 < |chunk| <= s.EndOffset() - pos
    requires pos + |chunk| <= |content| && chunk == content[pos..pos + |chunk|]
    ensures ReadUpTo(content, s, pos + |chunk|, taken + chunk)
    ensures s.EndOffset() <= |content| ==>
              Range(content, s) == taken + chunk + Unread(content, s, pos + |chunk|)
  {
  }

  class SegmentReader<C(!new), D(!new)> {
    const file: PinnedFile
    const z: Zlib<C, D>
    const sha: bytes -> text
    const totalSize: nat
    const maxRatio: nat

    constructor (file: PinnedFile, z: Zlib<C, D>, sha: bytes -> text, totalSize: nat, maxRatio: nat)
      ensures this.file == file && this.z == z && this.sha == sha && this.totalSize == totalSize && this.maxRatio == maxRatio
    {
      this.file, this.z, this.sha, this.totalSize, this.maxRatio := file, z, sha, totalSize, maxRatio;
    }

    /** Yields `chunks`, then finishes or raises. */
    method IterUncompressed(s: CopySegment) returns (chunks: seq<bytes>, r: Result<(), CopyError>)
      requires Lawful(z)
      modifies file
      ensures r.Ok? <==> Readable(z, sha, file.content, totalSize, maxRatio, s)
      ensures r.Ok? ==> z.inflate(Range(file.content, s)) == Some(Concat(chunks))
      ensures |Concat(chunks)| <= s.uncompressedSize
      ensures ReadsInside(file.log, |old(file.log)|, s)
    {
      chunks := [];
      if s.EndOffset() > totalSize { return chunks, Err(PastFile); }
      var bad := s.RatioError(maxRatio);
      if bad.Some? { return chunks, Err(bad.value); }

      var produced, d, compHash, error;
      chunks, produced, d, compHash, error := InflateRange(s);
      if error.Some? { return chunks, Err(error.value); }
      chunks, error := FinishRange(s, chunks, produced, d, compHash);
      return chunks, if error.Some? then Err(error.value) else Ok(());
    }

    /** Reads the next compressed chunk, or finds the file too short. */
    method ReadChunk(s: CopySegment, remaining: nat, ghost taken: bytes) returns (chunk: bytes, ok: bool)
      requires 0 < remaining <= s.compressedSize && file.pos == s.EndOffset() - remaining
      requires ReadUpTo(file.content, s, file.pos, taken)
      modifies file
      ensures ReadsInside(file.log, |old(file.log)|, s) && old(file.log) <= file.log
      ensures !ok ==> |file.content| < s.EndOffset()
      ensures ok ==> 0 < |chunk| <= remaining && file.pos == s.EndOffset() - remaining + |chunk|
      ensures ok ==> ReadUpTo(file.content, s, file.pos, taken + chunk)
      ensures ok && s.EndOffset() <= |file.content| ==>
                Range(file.content, s) == taken + chunk + Unread(file.content, s, file.pos)
    {
      var want := if CHUNK_SIZE < remaining then CHUNK_SIZE else remaining;
      chunk := file.Read(want);
      ok := |chunk| == want;
      if ok { ReadExtends(file.content, s, file.pos - want, taken, chunk); }
    }

    /** The loop over the compressed chunks. The hash objects stand as what they have absorbed:
        `compHash` the bytes read, and `chunks` what was yielded. */
    method InflateRange(s: CopySegment)
      returns (chunks: seq<bytes>, produced: nat, d: D, compHash: bytes, error: Option<CopyError>)
      requires Lawful(z)
      modifies file
      ensures ReadsInside(file.log, |old(file.log)|, s)
      ensures |Concat(chunks)| <= s.uncompressedSize
      ensures error.None? ==> if s.compressedSize > 0 then s.EndOffset() <= |file.content| else compHash == []
      ensures error.None? && s.EndOffset() <= |file.content| ==> compHash == Range(file.content, s)
      ensures error.None? ==> produced == |Concat(chunks)| && Progress(z, d, compHash, Concat(chunks))
      ensures error.Some? ==> Hollow(file.content, s)
    {
      chunks, produced, d, compHash := [], 0, z.startD, [];
      var remaining := s.compressedSize;
      file.Seek(s.offset);
      while remaining > 0
        invariant 0 <= remaining <= s.compressedSize && file.pos == s.EndOffset() - remaining
        invariant ReadUpTo(file.content, s, file.pos, compHash)
        invariant Progress(z, d, compHash, Concat(chunks))
        invariant produced == |Concat(chunks)| <= s.uncompressedSize
        invariant ReadsInside(file.log, |old(file.log)|, s)
      {
        var chunk, whole := ReadChunk(s, remaining, compHash);
        if !whole { return chunks, produced, d, compHash, Some(Truncated); }
        remaining := remaining - |chunk|;
        chunks, produced, d, error := InflateChunk(s, chunk, chunks, produced, d, compHash, Unread(file.content, s, file.pos));
        compHash := compHash + chunk;
        if error.Some? { return chunks, produced, d, compHash, error; }
      }
      return chunks, produced, d, compHash, None;
    }

    /** The recorded range, if the file has it, is not one stream of the recorded size. */
    ghost predicate Hollow(content: bytes, s: CopySegment) {
      s.EndOffset() <= |content| ==>
        var whole := z.inflate(Range(content, s)); whole.None? || |whole.value| != s.uncompressedSize
    }

    /** The checks behind the last compressed byte. */
    method FinishRange(s: CopySegment, yielded: seq<bytes>, already: nat, d: D, compHash: bytes)
      returns (chunks: seq<bytes>, error: Option<CopyError>)
      requires Lawful(z) && Progress(z, d, compHash, Concat(yielded)) && already == |Concat(yielded)| <= s.uncompressedSize
      ensures |Concat(chunks)| <= s.uncompressedSize
      ensures error.None? <==>
              z.inflate(compHash).Some? && |z.inflate(compHash).value| == s.uncompressedSize
              && sha(compHash) == s.compressedSha && sha(z.inflate(compHash).value) == s.uncompressedSha
      ensures error.None? ==> z.inflate(compHash) == Some(Concat(chunks))
    {
      chunks := yielded;
      FlushProgress(z, d, compHash, Concat(yielded));
      match z.flushD(d)
      case Corrupt => return chunks, Some(InvalidStream);
      case Inflated(tail, e) =>
        if already + |tail| != s.uncompressedSize { return chunks, Some(SizeMismatch); }
        assert Concat(chunks) + [] == Concat(chunks);
        if tail != [] {
          ConcatSnoc(chunks, tail);
          chunks := chunks + [tail];
        }
        if !z.eof(e) { return chunks, Some(TrailingBytes); }
        if z.unused(e) != [] { return chunks, Some(UnusedBytes); }
        if sha(compHash) != s.compressedSha { return chunks, Some(CompressedHashMismatch); }
        if sha(Concat(chunks)) != s.uncompressedSha { return chunks, Some(PlainHashMismatch); }
        return chunks, None;
    }

    /** The inner loop over one compressed chunk: everything it inflates to, within the bound. */
    method InflateChunk(s: CopySegment, chunk: bytes, yielded: seq<bytes>, already: nat, d0: D, ghost fed: bytes, ghost rest: bytes)
      returns (chunks: seq<bytes>, produced: nat, d: D, error: Option<CopyError>)
      requires Lawful(z) && Progress(z, d0, fed, Concat(yielded))
      requires already == |Concat(yielded)| <= s.uncompressedSize
      ensures |Concat(chunks)| <= s.uncompressedSize
      ensures error.None? ==> produced == |Concat(chunks)| && Progress(z, d, fed + chunk, Concat(chunks))
      ensures error.Some? ==> z.inflate(fed + chunk + rest).None? || |z.inflate(fed + chunk + rest).value| != s.uncompressedSize
    {
      chunks, produced, d := yielded, already, d0;
      var pending: Option<bytes> := Some(chunk);
      while pending.Some?
        invariant pending.Some? ==> pending.value == chunk && Progress(z, d, fed, Concat(chunks))
        invariant pending.None? ==> Progress(z, d, fed + chunk, Concat(chunks))
        invariant produced == |Concat(chunks)| <= s.uncompressedSize
        decreases pending.Some?
      {
        var budget := s.uncompressedSize - produced + 1;
        StepProgress(z, d, fed, Concat(chunks), pending.value, budget, rest);
        match Inflate(z, d, pending.value, budget)
        case Corrupt => return chunks, produced, d, Some(InvalidStream);
        case Inflated(plain, e) =>
          produced := produced + |plain|;
          if produced > s.uncompressedSize { return chunks, produced, d, Some(InflatesPast); }
          assert Concat(chunks) + [] == Concat(chunks);
          if plain != [] {
            ConcatSnoc(chunks, plain);
            chunks := chunks + [plain];
          }
          d := e;
          // A full buffer would have overrun the recorded size, so nothing is ever left over.
          pending := if z.tail(d) != [] then Some(z.tail(d)) else None;
      }
      return chunks, produced, d, None;
    }
  }
}
