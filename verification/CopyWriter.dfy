/** Writing `data.copy`: independently compressed segments over a sink that may take short writes. */
module CopyWriter {
  import opened Results
  import opened Bytes
  import opened Text
  import opened Codec
  import opened CopySegments
  import opened CopyReader

  /** A binary sink. `Write` may accept any prefix and report its length, or accept everything and
      report nothing. */
  class Sink {
    var content: bytes
    /** Whether a write has ever taken nothing of what it was given. */
    ghost var stalled: bool

    constructor ()
      ensures content == [] && !stalled
    {
      content, stalled := [], false;
    }

    method Write(data: bytes) returns (accepted: Option<nat>)
      modifies this
      ensures accepted.None? ==> content == old(content) + data
      ensures accepted.Some? ==> accepted.value <= |data| && content == old(content) + data[..accepted.value]
      ensures stalled == (old(stalled) || (accepted == Some(0) && data != []))
    {
      if * {
        content := content + data;
        return None;
      }
      var n: nat :| n <= |data|;
      content := content + data[..n];
      stalled := stalled || (n == 0 && data != []);
      return Some(n);
    }
  }

  class SegmentWriter<C(!new), D(!new)> {
    const sink: Sink
    const z: Zlib<C, D>
    const sha: bytes -> text
    const base: nat
    var written: nat
    var closed: bool
    var busy: bool

    constructor (sink: Sink, z: Zlib<C, D>, sha: bytes -> text)
      ensures this.sink == sink && this.z == z && this.sha == sha && base == |sink.content|
      ensures written == 0 && !closed && !busy && Valid()
    {
      this.sink, this.z, this.sha := sink, z, sha;
      base, written, closed, busy := |sink.content|, 0, false, false;
    }

    /** Every byte counted has landed behind the starting position. */
    ghost predicate Valid()
      reads this, sink
    {
      base + written == |sink.content|
    }

    method Emit(data: bytes) returns (error: Option<CopyError>)
      requires Valid()
      modifies this`written, sink
      ensures error.None? ==> Valid() && sink.content == old(sink.content) + data && written == old(written) + |data|
      ensures old(sink.stalled) ==> sink.stalled
      ensures error.Some? ==> error.value == SinkStalled && sink.stalled && old(sink.content) <= sink.content <= old(sink.content) + data
    {
      if data == [] { return None; }
      var offset := 0;
      while offset < |data|
        invariant 0 <= offset <= |data| && sink.content == old(sink.content) + data[..offset]
        invariant written == old(written) && (old(sink.stalled) ==> sink.stalled)
      {
        var accepted := sink.Write(data[offset..]);
        if accepted.None? {
          assert data[..offset] + data[offset..] == data;
          offset := |data|;
          break;
        }
        if accepted.value == 0 { return Some(SinkStalled); }
        assert data[..offset] + data[offset..][..accepted.value] == data[..offset + accepted.value];
        offset := offset + accepted.value;
      }
      assert data[..|data|] == data;
      written := written + |data|;
      return None;
    }

    /** Starts a segment at the current position; a bad table name fails before any byte lands. */
    method BeginSegment(table: text, columns: seq<text>) returns (r: Result<OpenSegment<C, D>, CopyError>)
      requires LawfulEncoder(z) && Valid()
      modifies this`busy
      ensures r.Ok? <==> !closed && !old(busy) && IsIdentifier(table)
      ensures r.Ok? ==> busy && fresh(r.value) && r.value.Valid() && r.value.InStep() && r.value.writer == this
      ensures r.Ok? ==> r.value.table == table && r.value.columns == columns && r.value.offset == written
      ensures r.Ok? ==> r.value.raw == [] && r.value.packed == [] && r.value.before == sink.content && !r.value.done
      ensures r.Err? ==> busy == old(busy)
    {
      if closed { return Err(WriterClosed); }
      if busy { return Err(SegmentOpen); }
      if !IsIdentifier(table) { return Err(BadIdentifier); }
      var segment := new OpenSegment(this, table, columns);
      busy := true;
      return Ok(segment);
    }

    /** Compresses and appends one table: the record describes exactly the stream that landed. */
    method WriteSegment(table: text, columns: seq<text>, chunks: seq<bytes>, rowCount: nat)
      returns (r: Result<CopySegment, CopyError>, ghost stream: bytes)
      requires LawfulEncoder(z) && Valid()
      modifies this`busy, this`written, sink
      ensures r.Ok? ==> Valid() && !busy && !closed && IsIdentifier(table) && ValidColumns(columns)
      ensures r.Ok? ==> sink.content == old(sink.content) + stream && written == old(written) + |stream|
      ensures r.Ok? ==> Describes(z, sha, r.value, stream, Concat(chunks))
      ensures r.Ok? ==> r.value.table == table && r.value.columns == columns
                        && r.value.offset == old(written) && r.value.rowCount == rowCount
      ensures old(sink.stalled) ==> sink.stalled
      ensures r.Err? ==>
                sink.stalled || closed || old(busy) || !IsIdentifier(table) || !ValidColumns(columns)
    {
      stream := [];
      var begun := BeginSegment(table, columns);
      if begun.Err? { return Err(begun.error), []; }
      var segment := begun.value;
      for i := 0 to |chunks|
        invariant segment.Valid() && segment.InStep() && segment.writer == this && !segment.done && busy
        invariant segment.raw == Concat(chunks[..i]) && segment.before == old(sink.content)
        invariant segment.table == table && segment.columns == columns && segment.offset == old(written)
        invariant old(sink.stalled) ==> sink.stalled
      {
        OneMoreChunk(chunks, i);
        var error := segment.Feed(chunks[i]);
        if error.Some? { return Err(error.value), []; }
      }
      assert chunks[..|chunks|] == chunks;
      r := segment.Finish(rowCount);
      stream := segment.packed;
    }
  }

  lemma OneMoreChunk(chunks: seq<bytes>, i: nat)
    requires i < |chunks|
    ensures Concat(chunks[..i + 1]) == Concat(chunks[..i]) + chunks[i]
  {
    assert chunks[..i + 1] == chunks[..i] + [chunks[i]];
    ConcatSnoc(chunks[..i], chunks[i]);
  }

  /** The record `s` names the stream, its content, and both sizes and hashes. */
  ghost predicate Describes<C(!new), D(!new)>(z: Zlib<C, D>, sha: bytes -> text, s: CopySegment, stream: bytes, plain: bytes) {
    && z.inflate(stream) == Some(plain)
    && s.compressedSize == |stream| && s.compressedSha == sha(stream)
    && s.uncompressedSize == |plain| && s.uncompressedSha == sha(plain)
  }

  class OpenSegment<C(!new), D(!new)> {
    const writer: SegmentWriter<C, D>
    const table: text
    const columns: seq<text>
    const offset: nat
    var compressor: C
    // What the two hash objects have absorbed.
    var raw: bytes
    var packed: bytes
    var uncompressedSize: nat
    var compressedSize: nat
    var done: bool
    ghost const before: bytes

    constructor (writer: SegmentWriter<C, D>, table: text, columns: seq<text>)
      requires LawfulEncoder(writer.z) && writer.Valid()
      ensures this.writer == writer && this.table == table && this.columns == columns && offset == writer.written
      ensures raw == [] && packed == [] && before == writer.sink.content && !done && Valid() && InStep()
    {
      this.writer, this.table, this.columns, this.offset := writer, table, columns, writer.written;
      compressor := writer.z.startC;
      raw, packed, uncompressedSize, compressedSize, done := [], [], 0, 0, false;
      before := writer.sink.content;
    }

    ghost predicate Valid()
      reads this, writer, writer.sink
    {
      && writer.Valid()
      && uncompressedSize == |raw| && compressedSize == |packed|
      && writer.sink.content == before + packed && writer.written == offset + |packed|
    }

    /** The compressor has taken `raw` and given `packed`. */
    ghost predicate InStep()
      reads this
    {
      writer.z.encodes(compressor, raw, packed)
    }

    /** Hash, count and emit the compressor's output. */
    method Append(out: bytes) returns (error: Option<CopyError>)
      requires Valid()
      modifies this`packed, this`compressedSize, writer`written, writer.sink
      ensures packed == old(packed) + out
      ensures error.None? ==> Valid()
      ensures old(writer.sink.stalled) ==> writer.sink.stalled
      ensures error.Some? ==> error.value == SinkStalled && writer.sink.stalled
    {
      packed := packed + out;
      if out == [] { return None; }
      compressedSize := compressedSize + |out|;
      error := writer.Emit(out);
      assert error.None? ==> before + (old(packed) + out) == (before + old(packed)) + out;
    }

    method Feed(data: bytes) returns (error: Option<CopyError>)
      requires LawfulEncoder(writer.z) && Valid() && (!done ==> InStep())
      modifies this, writer`written, writer.sink
      ensures error.None? <== data == [] && !old(done)
      ensures error.None? ==> Valid() && InStep() && !done && done == old(done) && raw == old(raw) + data && old(packed) <= packed
      ensures old(writer.sink.stalled) ==> writer.sink.stalled
      ensures error.Some? ==> error.value == (if old(done) then SegmentFinished else SinkStalled)
      ensures error == Some(SinkStalled) ==> writer.sink.stalled
    {
      if done { return Some(SegmentFinished); }
      if data == [] {
        assert raw + data == raw;
        return None;
      }
      var (next, out) := writer.z.compress(compressor, data);
      assert writer.z.encodes(next, raw + data, packed + out);
      compressor := next;
      raw := raw + data;
      uncompressedSize := uncompressedSize + |data|;
      error := Append(out);
    }

    method Finish(rowCount: nat) returns (r: Result<CopySegment, CopyError>)
      requires LawfulEncoder(writer.z) && Valid() && (!done ==> InStep())
      modifies this, writer`written, writer`busy, writer.sink
      ensures r.Ok? ==> !old(done) && done && !writer.busy && writer.Valid() && raw == old(raw)
      ensures r.Ok? ==> writer.sink.content == before + packed && writer.written == offset + |packed|
      ensures r.Ok? ==> Describes(writer.z, writer.sha, r.value, packed, raw)
      ensures r.Ok? ==> r.value.table == table && r.value.columns == columns && r.value.offset == offset && r.value.rowCount == rowCount
      ensures r.Ok? ==> IsIdentifier(table) && ValidColumns(columns)
      ensures old(writer.sink.stalled) ==> writer.sink.stalled
      ensures r.Err? ==> writer.sink.stalled || old(done) || !IsIdentifier(table) || !ValidColumns(columns)
    {
      if done { return Err(SegmentFinished); }
      done := true;
      var tail := writer.z.flushC(compressor);
      assert writer.z.inflate(packed + tail) == Some(raw);
      var error := Append(tail);
      if error.Some? { return Err(error.value); }
      writer.busy := false;
      if !IsIdentifier(table) { return Err(BadIdentifier); }
      if columns == [] { return Err(NoColumns); }
      if exists i :: 0 <= i < |columns| && !IsIdentifier(columns[i]) { return Err(BadIdentifier); }
      if !Distinct(columns) { return Err(DuplicateColumn); }
      return Ok(CopySegment(table, columns, offset, compressedSize, writer.sha(packed),
                            uncompressedSize, writer.sha(raw), rowCount));
    }
  }

  /** One table as the exporter sees it: its COPY text arrives in arbitrary chunks. */
  datatype TableStream = TableStream(table: text, columns: seq<text>, chunks: seq<bytes>, rowCount: nat)

  /** `segments[i]` describes `streams[i]`, which inflates to table i and starts where the streams
      before it end. */
  ghost predicate Container<C(!new), D(!new)>(
    z: Zlib<C, D>, sha: bytes -> text, tables: seq<TableStream>, segments: seq<CopySegment>, streams: seq<bytes>)
  {
    && |tables| == |segments| == |streams|
    && forall i :: 0 <= i < |tables| ==>
         && Describes(z, sha, segments[i], streams[i], Concat(tables[i].chunks))
         && segments[i].table == tables[i].table && segments[i].columns == tables[i].columns
         && segments[i].rowCount == tables[i].rowCount
         && IsIdentifier(tables[i].table) && ValidColumns(tables[i].columns)
         && segments[i].offset == |Concat(streams[..i])|
  }

  lemma ContainerSnoc<C(!new), D(!new)>(
    z: Zlib<C, D>, sha: bytes -> text, tables: seq<TableStream>, segments: seq<CopySegment>, streams: seq<bytes>,
    t: TableStream, s: CopySegment, stream: bytes)
    requires Container(z, sha, tables, segments, streams)
    requires Describes(z, sha, s, stream, Concat(t.chunks)) && s.offset == |Concat(streams)|
    requires s.table == t.table && s.columns == t.columns && s.rowCount == t.rowCount
    requires IsIdentifier(t.table) && ValidColumns(t.columns)
    ensures Container(z, sha, tables + [t], segments + [s], streams + [stream])
    ensures Concat(streams + [stream]) == Concat(streams) + stream
  {
    ConcatSnoc(streams, stream);
    forall i | 0 <= i < |tables| + 1 ensures (segments + [s])[i].offset == |Concat((streams + [stream])[..i])| {
      if i < |tables| { assert (streams + [stream])[..i] == streams[..i]; }
      else { assert (streams + [stream])[..i] == streams; }
    }
  }

  /** The export loop over a fresh file. */
  method WriteTables<C(!new), D(!new)>(sink: Sink, z: Zlib<C, D>, sha: bytes -> text, tables: seq<TableStream>)
    returns (r: Result<seq<CopySegment>, CopyError>, size: nat, ghost streams: seq<bytes>)
    requires LawfulEncoder(z) && sink.content == []
    modifies sink
    ensures r.Ok? ==> Container(z, sha, tables, r.value, streams)
    ensures r.Ok? ==> sink.content == Concat(streams) && size == |sink.content|
    ensures r.Err? && !sink.stalled ==>
              exists t :: t in tables && !(IsIdentifier(t.table) && ValidColumns(t.columns))
  {
    var writer := new SegmentWriter(sink, z, sha);
    var segments: seq<CopySegment> := [];
    streams, size := [], 0;
    for i := 0 to |tables|
      invariant writer.Valid() && !writer.busy && !writer.closed && writer.base == 0
      invariant writer.sink == sink && writer.z == z && writer.sha == sha
      invariant Container(z, sha, tables[..i], segments, streams)
      invariant sink.content == Concat(streams)
    {
      var t := tables[i];
      var written, stream := writer.WriteSegment(t.table, t.columns, t.chunks, t.rowCount);
      if written.Err? { return Err(written.error), 0, []; }
      ContainerSnoc(z, sha, tables[..i], segments, streams, t, written.value, stream);
      assert tables[..i + 1] == tables[..i] + [t];
      segments := segments + [written.value];
      streams := streams + [stream];
    }
    assert tables[..|tables|] == tables;
    return Ok(segments), writer.written, streams;
  }

  lemma ContainerFront<C(!new), D(!new)>(
    z: Zlib<C, D>, sha: bytes -> text, tables: seq<TableStream>, segments: seq<CopySegment>, streams: seq<bytes>, n: nat)
    requires Container(z, sha, tables, segments, streams) && n <= |tables|
    ensures Container(z, sha, tables[..n], segments[..n], streams[..n])
  {
    forall i | 0 <= i < n ensures segments[..n][i].offset == |Concat(streams[..n][..i])| {
      assert streams[..n][..i] == streams[..i];
    }
  }

  lemma {:induction false} ContainerTiles<C(!new), D(!new)>(
    z: Zlib<C, D>, sha: bytes -> text, tables: seq<TableStream>, segments: seq<CopySegment>, streams: seq<bytes>)
    requires Container(z, sha, tables, segments, streams)
    ensures Tiles(segments, 0, |Concat(streams)|)
    decreases |tables|
  {
    if tables != [] {
      var n := |tables| - 1;
      var s, stream := segments[n], streams[n];
      assert segments == segments[..n] + [s] && streams == streams[..n] + [stream];
      assert s.offset == |Concat(streams[..n])| && s.compressedSize == |stream|;
      ContainerFront(z, sha, tables, segments, streams, n);
      ContainerTiles(z, sha, tables[..n], segments[..n], streams[..n]);
      ConcatSnoc(streams[..n], stream);
      TilesSnoc(segments[..n], s, 0, |Concat(streams)|);
    }
  }

  /** Round trip: whatever the chunking and the sink did, the segments tile the file, and each
      one within the ratio cap reads back as the concatenation of the chunks it was fed. */
  lemma ContainerReadsBack<C(!new), D(!new)>(
    z: Zlib<C, D>, sha: bytes -> text, tables: seq<TableStream>, segments: seq<CopySegment>, streams: seq<bytes>,
    i: nat, maxRatio: nat)
    requires Container(z, sha, tables, segments, streams) && i < |tables|
    requires segments[i].uncompressedSize <= segments[i].compressedSize * maxRatio
    ensures var file := Concat(streams);
            && Tiles(segments, 0, |file|)
            && Readable(z, sha, file, |file|, maxRatio, segments[i])
            && z.inflate(Range(file, segments[i])) == Some(Concat(tables[i].chunks))
  {
    ContainerTiles(z, sha, tables, segments, streams);
    assert streams == streams[..i] + [streams[i]] + streams[i + 1..];
    ConcatAppend(streams[..i] + [streams[i]], streams[i + 1..]);
    ConcatSnoc(streams[..i], streams[i]);
    assert Range(Concat(streams), segments[i]) == streams[i];
  }

  /** No other bytes have this hash. */
  ghost predicate Unmatched(sha: bytes -> text, b: bytes) { forall x: bytes :: sha(x) == sha(b) ==> x == b }

  /** Hashes leave no other way: a written segment reads from any file, through any decompressor, exactly
      when the recorded range holds the stream that was written and it inflates to what was fed. */
  lemma OnlyTheOriginalReads<C(!new), D(!new), E(!new), F(!new)>(
    z: Zlib<C, D>, w: Zlib<E, F>, sha: bytes -> text, tables: seq<TableStream>, segments: seq<CopySegment>, streams: seq<bytes>,
    i: nat, file: bytes, total: nat, maxRatio: nat)
    requires Container(z, sha, tables, segments, streams) && i < |tables|
    requires Unmatched(sha, streams[i]) && Unmatched(sha, Concat(tables[i].chunks))
    ensures var plain, from, to := Concat(tables[i].chunks), |Concat(streams[..i])|, |Concat(streams[..i])| + |streams[i]|;
            Readable(w, sha, file, total, maxRatio, segments[i]) <==>
            && to <= total && to <= |file| && |plain| <= |streams[i]| * maxRatio
            && file[from..to] == streams[i] && w.inflate(streams[i]) == Some(plain)
  {
    var g := segments[i];
    assert Describes(z, sha, g, streams[i], Concat(tables[i].chunks));
    assert g.EndOffset() == |Concat(streams[..i])| + |streams[i]|;
  }
}
