/** Exporting a database and rebuilding it in one transaction. */
module NativeArchive {
  import opened Results
  import opened Bytes
  import opened Text
  import opened Ordering
  import opened Codec
  import opened CopySegments
  import opened CopyReader
  import opened CopyWriter
  import opened SchemaTypes
  import opened SchemaContract
  import opened SchemaBytes
  import opened ViewOrder
  import opened NativeDatabase
  import opened NativeRebuild

  /** What the segment reader finds in a file. */
  function ReadOf<C, D>(z: Zlib<C, D>, sha: bytes -> text, content: bytes, total: nat, maxRatio: nat): Reads {
    g => if Readable(z, sha, content, total, maxRatio, g) then z.inflate(Range(content, g)) else None
  }

  function Expected<T(==)>(xs: seq<T>): set<T> { set x | x in xs }

  function TableSpecs(db: Database): set<TableSpec> { set n | n in db.tables :: db.tables[n].spec }

  /** The post-restore check: what is there is what the archive lists. */
  predicate Verified(s: DatabaseSchema, db: Database) {
    TableSpecs(db) == Expected(s.tables) && db.indexes.Values == Expected(s.indexes) && db.views.Values == Expected(s.views)
  }

  predicate RestoreIdOk(id: text) {
    |id| == 32 && forall i :: 0 <= i < 32 ==> IsDigit(id[i]) || 97 <= id[i] <= 102
  }

  /** A connection: what is committed, and the open transaction's private state. */
  class Connection {
    const server: Server
    var committed: State
    var work: State
    var open: bool
    /** Whether the connection has ever failed by itself. */
    ghost var faulted: bool

    constructor (server: Server, state: State)
      ensures this.server == server && committed == state && !open && !faulted
    {
      this.server, committed, work, open, faulted := server, state, state, false, false;
    }

    /** The connection's part in an answer. */
    method Answer() returns (ok: bool)
      modifies this`faulted
      ensures faulted == (old(faulted) || !ok)
    {
      ok := *;
      faulted := faulted || !ok;
    }

    method Begin()
      requires !open
      modifies this`open, this`work
      ensures open && work == old(committed)
    {
      work, open := committed, true;
    }

    /** A commit whose acknowledgement is lost may have happened or not. */
    method Commit() returns (ok: bool)
      requires open
      modifies this
      ensures !open && (committed == old(work) || (!ok && committed == old(committed)))
      ensures faulted == (old(faulted) || !ok)
    {
      ok := Answer();
      var lands: bool := *;
      if ok || lands { committed := work; }
      open := false;
    }

    method Rollback()
      requires open
      modifies this`open
      ensures !open
    {
      open := false;
    }

    /** Drops `public` and the control schema, and creates an empty `public`. */
    method DropSchemas()
      requires open
      modifies this`work
      ensures work == State(EMPTY, None)
    {
      work := State(EMPTY, None);
    }

    method Execute(s: Stmt, ghost read: Reads) returns (ok: bool)
      requires open && !s.Import?
      modifies this`work, this`faulted
      ensures work.marker == old(work.marker) && (old(faulted) ==> faulted)
      ensures if ok then Apply(server, read, old(work.db), s) == Some(work.db)
              else faulted || Apply(server, read, old(work.db), s) == None
    {
      ok := Answer();
      if !ok { return; }
      var next := Apply(server, g => None, work.db, s);
      if next.None? { return false; }
      work := work.(db := next.value);
      return true;
    }

    method CopyToTable(g: CopySegment, content: bytes) returns (ok: bool)
      requires open
      modifies this`work, this`faulted
      ensures work.marker == old(work.marker) && (old(faulted) ==> faulted)
      ensures if ok then CopyIn(server, old(work.db), g, content) == Some(work.db)
              else faulted || CopyIn(server, old(work.db), g, content) == None
    {
      ok := Answer();
      if !ok { return; }
      var next := CopyIn(server, work.db, g, content);
      if next.None? { return false; }
      work := work.(db := next.value);
      return true;
    }

    method InsertMarker(id: text)
      requires open
      modifies this`work
      ensures work == old(work).(marker := Some(id))
    {
      work := work.(marker := Some(id));
    }
  }

  /** Verifies, inflates and imports one segment. */
  method ImportSegment<C(!new), D(!new)>(conn: Connection, reader: SegmentReader<C, D>, g: CopySegment) returns (ok: bool)
    requires conn.open && Lawful(reader.z)
    modifies conn`work, conn`faulted, reader.file
    ensures conn.work.marker == old(conn.work.marker) && (old(conn.faulted) ==> conn.faulted)
    ensures var read := ReadOf(reader.z, reader.sha, reader.file.content, reader.totalSize, reader.maxRatio);
            if ok then Apply(conn.server, read, old(conn.work.db), Import(g)) == Some(conn.work.db)
            else conn.faulted || Apply(conn.server, read, old(conn.work.db), Import(g)) == None
  {
    var chunks, read := reader.IterUncompressed(g);
    if read.Err? { return false; }
    ok := conn.CopyToTable(g, Concat(chunks));
  }

  /** Executes statements in order, stopping at the first failure. */
  method ExecuteAll<C(!new), D(!new)>(conn: Connection, reader: SegmentReader<C, D>, script: seq<Stmt>) returns (ok: bool)
    requires conn.open && Lawful(reader.z)
    modifies conn`work, conn`faulted, reader.file
    ensures conn.work.marker == old(conn.work.marker) && (old(conn.faulted) ==> conn.faulted)
    ensures var read := ReadOf(reader.z, reader.sha, reader.file.content, reader.totalSize, reader.maxRatio);
            if ok then Run(conn.server, read, old(conn.work.db), script) == Some(conn.work.db)
            else conn.faulted || Run(conn.server, read, old(conn.work.db), script) == None
  {
    ghost var read := ReadOf(reader.z, reader.sha, reader.file.content, reader.totalSize, reader.maxRatio);
    for i := 0 to |script|
      invariant conn.work.marker == old(conn.work.marker) && (old(conn.faulted) ==> conn.faulted)
      invariant Run(conn.server, read, old(conn.work.db), script[..i]) == Some(conn.work.db)
    {
      assert script[..i + 1][..i] == script[..i];
      if script[i].Import? {
        ok := ImportSegment(conn, reader, script[i].g);
      } else {
        ok := conn.Execute(script[i], read);
      }
      if !ok {
        if Run(conn.server, read, old(conn.work.db), script[..i + 1]).None? {
          FailsThrough(conn.server, read, old(conn.work.db), script, i + 1);
        }
        return false;
      }
    }
    assert script[..|script|] == script;
    return true;
  }

  lemma FailsThrough(server: Server, read: Reads, db: Database, script: seq<Stmt>, i: nat)
    requires i <= |script| && Run(server, read, db, script[..i]) == None
    ensures Run(server, read, db, script) == None
  {
    RunConcat(server, read, db, script[..i], script[i..]);
    assert script == script[..i] + script[i..];
  }

  /** What a whole replacement does to a database: nothing unless every statement succeeds. */
  ghost function Rebuilt(server: Server, read: Reads, s: DatabaseSchema): Option<Database> {
    match Script(s)
    case None => None
    case Some(script) =>
      match Run(server, read, EMPTY, script)
      case None => None
      case Some(d) => if Verified(s, d) then Some(d) else None
  }

  ghost predicate NamesApart(s: DatabaseSchema) {
    Distinct(Keys(TableKey, s.tables)) && Distinct(Keys(IndexKey, s.indexes))
  }

  lemma StopsAt(server: Server, read: Reads, s: DatabaseSchema, front: seq<Stmt>)
    requires Run(server, read, EMPTY, front) == None && (Script(s).Some? ==> front <= Script(s).value)
    ensures Rebuilt(server, read, s) == None
  {
    if Script(s).Some? {
      assert Script(s).value[..|front|] == front;
      FailsThrough(server, read, EMPTY, Script(s).value, |front|);
    }
  }

  ghost function Loading(s: DatabaseSchema): seq<Stmt> {
    CreateTables(Arranged(TableKey, s.tables)) + Imports(s.segments) + CreateIndexes(Arranged(IndexKey, s.indexes))
  }

  /** Tables, then their rows, then the indexes. */
  method LoadTables<C(!new), D(!new)>(conn: Connection, s: DatabaseSchema, reader: SegmentReader<C, D>) returns (ok: bool)
    requires conn.open && conn.work.db == EMPTY && Lawful(reader.z) && NamesApart(s)
    modifies conn`work, conn`faulted, reader.file
    ensures conn.work.marker == old(conn.work.marker) && (old(conn.faulted) ==> conn.faulted)
    ensures var read := ReadOf(reader.z, reader.sha, reader.file.content, reader.totalSize, reader.maxRatio);
            if ok then Run(conn.server, read, EMPTY, Loading(s)) == Some(conn.work.db)
            else conn.faulted || Run(conn.server, read, EMPTY, Loading(s)) == None
  {
    ghost var read := ReadOf(reader.z, reader.sha, reader.file.content, reader.totalSize, reader.maxRatio);
    var tables := SortBy(TableKey, s.tables);
    var indexes := SortBy(IndexKey, s.indexes);
    RunConcat(conn.server, read, EMPTY, CreateTables(tables), Imports(s.segments));
    RunConcat(conn.server, read, EMPTY, CreateTables(tables) + Imports(s.segments), CreateIndexes(indexes));
    ok := ExecuteAll(conn, reader, CreateTables(tables));
    if !ok { return; }
    ok := ExecuteAll(conn, reader, Imports(s.segments));
    if !ok { return; }
    ok := ExecuteAll(conn, reader, CreateIndexes(indexes));
  }

  /** The ordered statements inside the open transaction. */
  method RebuildWithinOpenTransaction<C(!new), D(!new)>(conn: Connection, s: DatabaseSchema, reader: SegmentReader<C, D>)
    returns (ok: bool)
    requires conn.open && conn.work.db == EMPTY && Lawful(reader.z) && NamesApart(s)
    modifies conn`work, conn`faulted, reader.file
    ensures conn.work.marker == old(conn.work.marker) && (old(conn.faulted) ==> conn.faulted)
    ensures var read := ReadOf(reader.z, reader.sha, reader.file.content, reader.totalSize, reader.maxRatio);
            if ok then Rebuilt(conn.server, read, s) == Some(conn.work.db)
            else conn.faulted || Rebuilt(conn.server, read, s) == None
  {
    ghost var read := ReadOf(reader.z, reader.sha, reader.file.content, reader.totalSize, reader.maxRatio);
    ok := LoadTables(conn, s, reader);
    if !ok {
      if Run(conn.server, read, EMPTY, Loading(s)).None? { StopsAt(conn.server, read, s, Loading(s)); }
      return;
    }
    var views := OrderViews(s.views);
    if views.Err? { return false; }
    RunConcat(conn.server, read, EMPTY, Loading(s), CreateViews(views.value));
    ok := ExecuteAll(conn, reader, CreateViews(views.value));
    if ok { ok := Verified(s, conn.work.db); }
  }

  /** Thirty-two digits as hexadecimal digests are written. */
  ghost predicate HexId(id: text) { |id| == 32 && forall c :: c in id ==> c in Txt("0123456789abcdef") }

  lemma RestoreIdIsHex(id: text)
    ensures RestoreIdOk(id) <==> HexId(id)
  {
    HexDigits();
    if RestoreIdOk(id) {
      forall c | c in id ensures c in Txt("0123456789abcdef") {
        var i :| 0 <= i < |id| && id[i] == c;
        assert IsDigit(id[i]) || 97 <= id[i] <= 102;
      }
    }
    if HexId(id) {
      forall i | 0 <= i < 32 ensures IsDigit(id[i]) || 97 <= id[i] <= 102 { assert id[i] in id; }
    }
  }

  lemma HexDigits()
    ensures forall c :: c in Txt("0123456789abcdef") <==> IsDigit(c) || 97 <= c <= 102
  {
    var s := Txt("0123456789abcdef");
    assert forall i :: 0 <= i < 10 ==> s[i] == 48 + i;
    assert forall i :: 10 <= i < 16 ==> s[i] == 87 + i;
    forall c | IsDigit(c) ensures c in s { assert s[c - 48] == c; }
    forall c | 97 <= c <= 102 ensures c in s { assert s[c - 87] == c; }
  }

  /** What the replacement makes of the target, if everything it checks is right. */
  ghost function Replacement(server: Server, read: Reads, s: DatabaseSchema, restoreId: text): Option<State> {
    if HexId(restoreId) && EveryTableExported(s) && Rebuilt(server, read, s).Some?
    then Some(State(Rebuilt(server, read, s).value, Some(restoreId))) else None
  }

  /** The destructive restore: one transaction that replaces everything and leaves the marker, or
      nothing at all. It fails only when the replacement does not exist or the connection failed, and a
      commit whose acknowledgement is lost is told by its marker. */
  method RunNativeDestructiveRestore<C(!new), D(!new)>(
    conn: Connection, s: DatabaseSchema, reader: SegmentReader<C, D>, restoreId: text) returns (ok: bool)
    requires !conn.open && Lawful(reader.z) && NamesApart(s)
    modifies conn, reader.file
    ensures !conn.open
    ensures var read := ReadOf(reader.z, reader.sha, reader.file.content, reader.totalSize, reader.maxRatio);
            var after := Replacement(conn.server, read, s, restoreId);
            && (ok ==> after == Some(conn.committed)) && (!ok ==> conn.faulted || after.None?)
            && (conn.committed == old(conn.committed) || Some(conn.committed) == after)
            && (old(conn.committed.marker) != Some(restoreId) ==>
                  (conn.committed.marker == Some(restoreId) <==> Some(conn.committed) == after))
  {
    RestoreIdIsHex(restoreId);
    if !RestoreIdOk(restoreId) || !EveryTableExported(s) { return false; }
    conn.Begin();
    conn.DropSchemas();
    ok := RebuildWithinOpenTransaction(conn, s, reader);
    if !ok { conn.Rollback(); return; }
    conn.InsertMarker(restoreId);
    ok := conn.Commit();
  }

  // Export

  /** The COPY output of a table: any chunking of its rows' text. */
  ghost predicate CopiesOut(db: Database, t: TableSpec, stream: TableStream) {
    && t.name in db.tables && db.tables[t.name].spec == t && stream.table == t.name && stream.columns == t.ColumnNames()
    && Concat(stream.chunks) == CopyText(db.tables[t.name].rows) && stream.rowCount == |db.tables[t.name].rows|
  }

  ghost predicate AllCopied(db: Database, ts: seq<TableSpec>, outs: seq<TableStream>) {
    |outs| == |ts| && forall i :: 0 <= i < |ts| ==> CopiesOut(db, ts[i], outs[i])
  }

  /** What the streaming half of an export leaves behind: `streams` in the file, described by
      `segments`, for the snapshot's tables in name order. */
  ghost predicate Exported<C(!new), D(!new)>(
    z: Zlib<C, D>, sha: bytes -> text, db: Database, s: DatabaseSchema, outs: seq<TableStream>, streams: seq<bytes>)
  {
    && Container(z, sha, outs, s.segments, streams) && s.dataCopySize == |Concat(streams)|
    && AllCopied(db, Arranged(TableKey, s.tables), outs)
  }

  method PlanExport(tables: seq<TableSpec>, copyOut: map<text, TableStream>, ghost db: Database) returns (plan: seq<TableStream>)
    requires forall t :: t in tables ==> t.name in copyOut && CopiesOut(db, t, copyOut[t.name])
    ensures AllCopied(db, tables, plan)
  {
    plan := [];
    for i := 0 to |tables|
      invariant |plan| == i && forall j :: 0 <= j < i ==> CopiesOut(db, tables[j], plan[j])
    {
      assert tables[i] in tables;
      plan := plan + [copyOut[tables[i].name]];
    }
  }

  /** The streaming loop of an export over a fresh file. `copyOut` is what the server sends. */
  method ExportTables<C(!new), D(!new)>(
    sink: Sink, z: Zlib<C, D>, sha: bytes -> text, s: DatabaseSchema, copyOut: map<text, TableStream>, ghost db: Database)
    returns (r: Result<DatabaseSchema, CopyError>, ghost outs: seq<TableStream>, ghost streams: seq<bytes>)
    requires LawfulEncoder(z) && sink.content == [] && NamesApart(s)
    requires forall t :: t in s.tables ==> t.name in copyOut && CopiesOut(db, t, copyOut[t.name])
    modifies sink
    ensures r.Ok? ==> r.value == s.(segments := r.value.segments, dataCopySize := |sink.content|)
    ensures r.Ok? ==> sink.content == Concat(streams) && Exported(z, sha, db, r.value, outs, streams)
    ensures r.Err? && !sink.stalled ==> exists t :: t in s.tables && !(IsIdentifier(t.name) && ValidColumns(t.ColumnNames()))
  {
    var tables := SortBy(TableKey, s.tables);
    var plan := PlanExport(tables, copyOut, db);
    var written, size;
    written, size, streams := WriteTables(sink, z, sha, plan);
    outs := plan;
    if written.Err? {
      if !sink.stalled {
        var out :| out in plan && !(IsIdentifier(out.table) && ValidColumns(out.columns));
        var i :| 0 <= i < |plan| && plan[i] == out;
        assert CopiesOut(db, tables[i], out) && tables[i] in tables;
      }
      return Err(written.error), outs, streams;
    }
    return Ok(s.(segments := written.value, dataCopySize := size)), outs, streams;
  }

  lemma ExportedSegmentReads<C(!new), D(!new)>(
    z: Zlib<C, D>, sha: bytes -> text, db: Database, t: TableSpec, outs: seq<TableStream>, gs: seq<CopySegment>,
    streams: seq<bytes>, i: nat)
    requires Container(z, sha, outs, gs, streams) && i < |gs| && CopiesOut(db, t, outs[i])
    requires gs[i].uncompressedSize <= gs[i].compressedSize * DEFAULT_MAX_RATIO
    requires forall r :: r in db.tables[t.name].rows ==> OneLine(r)
    ensures Imported(ReadOf(z, sha, Concat(streams), |Concat(streams)|, DEFAULT_MAX_RATIO), db, gs[i])
    ensures gs[i].table == t.name
  {
    ContainerReadsBack(z, sha, outs, gs, streams, i, DEFAULT_MAX_RATIO);
    CountKept(z, sha, outs, gs, streams, i);
    LinesInvert(db.tables[t.name].rows);
  }

  lemma CountKept<C(!new), D(!new)>(
    z: Zlib<C, D>, sha: bytes -> text, outs: seq<TableStream>, gs: seq<CopySegment>, streams: seq<bytes>, i: nat)
    requires Container(z, sha, outs, gs, streams) && i < |gs|
    ensures gs[i].rowCount == outs[i].rowCount && gs[i].table == outs[i].table && gs[i].columns == outs[i].columns
  {
  }

  lemma ExportedSegmentsHold<C(!new), D(!new)>(
    z: Zlib<C, D>, sha: bytes -> text, db: Database, ts: seq<TableSpec>, outs: seq<TableStream>, gs: seq<CopySegment>,
    streams: seq<bytes>)
    requires Container(z, sha, outs, gs, streams) && AllCopied(db, ts, outs) && RatiosOk(gs, DEFAULT_MAX_RATIO)
    requires Distinct(Keys(TableKey, ts)) && Elements(Keys(TableKey, ts)) == db.tables.Keys
    requires forall n, r :: n in db.tables && r in db.tables[n].rows ==> OneLine(r)
    ensures SegmentsHold(ReadOf(z, sha, Concat(streams), |Concat(streams)|, DEFAULT_MAX_RATIO), db, gs)
  {
    var read := ReadOf(z, sha, Concat(streams), |Concat(streams)|, DEFAULT_MAX_RATIO);
    assert |gs| == |ts|;
    forall i | 0 <= i < |gs| ensures Imported(read, db, gs[i]) && gs[i].table == ts[i].name {
      assert gs[i] in gs;
      assert CopiesOut(db, ts[i], outs[i]);
      ExportedSegmentReads(z, sha, db, ts[i], outs, gs, streams, i);
    }
    SameKeys(gs, ts);
  }

  lemma SameKeys(gs: seq<CopySegment>, ts: seq<TableSpec>)
    requires |gs| == |ts| && forall i :: 0 <= i < |gs| ==> gs[i].table == ts[i].name
    ensures Keys(SegmentKey, gs) == Keys(TableKey, ts)
  {
  }

  lemma ExportIsComplete(read: Reads, db: Database, s: DatabaseSchema)
    requires SegmentsHold(read, db, s.segments) && Elements(Keys(TableKey, s.tables)) == db.tables.Keys
    ensures EveryTableExported(s)
  {
    assert TableNames(s) == Keys(TableKey, s.tables);
    assert SegmentTables(s) == Keys(SegmentKey, s.segments);
    forall n ensures n in TableNames(s) <==> n in SegmentTables(s) {
      assert n in TableNames(s) <==> n in Elements(Keys(TableKey, s.tables));
      assert n in SegmentTables(s) <==> n in Elements(Keys(SegmentKey, s.segments));
    }
  }

  lemma VerifiedAsSnapshot(server: Server, s: DatabaseSchema, db: Database)
    requires Live(server, db) && Snapshot(s, db)
    ensures Verified(s, db)
  {
    forall t | t in s.tables ensures t in TableSpecs(db) { assert db.tables[t.name].spec == t; }
    forall i | i in s.indexes ensures i in db.indexes.Values { assert db.indexes[i.name] == i; }
    forall v | v in s.views ensures v in db.views.Values { assert db.views[v.name] == v; }
  }

  lemma ViewsApart(s: DatabaseSchema)
    requires SchemaOk(s)
    ensures OneEach(s.views) && RatiosOk(s.segments, DEFAULT_MAX_RATIO)
  {
    forall i, j | 0 <= i < j < |s.views| ensures s.views[i].name != s.views[j].name {
      assert ViewNames(s)[i] != ViewNames(s)[j];
    }
  }

  /** Rebuilding an export gives the exported database: tables with their column order and rows,
      indexes and views. */
  lemma ExportRebuilds<C(!new), D(!new)>(
    z: Zlib<C, D>, sha: bytes -> text, server: Server, db: Database, s: DatabaseSchema, outs: seq<TableStream>, streams: seq<bytes>)
    requires Exported(z, sha, db, s, outs, streams) && Live(server, db) && Snapshot(s, db) && SchemaOk(s)
    ensures EveryTableExported(s)
    ensures var file := Concat(streams);
            Rebuilt(server, ReadOf(z, sha, file, |file|, DEFAULT_MAX_RATIO), s) == Some(db)
  {
    var read := ReadOf(z, sha, Concat(streams), |Concat(streams)|, DEFAULT_MAX_RATIO);
    ViewsApart(s);
    ExportHolds(z, sha, server, db, s, outs, streams);
    ExportIsComplete(read, db, s);
    RebuildGivesBack(server, read, db, s);
    VerifiedAsSnapshot(server, s, db);
  }

  lemma LiveRows(server: Server, db: Database)
    requires Live(server, db)
    ensures forall n, r :: n in db.tables && r in db.tables[n].rows ==> OneLine(r)
  {
    assert forall n :: n in db.tables ==> TableLive(server, db.tables[n]);
  }

  lemma ExportHolds<C(!new), D(!new)>(
    z: Zlib<C, D>, sha: bytes -> text, server: Server, db: Database, s: DatabaseSchema, outs: seq<TableStream>, streams: seq<bytes>)
    requires Exported(z, sha, db, s, outs, streams) && Live(server, db) && Snapshot(s, db)
    requires RatiosOk(s.segments, DEFAULT_MAX_RATIO)
    ensures SegmentsHold(ReadOf(z, sha, Concat(streams), |Concat(streams)|, DEFAULT_MAX_RATIO), db, s.segments)
    ensures Elements(Keys(TableKey, s.tables)) == db.tables.Keys
  {
    TableKeysOf(s, db);
    ArrangedApart(TableKey, s.tables);
    LiveRows(server, db);
    ExportedSegmentsHold(z, sha, db, Arranged(TableKey, s.tables), outs, s.segments, streams);
  }
}
