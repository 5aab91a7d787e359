/** The modelled database, the statements of a rebuild, and what they do. */
module NativeDatabase {
  import opened Results
  import opened Bytes
  import opened Text
  import opened CopySegments
  import opened SchemaTypes
  import opened SchemaContract
  import opened ViewOrder

  /** One row as a line of COPY text, without its line feed: the text format escapes those. */
  type Row = bytes

  predicate OneLine(row: Row) { forall i :: 0 <= i < |row| ==> row[i] != 10 }

  /** `COPY ... TO STDOUT` of some rows. */
  function CopyText(rows: seq<Row>): bytes {
    if rows == [] then [] else rows[0] + [10] + CopyText(rows[1..])
  }

  function LineEnd(b: bytes): (k: nat)
    ensures k <= |b| && (k < |b| ==> b[k] == 10) && forall i :: 0 <= i < k ==> b[i] != 10
  {
    if b == [] || b[0] == 10 then 0 else 1 + LineEnd(b[1..])
  }

  /** The rows `COPY ... FROM STDIN` reads. */
  function Lines(b: bytes): seq<Row>
    decreases |b|
  {
    if b == [] then []
    else var k := LineEnd(b); if k == |b| then [b] else [b[..k]] + Lines(b[k + 1..])
  }

  lemma {:induction false} LineEndOf(row: Row, rest: bytes)
    requires OneLine(row)
    ensures LineEnd(row + [10] + rest) == |row|
  {
    var b := row + [10] + rest;
    if row == [] {
      assert b[0] == 10;
    } else {
      assert b[1..] == row[1..] + [10] + rest;
      assert b[0] == row[0];
      LineEndOf(row[1..], rest);
    }
  }

  lemma {:induction false} LinesInvert(rows: seq<Row>)
    requires forall i :: 0 <= i < |rows| ==> OneLine(rows[i])
    ensures Lines(CopyText(rows)) == rows
  {
    if rows != [] {
      LinesInvert(rows[1..]);
      var row, rest := rows[0], CopyText(rows[1..]);
      var b := row + [10] + rest;
      LineEndOf(row, rest);
      assert b[..|row|] == row && b[|row| + 1..] == rest;
    }
  }

  datatype Table = Table(spec: TableSpec, rows: seq<Row>)

  datatype Database = Database(tables: map<text, Table>, indexes: map<text, IndexSpec>, views: Catalog)

  /** What a client sees: schema `public`, and the commit marker beside it. */
  datatype State = State(db: Database, marker: Option<text>)

  const EMPTY := Database(map[], map[], map[])

  /** What PostgreSQL decides by itself: whether rows suit a table's types and constraints, whether an
      index can be built over them, and how it prints a view's query back. */
  datatype Server = Server(
    fits: (TableSpec, seq<Row>) -> bool, holds: (IndexSpec, seq<Row>) -> bool, deparse: text -> text)

  /** Tables, indexes and views share one name space. */
  predicate Taken(db: Database, name: text) { name in db.tables || name in db.indexes || name in db.views }

  predicate IndexApplies(db: Database, i: IndexSpec) {
    && i.table in db.tables
    && (forall k :: k in i.keys ==> k.column in db.tables[i.table].spec.ColumnNames())
    && Within(i.included, db.tables[i.table].spec.ColumnNames())
  }

  predicate DepsPresent(db: Database, v: ViewSpec) {
    forall d :: d in v.dependsOn ==> d in db.tables || d in db.views
  }

  datatype Stmt = CreateTable(t: TableSpec) | Import(g: CopySegment) | CreateIndex(i: IndexSpec) | CreateView(v: ViewSpec)

  /** One statement; `read` is the content of a segment. Every failure aborts. */
  function Apply(server: Server, read: CopySegment -> Option<bytes>, db: Database, s: Stmt): Option<Database> {
    match s
    case CreateTable(t) => if Taken(db, t.name) then None else Some(db.(tables := db.tables[t.name := Table(t, [])]))
    case Import(g) => if read(g).None? then None else CopyIn(server, db, g, read(g).value)
    case CreateIndex(i) =>
      if Taken(db, i.name) || !IndexApplies(db, i) || !server.holds(i, db.tables[i.table].rows) then None
      else Some(db.(indexes := db.indexes[i.name := i]))
    case CreateView(v) =>
      if Taken(db, v.name) || !DepsPresent(db, v) then None
      else Some(db.(views := db.views[v.name := v.(definition := server.deparse(v.definition))]))
  }

  /** COPY appends the rows; the recorded count must be the imported one. */
  function CopyIn(server: Server, db: Database, g: CopySegment, content: bytes): Option<Database> {
    if g.table !in db.tables || g.columns != db.tables[g.table].spec.ColumnNames() then None
    else
      var table := db.tables[g.table];
      var rows := table.rows + Lines(content);
      if !server.fits(table.spec, rows) || |Lines(content)| != g.rowCount then None
      else Some(db.(tables := db.tables[g.table := Table(table.spec, rows)]))
  }

  function Run(server: Server, read: CopySegment -> Option<bytes>, db: Database, script: seq<Stmt>): Option<Database> {
    if script == [] then Some(db)
    else
      var n := |script| - 1;
      match Run(server, read, db, script[..n])
      case None => None
      case Some(d) => Apply(server, read, d, script[n])
  }

  lemma {:induction false} RunConcat(
    server: Server, read: CopySegment -> Option<bytes>, db: Database, a: seq<Stmt>, b: seq<Stmt>)
    ensures Run(server, read, db, a + b) ==
            match Run(server, read, db, a) case None => None case Some(d) => Run(server, read, d, b)
    decreases |b|
  {
    if b == [] {
      assert a + b == a;
    } else {
      var n := |b| - 1;
      assert (a + b)[..|a| + n] == a + b[..n];
      RunConcat(server, read, db, a, b[..n]);
    }
  }

  ghost predicate TableLive(server: Server, t: Table) {
    server.fits(t.spec, t.rows) && forall i :: 0 <= i < |t.rows| ==> OneLine(t.rows[i])
  }

  ghost predicate IndexLive(server: Server, db: Database, i: IndexSpec) {
    IndexApplies(db, i) && server.holds(i, db.tables[i.table].rows)
  }

  ghost predicate ViewLive(server: Server, db: Database, v: ViewSpec) {
    DepsPresent(db, v) && v.name !in v.dependsOn && server.deparse(v.definition) == v.definition
  }

  /** The state of a database as PostgreSQL keeps it. */
  ghost predicate Live(server: Server, db: Database) {
    && (forall n :: n in db.tables ==> db.tables[n].spec.name == n && TableLive(server, db.tables[n]))
    && (forall n :: n in db.indexes ==> db.indexes[n].name == n && IndexLive(server, db, db.indexes[n]))
    && (forall n :: n in db.views ==> db.views[n].name == n && ViewLive(server, db, db.views[n]))
    && (forall c :: !Cycle(db.views, c))
    && db.tables.Keys !! db.indexes.Keys && db.tables.Keys !! db.views.Keys && db.indexes.Keys !! db.views.Keys
  }

  /** The schema lists exactly the tables, indexes and views of the database. */
  ghost predicate Snapshot(s: DatabaseSchema, db: Database) {
    && (forall t :: t in s.tables <==> t.name in db.tables && db.tables[t.name].spec == t)
    && (forall i :: i in s.indexes <==> i.name in db.indexes && db.indexes[i.name] == i)
    && (forall v :: v in s.views <==> v.name in db.views && db.views[v.name] == v)
  }
}
