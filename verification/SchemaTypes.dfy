/** The entities recorded in `schema.json`. */
module SchemaTypes {
  import opened Results
  import opened Text
  import opened Json
  import opened CopySegments

  datatype ColumnSpec = ColumnSpec(name: text, kind: text, nullable: bool, default: Option<text>)

  datatype TableSpec = TableSpec(
    name: text, kind: text, columns: seq<ColumnSpec>, primaryKey: seq<text>, uniques: seq<seq<text>>)
  {
    function ColumnNames(): (r: seq<text>) {
      seq(|columns|, i requires 0 <= i < |columns| => columns[i].name)
    }
  }

  /** `nullsFirst` absent means PostgreSQL's default for the direction. */
  datatype IndexKeySpec = IndexKeySpec(column: text, descending: bool, nullsFirst: Option<bool>)

  datatype IndexSpec = IndexSpec(
    name: text, table: text, access: text, unique: bool, nullsNotDistinct: bool,
    keys: seq<IndexKeySpec>, included: seq<text>, where: Option<text>)

  datatype ViewSpec = ViewSpec(name: text, definition: text, dependsOn: seq<text>)

  datatype MigrationSpec = MigrationSpec(file: text, sha: Option<text>, applied: text)

  /** The two version fields keep the JSON value itself: Python's `==` lets `true` pass for 1. */
  datatype DatabaseSchema = DatabaseSchema(
    tables: seq<TableSpec>, views: seq<ViewSpec>, indexes: seq<IndexSpec>, migrations: seq<MigrationSpec>,
    segments: seq<CopySegment>, dataCopySize: nat, sourcePostgresVersion: Option<int>,
    contractVersion: Value, systemSchemaVersion: Value)
}
