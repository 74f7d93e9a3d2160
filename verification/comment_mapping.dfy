/** The `comments` table the service creates and the `Map<Comment>`
    configuration that ties each `Comment` property to one of its columns,
    with the conversions between a comment and a row that the mapper
    performs on insert and fetch. */
module CommentMapping {
  import opened Wrappers
  import opened Comments
  import opened Cassandra

  const CommentsTableName: string := "comments"

  /** The columns of `CREATE TABLE IF NOT EXISTS comments (...)`, keyed by `id`. */
  const CommentsTable: TableDef := TableDef(
    [ ColumnDef("id", Uuid),
      ColumnDef("content", Text),
      ColumnDef("post_id", Uuid),
      ColumnDef("user_id", Text),
      ColumnDef("created_at", Timestamp) ],
    "id")

  /** The properties of `Comment`. */
  datatype Field = Id | Content | PostId | UserId | CreatedAt

  /** One `.Column(c => c.Field, cm => cm.WithName(column)...)` entry; the
      column type is the explicit `WithDbType` or the one the driver infers
      from the property type. */
  datatype ColumnMap = ColumnMap(field: Field, column: string, cqlType: CqlType)

  datatype TableMap = TableMap(table: string, partitionKey: Field, columns: seq<ColumnMap>)

  /** The `Map<Comment>` definition. */
  const CommentMap: TableMap := TableMap(
    "comments",
    Id,
    [ ColumnMap(Id, "id", Uuid),
      ColumnMap(Content, "content", Text),
      ColumnMap(PostId, "post_id", Uuid),
      ColumnMap(UserId, "user_id", Text),
      ColumnMap(CreatedAt, "created_at", Timestamp) ])

  /** The first entry of `cols` for `f`, if any. */
  function FindField(cols: seq<ColumnMap>, f: Field): Option<ColumnMap> {
    if |cols| == 0 then None
    else if cols[0].field == f then Some(cols[0])
    else FindField(cols[1..], f)
  }

  /** The first entry of `cols` for column `name`, if any. */
  function FindColumn(cols: seq<ColumnMap>, name: string): Option<ColumnMap> {
    if |cols| == 0 then None
    else if cols[0].column == name then Some(cols[0])
    else FindColumn(cols[1..], name)
  }

  /** The column `f` is stored in, or None for an unmapped property. */
  function ColumnOf(f: Field): Option<string> {
    match FindField(CommentMap.columns, f)
    case Some(m) => Some(m.column)
    case None => None
  }

  /** The property column `name` holds, or None for an unmapped column. */
  function FieldOf(name: string): Option<Field> {
    match FindColumn(CommentMap.columns, name)
    case Some(m) => Some(m.field)
    case None => None
  }

  /** The column definition each mapping entry denotes. */
  function MappedColumns(cols: seq<ColumnMap>): (defs: seq<ColumnDef>)
    ensures |defs| == |cols|
    ensures forall i :: 0 <= i < |cols| ==> defs[i] == ColumnDef(cols[i].column, cols[i].cqlType)
  {
    if |cols| == 0 then [] else [ColumnDef(cols[0].column, cols[0].cqlType)] + MappedColumns(cols[1..])
  }

  /** The column each property is mapped to. */
  lemma ColumnNames()
    ensures ColumnOf(Id) == Some("id") && ColumnOf(Content) == Some("content")
    ensures ColumnOf(PostId) == Some("post_id") && ColumnOf(UserId) == Some("user_id")
    ensures ColumnOf(CreatedAt) == Some("created_at")
  {
    var cols := CommentMap.columns;
    assert FindField(cols, CreatedAt) == FindField(cols[1..][1..][1..][1..], CreatedAt);
  }

  /** The property each column is mapped from; no other column is mapped. */
  lemma FieldNames(name: string)
    ensures FieldOf(name) ==
      if name == "id" then Some(Id)
      else if name == "content" then Some(Content)
      else if name == "post_id" then Some(PostId)
      else if name == "user_id" then Some(UserId)
      else if name == "created_at" then Some(CreatedAt)
      else None
  {
    var cols := CommentMap.columns;
    var c1, c2, c3, c4 := cols[1..], cols[1..][1..], cols[1..][1..][1..], cols[1..][1..][1..][1..];
    assert c4[1..] == [];
    assert FindColumn(c4, name) == if name == "created_at" then Some(c4[0]) else None;
    assert FindColumn(c3, name) == if name == "user_id" then Some(c3[0]) else FindColumn(c4, name);
    assert FindColumn(c2, name) == if name == "post_id" then Some(c2[0]) else FindColumn(c3, name);
    assert FindColumn(c1, name) == if name == "content" then Some(c1[0]) else FindColumn(c2, name);
  }

  /** The mapping is a bijection between the five properties and the five
      columns: every property has a column, and the column leads back to it. */
  lemma MappingIsBijection()
    ensures forall f: Field :: ColumnOf(f).Some? && FieldOf(ColumnOf(f).value) == Some(f)
    ensures forall name: string, f: Field :: FieldOf(name) == Some(f) ==> ColumnOf(f) == Some(name)
  {
    ColumnNames();
    forall f: Field ensures ColumnOf(f).Some? && FieldOf(ColumnOf(f).value) == Some(f) {
      FieldNames(ColumnOf(f).value);
    }
    forall name: string, f: Field | FieldOf(name) == Some(f) ensures ColumnOf(f) == Some(name) {
      FieldNames(name);
    }
  }

  /** The mapping describes exactly the table the service creates: the same
      table name, the same columns with the same types in the same order, and
      the partition key is the table's primary key. */
  lemma MappingMatchesTable()
    ensures CommentMap.table == CommentsTableName
    ensures MappedColumns(CommentMap.columns) == CommentsTable.columns
    ensures ColumnOf(CommentMap.partitionKey) == Some(CommentsTable.primaryKey)
  {
  }

  /** A value in one cell of a row. */
  datatype CqlValue = UuidValue(uuid: Guid) | TextValue(text: string) | TimestampValue(instant: Instant)

  predicate HasType(v: CqlValue, t: CqlType) {
    match t
    case Uuid => v.UuidValue?
    case Text => v.TextValue?
    case Timestamp => v.TimestampValue?
  }

  /** A row of the `comments` table, by column name. */
  type Row = map<string, CqlValue>

  /** The cell the mapper writes for property `f` of `c`. */
  function FieldValue(c: Comment, f: Field): CqlValue {
    match f
    case Id => UuidValue(c.id)
    case Content => TextValue(c.content)
    case PostId => UuidValue(c.postId)
    case UserId => TextValue(c.userId)
    case CreatedAt => TimestampValue(c.createdAt)
  }

  /** The columns of the `comments` table are exactly these five names. */
  lemma TableColumnNames(name: string)
    ensures HasColumn(CommentsTable, name) <==>
      name == "id" || name == "content" || name == "post_id" || name == "user_id" || name == "created_at"
  {
    if name == "id" { assert CommentsTable.columns[0].name == name; }
    else if name == "content" { assert CommentsTable.columns[1].name == name; }
    else if name == "post_id" { assert CommentsTable.columns[2].name == name; }
    else if name == "user_id" { assert CommentsTable.columns[3].name == name; }
    else if name == "created_at" { assert CommentsTable.columns[4].name == name; }
  }

  /** The row the mapper inserts for `c`: each property's value, with
      `created_at` kept to whole milliseconds. */
  function ToRow(c: Comment): Row {
    var p := Persisted(c);
    map[
      "id" := FieldValue(p, Id),
      "content" := FieldValue(p, Content),
      "post_id" := FieldValue(p, PostId),
      "user_id" := FieldValue(p, UserId),
      "created_at" := FieldValue(p, CreatedAt)]
  }

  /** The inserted row has every column of the table and only those, each
      holding the value of the property mapped to it as the column keeps it,
      of the column's type. */
  lemma ToRowFillsTable(c: Comment)
    ensures forall name :: name in ToRow(c) <==> HasColumn(CommentsTable, name)
    ensures forall i :: 0 <= i < |CommentMap.columns| ==>
      var m := CommentMap.columns[i];
      && m.column in ToRow(c)
      && ToRow(c)[m.column] == FieldValue(Persisted(c), m.field)
      && HasType(ToRow(c)[m.column], m.cqlType)
  {
    forall name ensures name in ToRow(c) <==> HasColumn(CommentsTable, name) {
      TableColumnNames(name);
    }
  }

  /** The comment the mapper materialises from `row`, or None when a mapped
      column is missing or holds a value of the wrong type. */
  function FromRow(row: Row): Option<Comment> {
    if && "id" in row && row["id"].UuidValue?
       && "content" in row && row["content"].TextValue?
       && "post_id" in row && row["post_id"].UuidValue?
       && "user_id" in row && row["user_id"].TextValue?
       && "created_at" in row && row["created_at"].TimestampValue?
    then Some(Comment(row["id"].uuid, row["content"].text, row["post_id"].uuid,
                      row["user_id"].text, row["created_at"].instant))
    else None
  }

  /** Writing a comment and reading the row back gives the same comment,
      except that its creation time comes back in whole milliseconds; a
      comment created on a whole millisecond comes back identical. */
  lemma RowRoundTrip(c: Comment)
    ensures FromRow(ToRow(c)) == Some(Persisted(c))
    ensures c.createdAt % TicksPerMillisecond == 0 ==> FromRow(ToRow(c)) == Some(c)
  {
    assert CommentMap.columns[0].column == "id";
    assert CommentMap.columns[1].column == "content";
    assert CommentMap.columns[2].column == "post_id";
    assert CommentMap.columns[3].column == "user_id";
    assert CommentMap.columns[4].column == "created_at";
  }

  /** Conversely, a row that reads as `c` holds in every mapped column the
      value of the property mapped to it, which is what writing `c` would put
      there when `c` was created on a whole millisecond. */
  lemma FromRowInverse(row: Row, c: Comment)
    requires FromRow(row) == Some(c)
    ensures forall i :: 0 <= i < |CommentMap.columns| ==>
      CommentMap.columns[i].column in row && row[CommentMap.columns[i].column] == FieldValue(c, CommentMap.columns[i].field)
    ensures c.createdAt % TicksPerMillisecond == 0 ==> forall i :: 0 <= i < |CommentMap.columns| ==>
      row[CommentMap.columns[i].column] == ToRow(c)[CommentMap.columns[i].column]
  {
  }
}
