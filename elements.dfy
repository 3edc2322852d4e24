/** The records the schema owns: tables, columns and their translate-error
    status, with abstract identifiers in place of UUIDs, and the
    case-insensitive name comparison every lookup uses. */
module Elements {
  import opened Seqs

  /** Abstract identifiers (the source uses random UUIDs). */
  type TableId = nat
  type ColId = nat

  /** The code carried by a translate error; `NoError` is the only success code. */
  datatype ErrorCode = NoError | TranslateError | EvaluateError | GeneralError

  /** How a column is defined; only KEY and PROJ are distinguished by the core. */
  datatype DefinitionType = Noop | Calc | Key | Proj

  /** A table: its name, whether it is a primitive value domain, its row count and the start of its id range. */
  datatype Table = Table(id: TableId, name: string, primitive: bool, length: nat, rangeStart: int)

  /** A column, as the schema sees it. `deps` is None where the source's dependency
      list is null, and `translateError` is None where its translate error is null. */
  datatype Column = Column(
    id: ColId,
    name: string,
    input: TableId,
    output: TableId,
    derived: bool,
    kind: DefinitionType,
    deps: Option<seq<ColId>>,
    translateError: Option<ErrorCode>)

  /** The translate error is neither null nor NONE. */
  predicate HasTranslateError(c: Column)
  {
    c.translateError.Some? && c.translateError.value != NoError
  }

  /** ASCII lower-casing, the part of Java's case folding this model keeps. */
  function Fold(ch: char): char
  {
    if 'A' <= ch <= 'Z' then (ch as int + 32) as char else ch
  }

  /** `String.equalsIgnoreCase`, over ASCII letters. */
  predicate EqualsIgnoreCase(a: string, b: string)
  {
    |a| == |b| && forall i :: 0 <= i < |a| ==> Fold(a[i]) == Fold(b[i])
  }

  /** The names of the two primitive tables every schema creates. */
  const DoubleName: string := "Double"
  const StringName: string := "String"

  /** Whether a table of this name is a primitive (atomic) value domain. */
  predicate IsPrimitiveName(name: string)
  {
    EqualsIgnoreCase(name, DoubleName) || EqualsIgnoreCase(name, StringName)
  }

  predicate HasTable(tables: seq<Table>, id: TableId)
  {
    exists t :: t in tables && t.id == id
  }

  /** The table list keeps distinct ids and names that differ ignoring case, all ids below `nextId`. */
  predicate TablesValid(tables: seq<Table>, nextId: nat)
  {
    && (forall t :: t in tables ==> t.id < nextId)
    && Pairwise(tables, (a: Table, b: Table) => a.id != b.id && !EqualsIgnoreCase(a.name, b.name))
  }

  /** No two columns of the list share an id. */
  predicate UniqueIds(columns: seq<Column>)
  {
    Pairwise(columns, (a: Column, b: Column) => a.id != b.id)
  }

  /** The column list keeps distinct ids below `nextId`, and every column's input and output table exists. */
  predicate ColumnsValid(columns: seq<Column>, tables: seq<Table>, nextId: nat)
  {
    && (forall c :: c in columns ==> c.id < nextId && HasTable(tables, c.input) && HasTable(tables, c.output))
    && UniqueIds(columns)
  }

  //
  // Lookups (the schema's stream filters with findAny)
  //

  /** `getTable(name)`: the first table whose name equals `name` ignoring case. */
  function TableByName(tables: seq<Table>, name: string): (r: Option<nat>)
    ensures r.Some? ==> r.value < |tables| && EqualsIgnoreCase(tables[r.value].name, name)
    ensures r.Some? ==> forall j :: 0 <= j < r.value ==> !EqualsIgnoreCase(tables[j].name, name)
    ensures r.None? <==> forall t :: t in tables ==> !EqualsIgnoreCase(t.name, name)
  {
    FirstIndex(tables, (t: Table) => EqualsIgnoreCase(t.name, name))
  }

  /** `getTableById(id)`: the first table with this id. */
  function TableById(tables: seq<Table>, id: TableId): (r: Option<nat>)
    ensures r.Some? ==> r.value < |tables| && tables[r.value].id == id
    ensures r.None? <==> !HasTable(tables, id)
  {
    FirstIndex(tables, (t: Table) => t.id == id)
  }

  /** `getColumnById(id)`: the first column with this id. */
  function ColumnById(columns: seq<Column>, id: ColId): (r: Option<nat>)
    ensures r.Some? ==> r.value < |columns| && columns[r.value].id == id
    ensures r.None? <==> forall c :: c in columns ==> c.id != id
  {
    FirstIndex(columns, (c: Column) => c.id == id)
  }

  /** `getColumns(table)`: the columns whose input is `table`, in schema order. */
  function ColumnsOf(columns: seq<Column>, table: TableId): (r: seq<Column>)
    ensures forall c :: c in r <==> c in columns && c.input == table
  {
    Filter(columns, (c: Column) => c.input == table)
  }

  /** The name of the table with this id, when there is one. */
  function TableName(tables: seq<Table>, id: TableId): Option<string>
  {
    match TableById(tables, id)
    case None => None
    case Some(i) => Some(tables[i].name)
  }

  /** The column's input table exists and is named `table`, ignoring case. */
  predicate InputNamed(tables: seq<Table>, c: Column, table: string)
  {
    var input := TableName(tables, c.input);
    input.Some? && EqualsIgnoreCase(input.value, table)
  }

  /** The column's input table is named `table` and the column is named `column`, both ignoring case. */
  predicate Named(tables: seq<Table>, c: Column, table: string, column: string)
  {
    InputNamed(tables, c, table) && EqualsIgnoreCase(c.name, column)
  }

  /** `getColumns(tableName)`: the columns whose input table is named `table` ignoring case, in schema order. */
  function ColumnsOfNamed(tables: seq<Table>, columns: seq<Column>, table: string): (r: seq<Column>)
    ensures forall c :: c in r <==> c in columns && InputNamed(tables, c, table)
  {
    Filter(columns, (c: Column) => InputNamed(tables, c, table))
  }

  /** `getColumn(table, column)` for a table given by id: the first column of `table` named `column` ignoring case. */
  function ColumnOn(columns: seq<Column>, table: TableId, column: string): (r: Option<nat>)
    ensures r.Some? ==> r.value < |columns| && columns[r.value].input == table && EqualsIgnoreCase(columns[r.value].name, column)
    ensures r.None? <==> forall c :: c in columns ==> !(c.input == table && EqualsIgnoreCase(c.name, column))
  {
    FirstIndex(columns, (c: Column) => c.input == table && EqualsIgnoreCase(c.name, column))
  }

  /** `getColumn(table, column)` by names: the first column so named on a table so named. */
  function ColumnByNames(tables: seq<Table>, columns: seq<Column>, table: string, column: string): (r: Option<nat>)
    ensures r.Some? ==> r.value < |columns| && Named(tables, columns[r.value], table, column)
    ensures r.None? <==> forall c :: c in columns ==> !Named(tables, c, table, column)
  {
    FirstIndex(columns, (c: Column) => Named(tables, c, table, column))
  }
}
