/** `TableDefinitionProd`: a table whose records are all combinations of the
    elements of the tables its key columns point to. The selectors are pure
    list filters; `populate` is the search procedure over arrays of offsets
    and lengths, followed by a pass that moves each offset into the id range
    of its dimension. */
module ProdDefinition {
  import opened Seqs
  import opened Elements
  import opened Odometer

  /** The table a column's output id names. */
  function OutputTable(tables: seq<Table>, c: Column): (t: Table)
    requires HasTable(tables, c.output)
    ensures t in tables && t.id == c.output
  {
    tables[TableById(tables, c.output).value]
  }

  /** `getOutput().isPrimitive()`. Only asked of KEY columns, which have an output table wherever
      `KeyOutputsExist` holds; false where there is none. */
  predicate OutputPrimitive(tables: seq<Table>, c: Column)
  {
    match TableById(tables, c.output)
    case None => false
    case Some(i) => tables[i].primitive
  }

  /** A KEY column whose output is not primitive: one dimension of the product. */
  predicate IsDimension(tables: seq<Table>, c: Column)
  {
    c.kind == Key && !OutputPrimitive(tables, c)
  }

  /** A PROJ column that writes into `table`. */
  predicate IsIncomingProj(c: Column, table: TableId)
  {
    c.output == table && c.kind == Proj
  }

  /** Every KEY column of `table` has an output table (the source dereferences it). */
  predicate KeyOutputsExist(tables: seq<Table>, columns: seq<Column>, table: TableId)
  {
    forall c :: c in columns && c.input == table && c.kind == Key ==> HasTable(tables, c.output)
  }

  //
  // Selectors
  //

  /** `getKeyColumns()`: the dimensions among the columns of `table`, in the table's column order. */
  function KeyColumns(tables: seq<Table>, columns: seq<Column>, table: TableId): (r: seq<Column>)
    requires KeyOutputsExist(tables, columns, table)
    ensures forall c :: c in r <==> c in columns && c.input == table && IsDimension(tables, c)
  {
    Filter(ColumnsOf(columns, table), (c: Column) => IsDimension(tables, c))
  }

  /** `getProjColumns()`: the schema's PROJ columns whose output is `table`, in schema order. */
  function ProjColumns(columns: seq<Column>, table: TableId): (r: seq<Column>)
    ensures forall c :: c in r <==> c in columns && IsIncomingProj(c, table)
  {
    Filter(columns, (c: Column) => IsIncomingProj(c, table))
  }

  /** Each dimension of `table` is listed as often as the schema holds it, and nothing else is. */
  lemma KeyColumnsCount(tables: seq<Table>, columns: seq<Column>, table: TableId, c: Column)
    requires KeyOutputsExist(tables, columns, table)
    ensures multiset(KeyColumns(tables, columns, table))[c] ==
            if c.input == table && IsDimension(tables, c) then multiset(columns)[c] else 0
  {
    FilterCount(columns, (c: Column) => c.input == table, c);
    FilterCount(ColumnsOf(columns, table), (c: Column) => IsDimension(tables, c), c);
  }

  /** Each incoming PROJ column is listed as often as the schema holds it, and nothing else is. */
  lemma ProjColumnsCount(columns: seq<Column>, table: TableId, c: Column)
    ensures multiset(ProjColumns(columns, table))[c] ==
            if IsIncomingProj(c, table) then multiset(columns)[c] else 0
  {
    FilterCount(columns, (c: Column) => IsIncomingProj(c, table), c);
  }

  /** The loop of `getKeyColumns`: over the table's columns, skipping non-KEY columns, then
      columns with a primitive output. */
  method GetKeyColumns(tables: seq<Table>, columns: seq<Column>, table: TableId) returns (r: seq<Column>)
    requires KeyOutputsExist(tables, columns, table)
    ensures r == KeyColumns(tables, columns, table)
  {
    var p := (c: Column) => IsDimension(tables, c);
    var cs := ColumnsOf(columns, table);
    r := [];
    for i := 0 to |cs|
      invariant r == Filter(cs[..i], p)
    {
      var col := cs[i];
      TakeSnoc(cs, i);
      FilterSnoc(cs[..i], col, p);
      assert col.kind == Key ==> (p(col) <==> !OutputTable(tables, col).primitive);
      if col.kind != Key {
        continue;
      }
      if OutputTable(tables, col).primitive {
        continue;
      }
      r := r + [col];
    }
    assert cs[..|cs|] == cs;
  }

  /** The loop of `getProjColumns`: over all schema columns, skipping those with another output,
      then non-PROJ columns. */
  method GetProjColumns(columns: seq<Column>, table: TableId) returns (r: seq<Column>)
    ensures r == ProjColumns(columns, table)
  {
    var p := (c: Column) => IsIncomingProj(c, table);
    r := [];
    for i := 0 to |columns|
      invariant r == Filter(columns[..i], p)
    {
      var col := columns[i];
      TakeSnoc(columns, i);
      FilterSnoc(columns[..i], col, p);
      if col.output != table {
        continue;
      }
      if col.kind != Proj {
        continue;
      }
      r := r + [col];
    }
    assert columns[..|columns|] == columns;
  }

  //
  // Dependencies
  //

  /** An element another definition can depend on. */
  datatype Element = TableElement(table: TableId) | ColumnElement(column: ColId)

  /** `getDependencies()`: the output tables of the key columns, then the incoming PROJ columns,
      then the input tables of those PROJ columns. */
  function Dependencies(tables: seq<Table>, columns: seq<Column>, table: TableId): (r: seq<Element>)
    requires KeyOutputsExist(tables, columns, table)
    ensures |r| == |KeyColumns(tables, columns, table)| + 2 * |ProjColumns(columns, table)|
  {
    var keys := KeyColumns(tables, columns, table);
    var projs := ProjColumns(columns, table);
    Map(keys, KeyType) + Map(projs, ProjColumn) + Map(projs, ProjInput)
  }

  function KeyType(c: Column): Element
  {
    TableElement(c.output)
  }

  function ProjColumn(c: Column): Element
  {
    ColumnElement(c.id)
  }

  function ProjInput(c: Column): Element
  {
    TableElement(c.input)
  }

  /** `e` is the output table of a dimension of `table`. */
  predicate KeyTypeOf(tables: seq<Table>, columns: seq<Column>, table: TableId, e: Element)
  {
    exists c :: c in columns && c.input == table && IsDimension(tables, c) && e == TableElement(c.output)
  }

  /** `e` is an incoming PROJ column of `table`, or the input table of one. */
  predicate ProjSourceOf(columns: seq<Column>, table: TableId, e: Element)
  {
    exists c :: c in columns && IsIncomingProj(c, table) && (e == ColumnElement(c.id) || e == TableElement(c.input))
  }

  lemma KeyTypesAre(tables: seq<Table>, columns: seq<Column>, table: TableId, e: Element)
    requires KeyOutputsExist(tables, columns, table)
    ensures e in Map(KeyColumns(tables, columns, table), KeyType) <==> KeyTypeOf(tables, columns, table, e)
  {
    MapMember(KeyColumns(tables, columns, table), KeyType, e);
  }

  lemma ProjSourcesAre(columns: seq<Column>, table: TableId, e: Element)
    ensures e in Map(ProjColumns(columns, table), ProjColumn) + Map(ProjColumns(columns, table), ProjInput)
            <==> ProjSourceOf(columns, table, e)
  {
    MapMember(ProjColumns(columns, table), ProjColumn, e);
    MapMember(ProjColumns(columns, table), ProjInput, e);
  }

  /** A product table depends on exactly the domains of its dimensions, its incoming PROJ
      columns and their input tables. */
  lemma DependenciesAreTheSources(tables: seq<Table>, columns: seq<Column>, table: TableId, e: Element)
    requires KeyOutputsExist(tables, columns, table)
    ensures e in Dependencies(tables, columns, table) <==>
            KeyTypeOf(tables, columns, table, e) || ProjSourceOf(columns, table, e)
  {
    var keys := KeyColumns(tables, columns, table);
    var projs := ProjColumns(columns, table);
    KeyTypesAre(tables, columns, table, e);
    ProjSourcesAre(columns, table, e);
    assert Dependencies(tables, columns, table) == Map(keys, KeyType) + (Map(projs, ProjColumn) + Map(projs, ProjInput));
  }

  //
  // Population
  //

  /** The stored records of the table being populated: record `j` holds the value of each key
      column, in key-column order. Its length is the table's length. */
  class TableData {
    var rows: seq<seq<int>>

    constructor ()
      ensures rows == []
    {
      rows := [];
    }
  }

  /** Every row holds one value per dimension. */
  predicate Rectangular(rows: seq<seq<int>>, k: nat)
  {
    forall j :: 0 <= j < |rows| ==> |rows[j]| == k
  }

  /** The lengths of the dimensions' domains, as `populate` reads them into `lengths`. */
  function Lengths(tables: seq<Table>, keys: seq<Column>): (r: seq<nat>)
    requires forall c :: c in keys ==> HasTable(tables, c.output)
    ensures |r| == |keys|
  {
    seq(|keys|, i requires 0 <= i < |keys| => OutputTable(tables, keys[i]).length)
  }

  /** The first id of each dimension's domain, as the shift pass reads it. */
  function Starts(tables: seq<Table>, keys: seq<Column>): (r: seq<int>)
    requires forall c :: c in keys ==> HasTable(tables, c.output)
    ensures |r| == |keys|
  {
    seq(|keys|, i requires 0 <= i < |keys| => OutputTable(tables, keys[i]).rangeStart)
  }

  /** The shift pass part way: dimensions below `col` moved for every row, dimension `col` for
      the rows below `row`. */
  function PartShift(rows: seq<seq<int>>, starts: seq<int>, col: nat, row: nat): (r: seq<seq<int>>)
    requires Rectangular(rows, |starts|)
    ensures |r| == |rows| && Rectangular(r, |starts|)
  {
    seq(|rows|, j requires 0 <= j < |rows| =>
      seq(|starts|, i requires 0 <= i < |starts| =>
        rows[j][i] + (if i < col || (i == col && j < row) then starts[i] else 0)))
  }

  /** Every row with the start of each dimension's id range added to the value in that dimension. */
  function Shifted(rows: seq<seq<int>>, starts: seq<int>): (r: seq<seq<int>>)
    requires Rectangular(rows, |starts|)
    ensures |r| == |rows| && Rectangular(r, |starts|)
    ensures forall j, i :: 0 <= j < |rows| && 0 <= i < |starts| ==> r[j][i] - starts[i] == rows[j][i]
  {
    PartShift(rows, starts, |starts|, 0)
  }

  lemma PartShiftNone(rows: seq<seq<int>>, starts: seq<int>)
    requires Rectangular(rows, |starts|)
    ensures PartShift(rows, starts, 0, 0) == rows
  {
    var r := PartShift(rows, starts, 0, 0);
    forall j | 0 <= j < |rows| ensures r[j] == rows[j] {
    }
  }

  lemma PartShiftStep(rows: seq<seq<int>>, starts: seq<int>, col: nat, row: nat)
    requires Rectangular(rows, |starts|) && col < |starts| && row < |rows|
    ensures var p := PartShift(rows, starts, col, row);
            p[row := p[row][col := p[row][col] + starts[col]]] == PartShift(rows, starts, col, row + 1)
  {
    var p := PartShift(rows, starts, col, row);
    var a := p[row := p[row][col := p[row][col] + starts[col]]];
    var b := PartShift(rows, starts, col, row + 1);
    forall j | 0 <= j < |rows| ensures a[j] == b[j] {
    }
  }

  lemma PartShiftNext(rows: seq<seq<int>>, starts: seq<int>, col: nat)
    requires Rectangular(rows, |starts|) && col < |starts|
    ensures PartShift(rows, starts, col, |rows|) == PartShift(rows, starts, col + 1, 0)
  {
    var a := PartShift(rows, starts, col, |rows|);
    var b := PartShift(rows, starts, col + 1, 0);
    forall j | 0 <= j < |rows| ensures a[j] == b[j] {
    }
  }

  /** The lengths of the dimensions of `table`. */
  function DimLengths(tables: seq<Table>, columns: seq<Column>, table: TableId): (r: seq<nat>)
    requires KeyOutputsExist(tables, columns, table)
    ensures |r| == |KeyColumns(tables, columns, table)|
  {
    Lengths(tables, KeyColumns(tables, columns, table))
  }

  /** The id-range starts of the dimensions of `table`. */
  function DimStarts(tables: seq<Table>, columns: seq<Column>, table: TableId): (r: seq<int>)
    requires KeyOutputsExist(tables, columns, table)
    ensures |r| == |KeyColumns(tables, columns, table)|
  {
    Starts(tables, KeyColumns(tables, columns, table))
  }

  /** What `populate` leaves in a table that held `rows`: the product rows appended, then the
      id-range start of each dimension added to every record's value in that dimension. */
  function Populated(tables: seq<Table>, columns: seq<Column>, table: TableId, rows: seq<seq<int>>): seq<seq<int>>
    requires KeyOutputsExist(tables, columns, table)
    requires Rectangular(rows, |KeyColumns(tables, columns, table)|)
  {
    var L := DimLengths(tables, columns, table);
    TuplesRectangular(L);
    Shifted(rows + Tuples(L), DimStarts(tables, columns, table))
  }

  lemma TuplesRectangular(L: seq<nat>)
    ensures Rectangular(Tuples(L), |L|)
  {
  }

  lemma RectangularAppend(a: seq<seq<int>>, b: seq<seq<int>>, k: nat)
    requires Rectangular(a, k) && Rectangular(b, k)
    ensures Rectangular(a + b, k)
  {
  }

  /** `populate()`: enumerate every combination of offsets with the odometer, appending one
      record per combination, then shift every record of the table into the dimensions' id ranges. */
  method Populate(tables: seq<Table>, columns: seq<Column>, table: TableId, data: TableData)
    requires KeyOutputsExist(tables, columns, table)
    requires Rectangular(data.rows, |KeyColumns(tables, columns, table)|)
    modifies data
    ensures data.rows == Populated(tables, columns, table, old(data.rows))
  {
    var cols := GetKeyColumns(tables, columns, table);
    var offsets := NewOffsets(|cols|);
    var lengths := ReadLengths(tables, cols);
    Search(offsets, lengths, data);
    TuplesRectangular(Lengths(tables, cols));
    RectangularAppend(old(data.rows), Tuples(Lengths(tables, cols)), |cols|);
    ShiftIntoRanges(tables, cols, data);
  }

  /** The `offsets` array of `populate`: one entry per dimension, all -1. */
  method NewOffsets(colCount: nat) returns (offsets: array<int>)
    ensures fresh(offsets) && offsets.Length == colCount
    ensures forall m :: 0 <= m < colCount ==> offsets[m] == -1
  {
    offsets := new int[colCount];
    for i := 0 to colCount
      invariant forall m :: 0 <= m < i ==> offsets[m] == -1
    {
      offsets[i] := -1;
    }
  }

  /** The `lengths` array of `populate`: the length of each dimension's output table. */
  method ReadLengths(tables: seq<Table>, cols: seq<Column>) returns (lengths: array<nat>)
    requires forall c :: c in cols ==> HasTable(tables, c.output)
    ensures fresh(lengths) && lengths[..] == Lengths(tables, cols)
  {
    lengths := new nat[|cols|];
    for i := 0 to |cols|
      invariant forall m :: 0 <= m < i ==> lengths[m] == Lengths(tables, cols)[m]
    {
      lengths[i] := OutputTable(tables, cols[i]).length;
    }
    assert lengths[..] == Lengths(tables, cols);
  }

  /** `do ++top; while (top < colCount && lengths[top] == 0)`: the first non-empty level above `top`. */
  method SkipUp(lengths: array<nat>, top: int) returns (t: int)
    requires -1 <= top < lengths.Length
    ensures top < t <= lengths.Length && (t == lengths.Length || lengths[t] > 0)
    ensures forall m :: top < m < t ==> lengths[m] == 0
  {
    t := top + 1;
    while t < lengths.Length && lengths[t] == 0
      invariant top < t <= lengths.Length && forall m :: top < m < t ==> lengths[m] == 0
    {
      t := t + 1;
    }
  }

  /** `while (top >= 0 && lengths[top] == 0) offsets[top--] = -1`: the first non-empty level at or
      below `top`, every empty level passed on the way reset to -1 (which leaves the offsets as they
      were when empty levels already hold -1). */
  method ResetDown(offsets: array<int>, lengths: array<nat>, top: int) returns (t: int)
    requires offsets.Length == lengths.Length && -1 <= top < lengths.Length
    modifies offsets
    ensures -1 <= t <= top && (t == -1 || lengths[t] > 0)
    ensures forall m :: t < m <= top ==> lengths[m] == 0
    ensures forall m :: 0 <= m < offsets.Length ==> offsets[m] == if t < m <= top then -1 else old(offsets[m])
    ensures (forall m :: 0 <= m <= top && lengths[m] == 0 ==> old(offsets[m]) == -1) ==> offsets[..] == old(offsets[..])
  {
    t := top;
    while t >= 0 && lengths[t] == 0
      invariant -1 <= t <= top && forall m :: t < m <= top ==> lengths[m] == 0
      invariant forall m :: 0 <= m < offsets.Length ==> offsets[m] == if t < m <= top then -1 else old(offsets[m])
    {
      offsets[t] := -1;
      t := t - 1;
    }
  }

  /** The invariant of the search loop: the odometer is in a legal state and the rows appended
      so far are the first readings of the enumeration, as many as the state has counted. */
  ghost predicate Searching(L: seq<nat>, o: seq<int>, top: int, rows: seq<seq<int>>, base: seq<seq<int>>)
  {
    && Cursor(L, o, top)
    && 0 <= Count(L, o, top) <= Prod(L)
    && rows == base + Tuples(L)[..Count(L, o, top)]
  }

  lemma SearchStart(L: seq<nat>, o: seq<int>, top: nat, base: seq<seq<int>>)
    requires o == seq(|L|, _ => -1)
    requires top <= |L| && (forall i :: 0 <= i < top ==> L[i] == 0) && (top == |L| || L[top] > 0)
    ensures Searching(L, o, top, base, base)
  {
    CursorStart(L, o, top);
  }

  /** Emitting the ready reading appends the next row of the enumeration. */
  lemma SearchEmit(L: seq<nat>, o: seq<int>, t: int, rows: seq<seq<int>>, base: seq<seq<int>>)
    requires Searching(L, o, |L|, rows, base)
    requires -1 <= t < |L| && (forall i :: t < i < |L| ==> L[i] == 0) && (t == -1 || L[t] > 0)
    ensures Searching(L, o, t, rows + [o], base) && Count(L, o, t) == Count(L, o, |L|) + 1
  {
    CursorReady(L, o);
    TakeSnoc(Tuples(L), Rank(L, o));
    CursorEmit(L, o, t);
  }

  lemma SearchUp(L: seq<nat>, o: seq<int>, level: nat, t: nat, rows: seq<seq<int>>, base: seq<seq<int>>)
    requires Searching(L, o, level, rows, base) && level < |L| && o[level] + 1 < L[level]
    requires level < t <= |L| && (forall i :: level < i < t ==> L[i] == 0) && (t == |L| || L[t] > 0)
    ensures Searching(L, o[level := o[level] + 1], t, rows, base)
    ensures Count(L, o[level := o[level] + 1], t) == Count(L, o, level)
    ensures Phase(L, o[level := o[level] + 1], t) < Phase(L, o, level)
  {
    CursorUp(L, o, level, t);
  }

  lemma SearchDown(L: seq<nat>, o: seq<int>, level: nat, t: int, rows: seq<seq<int>>, base: seq<seq<int>>)
    requires Searching(L, o, level, rows, base) && level < |L| && o[level] + 1 == L[level]
    requires -1 <= t < level && (forall i :: t < i < level ==> L[i] == 0) && (t == -1 || L[t] > 0)
    ensures Searching(L, o[level := -1], t, rows, base)
    ensures Count(L, o[level := -1], t) == Count(L, o, level)
    ensures Phase(L, o[level := -1], t) < Phase(L, o, level)
  {
    CursorDown(L, o, level, t);
  }

  /** When the search falls below level 0, every reading has been appended. */
  lemma SearchDone(L: seq<nat>, o: seq<int>, rows: seq<seq<int>>, base: seq<seq<int>>)
    requires Searching(L, o, -1, rows, base)
    ensures rows == base + Tuples(L)
  {
    assert Tuples(L)[..Prod(L)] == Tuples(L);
  }

  /** The branch of the search loop taken when every level holds an offset: a new record
      is ready, `table.add()` and one `setValue` per key column append it, and `top` falls
      back through the empty levels. */
  method EmitRecord(offsets: array<int>, lengths: array<nat>, data: TableData, ghost L: seq<nat>, ghost base: seq<seq<int>>)
    returns (top: int)
    requires offsets.Length == lengths.Length && lengths[..] == L
    requires Searching(L, offsets[..], offsets.Length, data.rows, base)
    modifies offsets, data
    ensures Searching(L, offsets[..], top, data.rows, base)
    ensures Count(L, offsets[..], top) == Count(L, old(offsets[..]), offsets.Length) + 1
  {
    ghost var o := offsets[..];
    ghost var rows := data.rows;
    assert Cursor(L, o, |L|);
    data.rows := data.rows + [offsets[..]];
    top := ResetDown(offsets, lengths, offsets.Length - 1);
    assert offsets[..] == o;
    SearchEmit(L, o, top, rows, base);
  }

  /** The branch of the search loop that moves the offset at level `top`: the next offset when
      there is one, then up through the empty levels; otherwise the level is reset and `top`
      goes down through the empty levels. */
  method Advance(offsets: array<int>, lengths: array<nat>, top: int, ghost L: seq<nat>, ghost rows: seq<seq<int>>, ghost base: seq<seq<int>>)
    returns (t: int)
    requires offsets.Length == lengths.Length && lengths[..] == L && 0 <= top < offsets.Length
    requires Searching(L, offsets[..], top, rows, base)
    modifies offsets
    ensures Searching(L, offsets[..], t, rows, base)
    ensures Count(L, offsets[..], t) == Count(L, old(offsets[..]), top)
    ensures Phase(L, offsets[..], t) < Phase(L, old(offsets[..]), top)
  {
    ghost var o := offsets[..];
    assert Cursor(L, o, top);
    offsets[top] := offsets[top] + 1;
    if offsets[top] < lengths[top] {
      t := SkipUp(lengths, top);
      SearchUp(L, o, top, t, rows, base);
      assert offsets[..] == o[top := o[top] + 1];
    } else {
      offsets[top] := -1;
      assert offsets[..] == o[top := -1];
      t := ResetDown(offsets, lengths, top - 1);
      assert offsets[..] == o[top := -1];
      SearchDown(L, o, top, t, rows, base);
    }
  }

  /** The search loop of `populate`: starting from all offsets -1, append every reading of the
      odometer over `lengths`, in enumeration order. */
  method Search(offsets: array<int>, lengths: array<nat>, data: TableData)
    requires offsets.Length == lengths.Length && forall m :: 0 <= m < offsets.Length ==> offsets[m] == -1
    modifies offsets, data
    ensures data.rows == old(data.rows) + Tuples(lengths[..])
  {
    ghost var L := lengths[..];
    ghost var base := data.rows;
    var colCount := offsets.Length;
    assert offsets[..] == seq(colCount, _ => -1);

    var top := SkipUp(lengths, -1);
    SearchStart(L, offsets[..], top, base);

    while top >= 0
      invariant lengths[..] == L
      invariant Searching(L, offsets[..], top, data.rows, base)
      decreases Prod(L) - Count(L, offsets[..], top), Phase(L, offsets[..], top)
    {
      if top == colCount {
        top := EmitRecord(offsets, lengths, data, L, base);
      } else {
        top := Advance(offsets, lengths, top, L, data.rows, base);
      }
    }
    SearchDone(L, offsets[..], data.rows, base);
  }

  /** The shift pass of `populate`: for each dimension in turn, add the start of its id range to
      that dimension's value in every record of the table. */
  method ShiftIntoRanges(tables: seq<Table>, cols: seq<Column>, data: TableData)
    requires forall c :: c in cols ==> HasTable(tables, c.output)
    requires Rectangular(data.rows, |cols|)
    modifies data
    ensures data.rows == Shifted(old(data.rows), Starts(tables, cols))
  {
    ghost var S := Starts(tables, cols);
    ghost var rows0 := data.rows;
    PartShiftNone(rows0, S);
    for i := 0 to |cols|
      invariant data.rows == PartShift(rows0, S, i, 0)
    {
      var start := OutputTable(tables, cols[i]).rangeStart;
      ShiftDimension(data, i, start, rows0, S);
    }
  }

  /** The inner loop of the shift pass: `getValue(j) + start` written back for every record `j`
      below the table's length. */
  method ShiftDimension(data: TableData, i: nat, start: int, ghost rows0: seq<seq<int>>, ghost S: seq<int>)
    requires Rectangular(rows0, |S|) && i < |S| && start == S[i]
    requires data.rows == PartShift(rows0, S, i, 0)
    modifies data
    ensures data.rows == PartShift(rows0, S, i + 1, 0)
  {
    var j := 0;
    while j < |data.rows|
      invariant 0 <= j <= |rows0| && data.rows == PartShift(rows0, S, i, j)
    {
      var val := data.rows[j][i];
      PartShiftStep(rows0, S, i, j);
      data.rows := data.rows[j := data.rows[j][i := val + start]];
      j := j + 1;
    }
    PartShiftNext(rows0, S, i);
  }

  //
  // What population produces
  //

  /** A reading moved into the id ranges. */
  function ShiftRow(t: seq<int>, starts: seq<int>): (r: seq<int>)
    requires |t| == |starts|
    ensures |r| == |starts|
  {
    seq(|starts|, i requires 0 <= i < |starts| => t[i] + starts[i])
  }

  /** A record of the product: in a dimension of length 0 the value `start - 1` (the offset -1
      moved), otherwise an id of the dimension's range `[start, start + length)`. */
  predicate InRanges(L: seq<nat>, S: seq<int>, x: seq<int>)
  {
    |x| == |L| == |S| &&
    forall i :: 0 <= i < |L| ==> if L[i] == 0 then x[i] == S[i] - 1 else S[i] <= x[i] < S[i] + L[i]
  }

  lemma ShiftedRow(rows: seq<seq<int>>, starts: seq<int>, j: nat)
    requires Rectangular(rows, |starts|) && j < |rows|
    ensures Shifted(rows, starts)[j] == ShiftRow(rows[j], starts)
  {
  }

  lemma ShiftRowFits(L: seq<nat>, S: seq<int>, t: seq<int>)
    requires |L| == |S| && |t| == |L|
    ensures Fits(L, t) <==> InRanges(L, S, ShiftRow(t, S))
  {
  }

  lemma ShiftedProduct(L: seq<nat>, S: seq<int>, x: seq<int>)
    requires |L| == |S|
    ensures x in Shifted(Tuples(L), S) <==> InRanges(L, S, x)
  {
    TuplesRectangular(L);
    var T := Tuples(L);
    var P := Shifted(T, S);
    if x in P {
      var n :| 0 <= n < |P| && P[n] == x;
      ShiftedRow(T, S, n);
      TuplesFit(L, n);
      ShiftRowFits(L, S, T[n]);
    }
    if InRanges(L, S, x) {
      var t := seq(|L|, i requires 0 <= i < |L| => x[i] - S[i]);
      assert ShiftRow(t, S) == x;
      ShiftRowFits(L, S, t);
      TuplesAreTheReadings(L, t);
      var n :| 0 <= n < |T| && T[n] == t;
      ShiftedRow(T, S, n);
      assert P[n] == x;
    }
  }

  /** Populating an empty table yields exactly one record per combination of the dimensions'
      ids: as many records as the product of the non-zero lengths. */
  lemma PopulatedCount(tables: seq<Table>, columns: seq<Column>, table: TableId)
    requires KeyOutputsExist(tables, columns, table)
    ensures |Populated(tables, columns, table, [])| ==
            Product(Filter(DimLengths(tables, columns, table), (l: nat) => l > 0))
  {
    var L := DimLengths(tables, columns, table);
    TuplesCount(L);
    assert [] + Tuples(L) == Tuples(L);
  }

  /** The records of a populated empty table are exactly the value combinations in range. */
  lemma PopulatedIsTheProduct(tables: seq<Table>, columns: seq<Column>, table: TableId, x: seq<int>)
    requires KeyOutputsExist(tables, columns, table)
    ensures x in Populated(tables, columns, table, []) <==>
            InRanges(DimLengths(tables, columns, table), DimStarts(tables, columns, table), x)
  {
    var L := DimLengths(tables, columns, table);
    assert [] + Tuples(L) == Tuples(L);
    ShiftedProduct(L, DimStarts(tables, columns, table), x);
  }

  /** No record is produced twice, and records come in lexicographic order of their values,
      the last dimension varying fastest. */
  lemma PopulatedOrdered(tables: seq<Table>, columns: seq<Column>, table: TableId)
    requires KeyOutputsExist(tables, columns, table)
    ensures var P := Populated(tables, columns, table, []);
            forall i, j :: 0 <= i < j < |P| ==> LexLess(P[i], P[j]) && P[i] != P[j]
  {
    var L := DimLengths(tables, columns, table);
    var S := DimStarts(tables, columns, table);
    var T := Tuples(L);
    assert [] + T == T;
    TuplesRectangular(L);
    var P := Shifted(T, S);
    forall i, j | 0 <= i < j < |P| ensures LexLess(P[i], P[j]) && P[i] != P[j] {
      TuplesFit(L, i);
      TuplesFit(L, j);
      DecodeOrdered(L, i, j);
      ShiftedRow(T, S, i);
      ShiftedRow(T, S, j);
      ShiftKeepsOrder(T[i], T[j], S);
      LexLessDiffers(P[i], P[j]);
    }
  }

  lemma ShiftKeepsOrder(a: seq<int>, b: seq<int>, S: seq<int>)
    requires |a| == |b| == |S| && LexLess(a, b)
    ensures LexLess(ShiftRow(a, S), ShiftRow(b, S))
  {
    var p :| 0 <= p < |a| && p < |b| && a[..p] == b[..p] && a[p] < b[p];
    var x, y := ShiftRow(a, S), ShiftRow(b, S);
    assert x[..p] == y[..p] by {
      forall i | 0 <= i < p ensures x[i] == y[i] {
        assert a[i] == a[..p][i] == b[..p][i] == b[i];
      }
    }
  }

  /** A record strictly before another differs from it. */
  lemma LexLessDiffers(a: seq<int>, b: seq<int>)
    requires LexLess(a, b)
    ensures a != b
  {
  }

  /** Records already in the table are shifted again by the pass over all rows: each of their
      values gains the start of its dimension's range once more. */
  lemma PopulateShiftsExistingRows(tables: seq<Table>, columns: seq<Column>, table: TableId, rows: seq<seq<int>>, j: nat)
    requires KeyOutputsExist(tables, columns, table)
    requires Rectangular(rows, |KeyColumns(tables, columns, table)|) && j < |rows|
    ensures Populated(tables, columns, table, rows)[j] == ShiftRow(rows[j], DimStarts(tables, columns, table))
  {
    var L := DimLengths(tables, columns, table);
    TuplesRectangular(L);
    RectangularAppend(rows, Tuples(L), |L|);
    ShiftedRow(rows + Tuples(L), DimStarts(tables, columns, table), j);
  }

  /** A table with no dimension gets exactly one record, with no values. */
  lemma NoDimensionsOneRecord(tables: seq<Table>, columns: seq<Column>, table: TableId)
    requires KeyOutputsExist(tables, columns, table)
    requires KeyColumns(tables, columns, table) == []
    ensures Populated(tables, columns, table, []) == [[]]
  {
    var L := DimLengths(tables, columns, table);
    assert L == [];
    NoDimensionsOneRow();
    assert [] + Tuples(L) == Tuples(L);
    ShiftedRow(Tuples(L), DimStarts(tables, columns, table), 0);
  }
}
