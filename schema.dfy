/** The schema: the owner of all tables and columns. It keeps the two lists
    (create, delete and look up by name or id), asks every derived column
    to translate its formula, and evaluates columns layer by layer along
    the dependency graph (see module Graph for the traversal's guarantees). */
module SchemaModel {
  import opened Seqs
  import opened Elements
  import opened Graph

  /** What `Column.translate()` produces for one column: its dependency list and its translate error. */
  datatype Translation = Translation(deps: Option<seq<ColId>>, error: Option<ErrorCode>)

  /** The column after its translate call: dependency list and error replaced, nothing else. */
  function Translated(c: Column, t: Translation): (r: Column)
    ensures r.id == c.id && r.name == c.name && r.input == c.input && r.output == c.output
    ensures r.derived == c.derived && r.kind == c.kind
    ensures r.deps == t.deps && r.translateError == t.error
  {
    c.(deps := t.deps, translateError := t.error)
  }

  /** The id of the table a name resolves to. */
  function Resolve(tables: seq<Table>, name: string): TableId
    requires TableByName(tables, name).Some?
  {
    tables[TableByName(tables, name).value].id
  }

  /** With distinct table ids, the id of a table leads back to that table. */
  lemma TableByIdFindsIt(tables: seq<Table>, k: nat, nextId: nat)
    requires TablesValid(tables, nextId) && k < |tables|
    ensures TableById(tables, tables[k].id) == Some(k)
  {
    var i := TableById(tables, tables[k].id).value;
    assert !(i < k) && !(k < i);
  }

  lemma ResolveHasTable(tables: seq<Table>, name: string)
    requires TableByName(tables, name).Some?
    ensures HasTable(tables, Resolve(tables, name))
  {
    assert tables[TableByName(tables, name).value] in tables;
  }

  //
  // How each list update keeps the schema well formed
  //

  lemma AppendTableValid(tables: seq<Table>, columns: seq<Column>, nextId: nat, t: Table)
    requires TablesValid(tables, nextId) && ColumnsValid(columns, tables, nextId)
    requires t.id == nextId && forall x :: x in tables ==> !EqualsIgnoreCase(x.name, t.name)
    ensures TablesValid(tables + [t], nextId + 1) && ColumnsValid(columns, tables + [t], nextId + 1)
  {
    forall c | c in columns ensures HasTable(tables + [t], c.input) && HasTable(tables + [t], c.output) {
      var a :| a in tables && a.id == c.input;
      var b :| b in tables && b.id == c.output;
      assert a in tables + [t] && b in tables + [t];
    }
    var ts := tables + [t];
    forall i, j | 0 <= i < j < |ts| ensures ts[i].id != ts[j].id && !EqualsIgnoreCase(ts[i].name, ts[j].name) {
      if j == |tables| {
        assert ts[i] in tables;
      } else {
        assert ts[i] == tables[i] && ts[j] == tables[j];
      }
    }
  }

  lemma AppendColumnValid(columns: seq<Column>, tables: seq<Table>, nextId: nat, c: Column)
    requires TablesValid(tables, nextId) && ColumnsValid(columns, tables, nextId)
    requires c.id == nextId && HasTable(tables, c.input) && HasTable(tables, c.output)
    ensures TablesValid(tables, nextId + 1) && ColumnsValid(columns + [c], tables, nextId + 1)
  {
    var cs := columns + [c];
    forall i, j | 0 <= i < j < |cs| ensures cs[i].id != cs[j].id {
      if j == |columns| {
        assert cs[i] in columns;
      } else {
        assert cs[i] == columns[i] && cs[j] == columns[j];
      }
    }
  }

  /** The lists `deleteTable(id)` leaves behind are well formed. */
  lemma DetachValid(tables: seq<Table>, columns: seq<Column>, nextId: nat, id: TableId)
    requires TablesValid(tables, nextId) && ColumnsValid(columns, tables, nextId)
    ensures TablesValid(Filter(tables, (t: Table) => t.id != id), nextId)
    ensures ColumnsValid(Filter(columns, (c: Column) => c.input != id && c.output != id),
                         Filter(tables, (t: Table) => t.id != id), nextId)
  {
    var ts := Filter(tables, (t: Table) => t.id != id);
    var cs := Filter(columns, (c: Column) => c.input != id && c.output != id);
    FilterPairwise(tables, (t: Table) => t.id != id,
                   (a: Table, b: Table) => a.id != b.id && !EqualsIgnoreCase(a.name, b.name));
    FilterPairwise(columns, (c: Column) => c.input != id && c.output != id,
                   (a: Column, b: Column) => a.id != b.id);
    forall c | c in cs ensures HasTable(ts, c.input) && HasTable(ts, c.output) {
      var a :| a in tables && a.id == c.input;
      var b :| b in tables && b.id == c.output;
      assert a in ts && b in ts;
    }
  }

  /** The two column passes of `deleteTable(id)` are one filter; with no such table, nothing is removed. */
  lemma DetachFilters(tables: seq<Table>, columns: seq<Column>, nextId: nat, id: TableId)
    requires ColumnsValid(columns, tables, nextId)
    ensures Filter(Filter(columns, (c: Column) => c.input != id), (c: Column) => c.output != id)
            == Filter(columns, (c: Column) => c.input != id && c.output != id)
    ensures !HasTable(tables, id) ==> Filter(tables, (t: Table) => t.id != id) == tables
    ensures !HasTable(tables, id) ==> Filter(columns, (c: Column) => c.input != id && c.output != id) == columns
  {
    FilterTwice(columns, (c: Column) => c.input != id, (c: Column) => c.output != id,
                (c: Column) => c.input != id && c.output != id);
    if !HasTable(tables, id) {
      FilterKeepsAll(tables, (t: Table) => t.id != id);
      FilterKeepsAll(columns, (c: Column) => c.input != id && c.output != id);
    }
  }

  /** Removing the element at index `i` keeps the ids distinct. */
  lemma RemoveKeepsDistinct(columns: seq<Column>, i: nat)
    requires Pairwise(columns, (a: Column, b: Column) => a.id != b.id) && i < |columns|
    ensures Pairwise(columns[..i] + columns[i + 1..], (a: Column, b: Column) => a.id != b.id)
  {
    var rest := columns[..i] + columns[i + 1..];
    forall k, m | 0 <= k < m < |rest| ensures rest[k].id != rest[m].id {
      var k' := if k < i then k else k + 1;
      var m' := if m < i then m else m + 1;
      assert rest[k] == columns[k'] && rest[m] == columns[m'];
    }
  }

  /** With distinct ids, removing the element at index `i` removes exactly the column with that id. */
  lemma RemoveMembers(columns: seq<Column>, i: nat)
    requires Pairwise(columns, (a: Column, b: Column) => a.id != b.id) && i < |columns|
    ensures forall c :: c in columns[..i] + columns[i + 1..] <==> c in columns && c.id != columns[i].id
  {
    var rest := columns[..i] + columns[i + 1..];
    forall c | c in rest ensures c in columns && c.id != columns[i].id {
      var k :| 0 <= k < |rest| && rest[k] == c;
      var k' := if k < i then k else k + 1;
      assert columns[k'] == c;
    }
    forall c | c in columns && c.id != columns[i].id ensures c in rest {
      var k :| 0 <= k < |columns| && columns[k] == c;
      if k < i { assert rest[k] == c; } else { assert rest[k - 1] == c; }
    }
  }

  lemma RemoveColumnValid(columns: seq<Column>, tables: seq<Table>, nextId: nat, i: nat)
    requires TablesValid(tables, nextId) && ColumnsValid(columns, tables, nextId) && i < |columns|
    ensures ColumnsValid(columns[..i] + columns[i + 1..], tables, nextId)
    ensures forall c :: c in columns[..i] + columns[i + 1..] <==> c in columns && c.id != columns[i].id
  {
    RemoveKeepsDistinct(columns, i);
    RemoveMembers(columns, i);
  }

  /** A column appended to a list keeps every name already present there, and adds its own. */
  lemma AppendKeepsPresent(tables: seq<Table>, columns: seq<Column>, c: Column, input: string, n: string)
    requires ColumnByNames(tables, columns, input, n).Some? || Named(tables, c, input, n)
    ensures ColumnByNames(tables, columns + [c], input, n).Some?
  {
    if ColumnByNames(tables, columns, input, n).Some? {
      assert columns[ColumnByNames(tables, columns, input, n).value] in columns + [c];
    } else {
      assert (columns + [c])[|columns|] == c;
    }
  }

  /** With distinct table ids, a column on the table that `input` resolves to answers to `input`. */
  lemma ResolvedIsNamed(tables: seq<Table>, nextId: nat, input: string, c: Column)
    requires TablesValid(tables, nextId) && TableByName(tables, input).Some?
    requires c.input == Resolve(tables, input)
    ensures Named(tables, c, input, c.name)
  {
    TableByIdFindsIt(tables, TableByName(tables, input).value, nextId);
  }

  lemma EqualsIgnoreCaseLinks(a: string, b: string, c: string)
    requires EqualsIgnoreCase(a, c) && EqualsIgnoreCase(b, c)
    ensures EqualsIgnoreCase(a, b) && EqualsIgnoreCase(b, a)
  {
  }

  /** With names unique up to case, a column's input table is named `table` exactly when `table`
      names a table and that table is the column's input. */
  lemma InputNamedIsResolved(tables: seq<Table>, nextId: nat, table: string, c: Column)
    requires TablesValid(tables, nextId)
    ensures InputNamed(tables, c, table) <==> TableByName(tables, table).Some? && c.input == Resolve(tables, table)
  {
    if InputNamed(tables, c, table) {
      var i := TableById(tables, c.input).value;
      assert tables[i] in tables;
      var j := TableByName(tables, table).value;
      EqualsIgnoreCaseLinks(tables[i].name, tables[j].name, table);
      assert !(i < j) && !(j < i);
    }
    if TableByName(tables, table).Some? && c.input == Resolve(tables, table) {
      ResolvedIsNamed(tables, nextId, table, c);
    }
  }

  /** `getColumns(tableName)` is `getColumns(table)` for the table the name resolves to, and empty
      when no table has that name. */
  lemma ColumnsOfNamedIsColumnsOf(tables: seq<Table>, nextId: nat, columns: seq<Column>, table: string)
    requires TablesValid(tables, nextId)
    ensures ColumnsOfNamed(tables, columns, table) ==
            if TableByName(tables, table).None? then [] else ColumnsOf(columns, Resolve(tables, table))
  {
    forall c | c in columns
      ensures InputNamed(tables, c, table) <==> TableByName(tables, table).Some? && c.input == Resolve(tables, table)
    {
      InputNamedIsResolved(tables, nextId, table, c);
    }
    if TableByName(tables, table).Some? {
      var id := Resolve(tables, table);
      FilterSame(columns, (c: Column) => InputNamed(tables, c, table), (c: Column) => c.input == id);
    } else {
      FilterNone(columns, (c: Column) => InputNamed(tables, c, table));
    }
  }

  /** `getColumn(tableName, column)` finds the same column as `getColumn(table, column)` for the table
      the name resolves to, and nothing when no table has that name. */
  lemma ColumnByNamesIsColumnOn(tables: seq<Table>, nextId: nat, columns: seq<Column>, table: string, column: string)
    requires TablesValid(tables, nextId)
    ensures ColumnByNames(tables, columns, table, column) ==
            if TableByName(tables, table).None? then None else ColumnOn(columns, Resolve(tables, table), column)
  {
    forall c | c in columns
      ensures InputNamed(tables, c, table) <==> TableByName(tables, table).Some? && c.input == Resolve(tables, table)
    {
      InputNamedIsResolved(tables, nextId, table, c);
    }
    if TableByName(tables, table).Some? {
      var id := Resolve(tables, table);
      FirstIndexSame(columns, (c: Column) => Named(tables, c, table, column),
                     (c: Column) => c.input == id && EqualsIgnoreCase(c.name, column));
    }
  }

  /** One more column of a layer processed: its id is appended exactly when it is clean. */
  lemma EvaluatedInStep(layer: seq<Column>, i: nat)
    requires i < |layer|
    ensures EvaluatedIn(layer[..i + 1]) == EvaluatedIn(layer[..i]) + (if Clean(layer[i]) then [layer[i].id] else [])
  {
    assert layer[..i + 1][..i] == layer[..i];
  }

  /** One round of the traversal: the layer's clean columns, then the rest of the walk from the grown `done`. */
  lemma EvaluationOrderStep(columns: seq<Column>, done: seq<ColId>, layer: seq<Column>)
    requires LayerFresh(columns, done, layer) && |layer| > 0
    ensures LayerFresh(columns, done + Ids(layer), NextColumnsEvaluatable(columns, done + Ids(layer)))
    ensures EvaluationOrder(columns, done, layer) ==
            EvaluatedIn(layer) + EvaluationOrder(columns, done + Ids(layer), NextColumnsEvaluatable(columns, done + Ids(layer)))
  {
  }

  //
  // What `createColumns` has achieved after looking at the first `i` names
  //

  /** Each of the first `i` names is present on the input table. */
  ghost predicate NamesPresent(tables: seq<Table>, cs: seq<Column>, input: string, names: seq<string>, i: nat)
  {
    i <= |names| && forall k :: 0 <= k < i ==> ColumnByNames(tables, cs, input, names[k]).Some?
  }

  /** Each created column's name was absent from the input table when it was created. */
  ghost predicate AbsentWhenCreated(tables: seq<Table>, base: seq<Column>, cols: seq<Column>, input: string)
  {
    forall j :: 0 <= j < |cols| ==> ColumnByNames(tables, base + cols[..j], input, cols[j].name).None?
  }

  /** Name `i` of a `createColumns` call asks for a new column: neither a column of the input table in
      `columns` nor an earlier name of the call matches it, ignoring case. */
  predicate FirstRequest(tables: seq<Table>, columns: seq<Column>, input: string, names: seq<string>, i: nat)
    requires i < |names|
  {
    && ColumnByNames(tables, columns, input, names[i]).None?
    && forall k :: 0 <= k < i ==> !EqualsIgnoreCase(names[k], names[i])
  }

  /** The columns created for the first `i` names, starting from `base` and the id `id0`: one for each
      first request, in the order of the names, each a new stored column with the next id on the input
      table and the output table requested with its name. */
  ghost predicate CreatedFrom(tables: seq<Table>, base: seq<Column>, id0: nat, cols: seq<Column>, origin: seq<nat>,
                              input: string, names: seq<string>, outputs: seq<string>, i: nat)
  {
    && TableByName(tables, input).Some? && |origin| == |cols| && i <= |names|
    && (forall j, k :: 0 <= j < k < |origin| ==> origin[j] < origin[k])
    && (forall k :: 0 <= k < i ==> (k in origin <==> FirstRequest(tables, base, input, names, k)))
    && forall j :: 0 <= j < |cols| ==>
         && origin[j] < i && origin[j] < |outputs| && TableByName(tables, outputs[origin[j]]).Some?
         && cols[j] == Column(id0 + j, names[origin[j]], Resolve(tables, input), Resolve(tables, outputs[origin[j]]),
                              false, Noop, None, None)
  }

  lemma NamesPresentSkip(tables: seq<Table>, cs: seq<Column>, input: string, names: seq<string>, i: nat)
    requires NamesPresent(tables, cs, input, names, i) && i < |names|
    requires ColumnByNames(tables, cs, input, names[i]).Some?
    ensures NamesPresent(tables, cs, input, names, i + 1)
  {
  }

  lemma NamesPresentCreate(tables: seq<Table>, nextId: nat, cs: seq<Column>, input: string, names: seq<string>, i: nat,
                           col: Column)
    requires NamesPresent(tables, cs, input, names, i) && i < |names|
    requires TablesValid(tables, nextId) && TableByName(tables, input).Some?
    requires col.name == names[i] && col.input == Resolve(tables, input)
    ensures NamesPresent(tables, cs + [col], input, names, i + 1)
  {
    ResolvedIsNamed(tables, nextId, input, col);
    forall k | 0 <= k <= i ensures ColumnByNames(tables, cs + [col], input, names[k]).Some? {
      AppendKeepsPresent(tables, cs, col, input, names[k]);
    }
  }

  lemma AbsentWhenCreatedAppend(tables: seq<Table>, base: seq<Column>, cols: seq<Column>, input: string, col: Column)
    requires AbsentWhenCreated(tables, base, cols, input)
    requires ColumnByNames(tables, base + cols, input, col.name).None?
    ensures AbsentWhenCreated(tables, base, cols + [col], input)
  {
    var cols' := cols + [col];
    forall j | 0 <= j < |cols'| ensures ColumnByNames(tables, base + cols'[..j], input, cols'[j].name).None? {
      if j < |cols| {
        assert cols'[..j] == cols[..j] && cols'[j] == cols[j];
      } else {
        assert cols'[..j] == cols;
      }
    }
  }

  lemma EqualsIgnoreCaseTrans(a: string, b: string, c: string)
    ensures EqualsIgnoreCase(a, b) && EqualsIgnoreCase(b, c) ==> EqualsIgnoreCase(a, c)
  {
  }

  /** While `createColumns` runs, a name is missing from the columns exactly when it is a first request:
      the Java test on the current columns and `FirstRequest` on the columns it started from agree. */
  lemma FirstRequestDecides(tables: seq<Table>, nextId: nat, base: seq<Column>, id0: nat, cols: seq<Column>,
                            origin: seq<nat>, input: string, names: seq<string>, outputs: seq<string>, i: nat)
    requires TablesValid(tables, nextId) && i < |names|
    requires NamesPresent(tables, base + cols, input, names, i)
    requires CreatedFrom(tables, base, id0, cols, origin, input, names, outputs, i)
    ensures ColumnByNames(tables, base + cols, input, names[i]).None? <==> FirstRequest(tables, base, input, names, i)
  {
    var n := names[i];
    if ColumnByNames(tables, base + cols, input, n).None? {
      forall c | c in base ensures !Named(tables, c, input, n) {
        assert c in base + cols;
      }
      forall k | 0 <= k < i ensures !EqualsIgnoreCase(names[k], n) {
        var c := (base + cols)[ColumnByNames(tables, base + cols, input, names[k]).value];
        assert c in base + cols;
        EqualsIgnoreCaseTrans(c.name, names[k], n);
      }
    }
    if FirstRequest(tables, base, input, names, i) {
      forall c | c in base + cols ensures !Named(tables, c, input, n) {
        if c !in base {
          var j :| 0 <= j < |cols| && cols[j] == c;
          assert origin[j] < i;
        }
      }
    }
  }

  lemma CreatedFromAppend(tables: seq<Table>, base: seq<Column>, id0: nat, cols: seq<Column>, origin: seq<nat>,
                          input: string, names: seq<string>, outputs: seq<string>, i: nat, col: Column)
    requires CreatedFrom(tables, base, id0, cols, origin, input, names, outputs, i) && i < |names|
    requires FirstRequest(tables, base, input, names, i)
    requires i < |outputs| && TableByName(tables, outputs[i]).Some?
    requires col == Column(id0 + |cols|, names[i], Resolve(tables, input), Resolve(tables, outputs[i]),
                           false, Noop, None, None)
    ensures CreatedFrom(tables, base, id0, cols + [col], origin + [i], input, names, outputs, i + 1)
  {
    var cols', origin' := cols + [col], origin + [i];
    forall k | 0 <= k < i + 1 ensures k in origin' <==> FirstRequest(tables, base, input, names, k) {
      if k < i {
        assert k in origin' <==> k in origin;
      } else {
        assert origin'[|origin|] == k;
      }
    }
    forall j | 0 <= j < |cols'|
      ensures origin'[j] < i + 1 && origin'[j] < |outputs| && TableByName(tables, outputs[origin'[j]]).Some?
      ensures cols'[j] == Column(id0 + j, names[origin'[j]], Resolve(tables, input), Resolve(tables, outputs[origin'[j]]),
                                 false, Noop, None, None)
    {
      if j < |cols| {
        assert cols'[j] == cols[j] && origin'[j] == origin[j];
      }
    }
  }

  lemma CreatedFromSkip(tables: seq<Table>, base: seq<Column>, id0: nat, cols: seq<Column>, origin: seq<nat>,
                        input: string, names: seq<string>, outputs: seq<string>, i: nat)
    requires CreatedFrom(tables, base, id0, cols, origin, input, names, outputs, i) && i < |names|
    requires !FirstRequest(tables, base, input, names, i)
    ensures CreatedFrom(tables, base, id0, cols, origin, input, names, outputs, i + 1)
  {
    assert i !in origin by {
      forall j | 0 <= j < |origin| ensures origin[j] != i {
        assert origin[j] < i;
      }
    }
  }

  /** The column carries one of the requested names, with the output table requested for that name. */
  predicate Requested(tables: seq<Table>, c: Column, names: seq<string>, outputs: seq<string>)
  {
    exists k :: 0 <= k < |names| && k < |outputs| && c.name == names[k]
      && TableByName(tables, outputs[k]).Some? && c.output == Resolve(tables, outputs[k])
  }

  /** What `createColumns` promises once every name has been looked at. */
  lemma CreatedAll(tables: seq<Table>, base: seq<Column>, id0: nat, cols: seq<Column>, origin: seq<nat>,
                   input: string, names: seq<string>, outputs: seq<string>)
    requires CreateProgress(tables, base, id0, cols, origin, input, names, outputs, |names|)
    ensures TableByName(tables, input).Some?
    ensures forall i :: 0 <= i < |names| ==> ColumnByNames(tables, base + cols, input, names[i]).Some?
    ensures forall j :: 0 <= j < |cols| ==> ColumnByNames(tables, base + cols[..j], input, cols[j].name).None?
    ensures forall j :: 0 <= j < |cols| ==> cols[j].input == Resolve(tables, input)
    ensures forall j :: 0 <= j < |cols| ==> Requested(tables, cols[j], names, outputs)
    ensures |origin| == |cols| && forall j, k :: 0 <= j < k < |origin| ==> origin[j] < origin[k]
    ensures forall k :: 0 <= k < |names| ==> (k in origin <==> FirstRequest(tables, base, input, names, k))
    ensures forall j :: 0 <= j < |cols| ==>
              && origin[j] < |names| && origin[j] < |outputs| && TableByName(tables, outputs[origin[j]]).Some?
              && cols[j] == Column(id0 + j, names[origin[j]], Resolve(tables, input),
                                   Resolve(tables, outputs[origin[j]]), false, Noop, None, None)
  {
    forall j | 0 <= j < |cols| ensures Requested(tables, cols[j], names, outputs) {
      var k := origin[j];
      assert k < |names| && k < |outputs| && cols[j].name == names[k];
    }
  }

  /** The whole loop invariant of `createColumns` after `i` names, with `base` the columns it started from. */
  ghost predicate CreateProgress(tables: seq<Table>, base: seq<Column>, id0: nat, cols: seq<Column>, origin: seq<nat>,
                                 input: string, names: seq<string>, outputs: seq<string>, i: nat)
  {
    && NamesPresent(tables, base + cols, input, names, i)
    && AbsentWhenCreated(tables, base, cols, input)
    && CreatedFrom(tables, base, id0, cols, origin, input, names, outputs, i)
  }

  lemma CreateProgressSkip(tables: seq<Table>, nextId: nat, base: seq<Column>, id0: nat, cols: seq<Column>,
                           origin: seq<nat>, input: string, names: seq<string>, outputs: seq<string>, i: nat)
    requires CreateProgress(tables, base, id0, cols, origin, input, names, outputs, i) && i < |names|
    requires TablesValid(tables, nextId) && ColumnByNames(tables, base + cols, input, names[i]).Some?
    ensures CreateProgress(tables, base, id0, cols, origin, input, names, outputs, i + 1)
  {
    FirstRequestDecides(tables, nextId, base, id0, cols, origin, input, names, outputs, i);
    NamesPresentSkip(tables, base + cols, input, names, i);
    CreatedFromSkip(tables, base, id0, cols, origin, input, names, outputs, i);
  }

  lemma CreateProgressCreate(tables: seq<Table>, nextId: nat, base: seq<Column>, id0: nat, cols: seq<Column>,
                             origin: seq<nat>, input: string, names: seq<string>, outputs: seq<string>, i: nat, col: Column)
    requires CreateProgress(tables, base, id0, cols, origin, input, names, outputs, i) && i < |names|
    requires TablesValid(tables, nextId) && i < |outputs| && TableByName(tables, outputs[i]).Some?
    requires ColumnByNames(tables, base + cols, input, names[i]).None?
    requires col == Column(id0 + |cols|, names[i], Resolve(tables, input), Resolve(tables, outputs[i]),
                           false, Noop, None, None)
    ensures (base + cols) + [col] == base + (cols + [col])
    ensures CreateProgress(tables, base, id0, cols + [col], origin + [i], input, names, outputs, i + 1)
  {
    assert (base + cols) + [col] == base + (cols + [col]);
    assert FirstRequest(tables, base, input, names, i) by {
      FirstRequestDecides(tables, nextId, base, id0, cols, origin, input, names, outputs, i);
    }
    assert NamesPresent(tables, base + (cols + [col]), input, names, i + 1) by {
      NamesPresentCreate(tables, nextId, base + cols, input, names, i, col);
    }
    assert AbsentWhenCreated(tables, base, cols + [col], input) by {
      AbsentWhenCreatedAppend(tables, base, cols, input, col);
    }
    assert CreatedFrom(tables, base, id0, cols + [col], origin + [i], input, names, outputs, i + 1) by {
      CreatedFromAppend(tables, base, id0, cols, origin, input, names, outputs, i, col);
    }
  }

  /** The loop invariant of `evaluate()` survives one round: what has been evaluated so far, followed by
      what the rest of the walk evaluates, is always the whole walk. */
  lemma RoundKeepsOrder(columns: seq<Column>, done: seq<ColId>, layer: seq<Column>, sofar: seq<ColId>, total: seq<ColId>)
    requires LayerFresh(columns, done, layer) && |layer| > 0
    requires sofar + EvaluationOrder(columns, done, layer) == total
    ensures LayerFresh(columns, done + Ids(layer), NextColumnsEvaluatable(columns, done + Ids(layer)))
    ensures (sofar + EvaluatedIn(layer))
            + EvaluationOrder(columns, done + Ids(layer), NextColumnsEvaluatable(columns, done + Ids(layer))) == total
  {
    EvaluationOrderStep(columns, done, layer);
    var rest := EvaluationOrder(columns, done + Ids(layer), NextColumnsEvaluatable(columns, done + Ids(layer)));
    assert (sofar + EvaluatedIn(layer)) + rest == sofar + (EvaluatedIn(layer) + rest);
  }

  class Schema {
    var name: string
    var tables: seq<Table>
    var columns: seq<Column>
    /** The next unused identifier; stands in for `UUID.randomUUID()`. */
    var nextId: nat
    /** The observable effect of `Column.evaluate()`: the ids of the evaluated columns, in call order. */
    var evaluated: seq<ColId>

    ghost predicate Valid()
      reads this
    {
      TablesValid(tables, nextId) && ColumnsValid(columns, tables, nextId)
    }

    /** A new schema owns exactly the two primitive tables "Double" and "String", and no column. */
    constructor (schemaName: string)
      ensures Valid()
      ensures name == schemaName && columns == [] && evaluated == []
      ensures |tables| == 2
      ensures tables[0] == Table(0, DoubleName, true, 0, 0)
      ensures tables[1] == Table(1, StringName, true, 0, 0)
    {
      name := schemaName;
      tables := [];
      columns := [];
      nextId := 0;
      evaluated := [];
      new;
      assert Fold(DoubleName[0]) != Fold(StringName[0]);
      var doubleType := CreateTable(DoubleName);
      var stringType := CreateTable(StringName);
    }

    //
    // Tables
    //

    /** `createTable(name)`: the existing table whose name equals `tableName` ignoring case,
        otherwise exactly one new table appended. */
    method CreateTable(tableName: string) returns (t: Table)
      requires Valid()
      modifies this
      ensures Valid()
      ensures columns == old(columns) && evaluated == old(evaluated) && name == old(name)
      ensures old(TableByName(tables, tableName)).Some? ==>
                t == old(tables)[old(TableByName(tables, tableName)).value] &&
                tables == old(tables) && nextId == old(nextId)
      ensures old(TableByName(tables, tableName)).None? ==>
                t == Table(old(nextId), tableName, IsPrimitiveName(tableName), 0, 0) &&
                tables == old(tables) + [t] && nextId == old(nextId) + 1
    {
      var found := TableByName(tables, tableName);
      if found.Some? {
        return tables[found.value];
      }
      t := Table(nextId, tableName, IsPrimitiveName(tableName), 0, 0);
      AppendTableValid(tables, columns, nextId, t);
      tables := tables + [t];
      nextId := nextId + 1;
    }

    /** `deleteTable(id)`: drops the columns whose input is the table, then those whose output is it,
        then the table itself; everything else stays, in order. */
    method DeleteTable(id: TableId)
      requires Valid()
      modifies this
      ensures Valid()
      ensures columns == Filter(old(columns), (c: Column) => c.input != id && c.output != id)
      ensures forall c :: c in columns <==> c in old(columns) && c.input != id && c.output != id
      ensures tables == Filter(old(tables), (t: Table) => t.id != id)
      ensures !HasTable(old(tables), id) ==> tables == old(tables) && columns == old(columns)
      ensures nextId == old(nextId) && evaluated == old(evaluated) && name == old(name)
    {
      DetachValid(tables, columns, nextId, id);
      DetachFilters(tables, columns, nextId, id);
      // Remove input columns, then output columns
      var cs := Filter(columns, (c: Column) => c.input != id);
      cs := Filter(cs, (c: Column) => c.output != id);
      // Remove the table itself
      var ts := Filter(tables, (t: Table) => t.id != id);
      assert cs == Filter(columns, (c: Column) => c.input != id && c.output != id);
      columns, tables := cs, ts;
    }

    //
    // Columns
    //

    /** `createColumn(input, name, output)`: appends a new column, without any duplicate check.
        The new column is stored (not derived) and has no definition, dependencies or error yet. */
    method CreateColumn(input: string, columnName: string, output: string) returns (c: Column)
      requires Valid()
      requires TableByName(tables, input).Some? && TableByName(tables, output).Some?
      modifies this
      ensures Valid()
      ensures tables == old(tables) && evaluated == old(evaluated) && name == old(name)
      ensures c == Column(old(nextId), columnName, Resolve(tables, input), Resolve(tables, output), false, Noop, None, None)
      ensures columns == old(columns) + [c] && nextId == old(nextId) + 1
    {
      c := Column(nextId, columnName, Resolve(tables, input), Resolve(tables, output), false, Noop, None, None);
      ResolveHasTable(tables, input);
      ResolveHasTable(tables, output);
      AppendColumnValid(columns, tables, nextId, c);
      columns, nextId := columns + [c], nextId + 1;
    }

    /** `createColumns(input, names, outputs)`: creates a column for each name not yet present on the
        input table (earlier names of the same call included) and returns exactly the created ones.
        The ghost `origin` gives, for each created column, the index of the name it was created for. */
    method CreateColumns(input: string, names: seq<string>, outputs: seq<string>)
      returns (cols: seq<Column>, ghost origin: seq<nat>)
      requires Valid()
      requires TableByName(tables, input).Some?
      requires forall i :: 0 <= i < |names| && FirstRequest(tables, columns, input, names, i) ==>
                 i < |outputs| && TableByName(tables, outputs[i]).Some?
      modifies this
      ensures Valid()
      ensures columns == old(columns) + cols && nextId == old(nextId) + |cols|
      ensures tables == old(tables) && evaluated == old(evaluated) && name == old(name)
      ensures forall i :: 0 <= i < |names| ==> ColumnByNames(tables, columns, input, names[i]).Some?
      ensures forall j :: 0 <= j < |cols| ==> ColumnByNames(tables, old(columns) + cols[..j], input, cols[j].name).None?
      ensures forall j :: 0 <= j < |cols| ==> cols[j].input == Resolve(tables, input)
      ensures forall j :: 0 <= j < |cols| ==> Requested(tables, cols[j], names, outputs)
      ensures |origin| == |cols| && forall j, k :: 0 <= j < k < |origin| ==> origin[j] < origin[k]
      ensures forall k :: 0 <= k < |names| ==> (k in origin <==> FirstRequest(tables, old(columns), input, names, k))
      ensures forall j :: 0 <= j < |cols| ==>
                && origin[j] < |names| && origin[j] < |outputs| && TableByName(tables, outputs[origin[j]]).Some?
                && cols[j] == Column(old(nextId) + j, names[origin[j]], Resolve(tables, input),
                                     Resolve(tables, outputs[origin[j]]), false, Noop, None, None)
    {
      cols := [];
      origin := [];
      ghost var base := columns;
      ghost var id0 := nextId;
      var i: nat := 0;
      while i < |names|
        invariant Valid() && tables == old(tables) && evaluated == old(evaluated) && name == old(name)
        invariant columns == base + cols && nextId == id0 + |cols|
        invariant CreateProgress(tables, base, id0, cols, origin, input, names, outputs, i)
      {
        cols, origin := CreateNext(input, names, outputs, i, base, id0, cols, origin);
        i := i + 1;
      }
      CreatedAll(tables, base, id0, cols, origin, input, names, outputs);
    }

    /** One round of the loop of `createColumns`: a column is created for name `i` unless the input table
        already has a column of that name. */
    method CreateNext(input: string, names: seq<string>, outputs: seq<string>, i: nat,
                      ghost base: seq<Column>, ghost id0: nat, cols: seq<Column>, ghost origin: seq<nat>)
      returns (cols': seq<Column>, ghost origin': seq<nat>)
      requires Valid() && i < |names| && columns == base + cols && nextId == id0 + |cols|
      requires CreateProgress(tables, base, id0, cols, origin, input, names, outputs, i)
      requires forall k :: 0 <= k < |names| && FirstRequest(tables, base, input, names, k) ==>
                 k < |outputs| && TableByName(tables, outputs[k]).Some?
      modifies this
      ensures Valid() && tables == old(tables) && evaluated == old(evaluated) && name == old(name)
      ensures columns == base + cols' && nextId == id0 + |cols'|
      ensures CreateProgress(tables, base, id0, cols', origin', input, names, outputs, i + 1)
    {
      var found := ColumnByNames(tables, columns, input, names[i]);
      if found.None? {
        FirstRequestDecides(tables, nextId, base, id0, cols, origin, input, names, outputs, i);
        var col := CreateColumn(input, names[i], outputs[i]);
        CreateProgressCreate(tables, nextId, base, id0, cols, origin, input, names, outputs, i, col);
        cols', origin' := cols + [col], origin + [i];
      } else {
        CreateProgressSkip(tables, nextId, base, id0, cols, origin, input, names, outputs, i);
        cols', origin' := cols, origin;
      }
    }

    /** `deleteColumn(id)`: removes the column with this id, if any; nothing else changes. */
    method DeleteColumn(id: ColId)
      requires Valid()
      modifies this
      ensures Valid()
      ensures old(ColumnById(columns, id)).None? ==> columns == old(columns)
      ensures old(ColumnById(columns, id)).Some? ==>
                var i := old(ColumnById(columns, id)).value;
                columns == old(columns)[..i] + old(columns)[i + 1..]
      ensures forall c :: c in columns <==> c in old(columns) && c.id != id
      ensures tables == old(tables) && nextId == old(nextId) && evaluated == old(evaluated) && name == old(name)
    {
      var found := ColumnById(columns, id);
      if found.Some? {
        var i := found.value;
        RemoveColumnValid(columns, tables, nextId, i);
        columns := columns[..i] + columns[i + 1..];
      }
    }

    //
    // Translation
    //

    /** `translate()`: every derived column gets the dependency list and error its formula compiles to
        (`compile` stands in for `Column.translate()`); no other column changes. */
    method Translate(compile: ColId -> Translation)
      requires Valid()
      modifies this
      ensures Valid()
      ensures |columns| == |old(columns)|
      ensures forall i :: 0 <= i < |columns| ==>
                columns[i] == if old(columns)[i].derived then Translated(old(columns)[i], compile(old(columns)[i].id))
                              else old(columns)[i]
      ensures tables == old(tables) && nextId == old(nextId) && evaluated == old(evaluated) && name == old(name)
    {
      var i := 0;
      while i < |columns|
        invariant 0 <= i <= |columns| == |old(columns)|
        invariant tables == old(tables) && nextId == old(nextId) && evaluated == old(evaluated) && name == old(name)
        invariant forall k :: 0 <= k < i ==>
                    columns[k] == if old(columns)[k].derived then Translated(old(columns)[k], compile(old(columns)[k].id))
                                  else old(columns)[k]
        invariant forall k :: i <= k < |columns| ==> columns[k] == old(columns)[k]
      {
        if columns[i].derived {
          columns := columns[i := Translated(columns[i], compile(columns[i].id))];
        }
        i := i + 1;
      }
      forall c | c in columns ensures c.id < nextId && HasTable(tables, c.input) && HasTable(tables, c.output) {
        var k :| 0 <= k < |columns| && columns[k] == c;
        assert old(columns)[k] in old(columns);
      }
    }

    //
    // Evaluation
    //

    /** `Column.evaluate()`, seen from outside: the column is recorded as evaluated. */
    method EvaluateColumn(col: Column)
      modifies this`evaluated
      ensures evaluated == old(evaluated) + [col.id]
    {
      evaluated := evaluated + [col.id];
    }

    /** The inner loop of `evaluate()`: evaluates, in layer order, each derived column without translate error. */
    method EvaluateLayer(cols: seq<Column>)
      modifies this`evaluated
      ensures evaluated == old(evaluated) + EvaluatedIn(cols)
    {
      for i := 0 to |cols|
        invariant evaluated == old(evaluated) + EvaluatedIn(cols[..i])
      {
        var col := cols[i];
        EvaluatedInStep(cols, i);
        if col.derived {
          var de := col.translateError;
          if de.None? || de.value == NoError {
            EvaluateColumn(col);
          }
        }
      }
      assert cols[..|cols|] == cols;
    }

    /** The loop of `getNextColumns(previous)`: over the schema's columns, skipping those already
        in `previous` and those without a dependency list, keeping those whose dependencies are all
        in `previous`. */
    method GetNextColumns(previous: seq<ColId>) returns (r: seq<Column>)
      ensures r == NextColumns(columns, previous)
    {
      var p := (c: Column) => Follows(previous, c);
      r := [];
      for i := 0 to |columns|
        invariant r == Filter(columns[..i], p)
      {
        var col := columns[i];
        TakeSnoc(columns, i);
        FilterSnoc(columns[..i], col, p);
        if col.id in previous {
          continue;
        }
        var deps := col.deps;
        if deps.None? {
          continue;
        }
        if forall d :: d in deps.value ==> d in previous {
          r := r + [col];
        }
      }
      assert columns[..|columns|] == columns;
    }

    /** The loop of `getNextColumnsEvaluatable(previous)`: as `getNextColumns`, but also skipping a
        column with its own translate error and one with a dependency that has a translate error. */
    method GetNextColumnsEvaluatable(previous: seq<ColId>) returns (r: seq<Column>)
      ensures r == NextColumnsEvaluatable(columns, previous)
    {
      var cs := columns;
      var p := (c: Column) => Evaluatable(cs, previous, c);
      r := [];
      for i := 0 to |cs|
        invariant r == Filter(cs[..i], p)
      {
        var col := cs[i];
        TakeSnoc(cs, i);
        FilterSnoc(cs[..i], col, p);
        if col.id in previous {
          continue;
        }
        var deps := col.deps;
        if deps.None? {
          continue;
        }
        if col.translateError.Some? && col.translateError.value != NoError {
          continue;
        }
        var errCol := FirstIndex(deps.value, (d: ColId) => DependsOnError(cs, d));
        if errCol.Some? {
          continue;
        }
        if forall d :: d in deps.value ==> d in previous {
          r := r + [col];
        }
      }
      assert cs[..|cs|] == cs;
    }

    /** `evaluate()`: walks the dependency graph layer by layer from the starting columns, evaluating
        each derived column of a layer that has no translate error and adding the whole layer to `done`. */
    method Evaluate()
      modifies this`evaluated
      ensures evaluated == old(evaluated) + Evaluation(columns)
    {
      var cs := columns;
      var done: seq<ColId> := [];
      var cols := StartingColumns(cs);
      while |cols| > 0
        invariant cs == columns
        invariant LayerFresh(cs, done, cols)
        invariant evaluated + EvaluationOrder(cs, done, cols) == old(evaluated) + Evaluation(cs)
        decreases IdSet(cs) - DoneSet(done)
      {
        LayerShrinksRemaining(cs, done, cols);
        RoundKeepsOrder(cs, done, cols, evaluated, old(evaluated) + Evaluation(cs));
        EvaluateLayer(cols);
        done := done + Ids(cols);
        cols := GetNextColumnsEvaluatable(done);
      }
    }
  }
}
