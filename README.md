# Bistro schema core in Dafny

A model of the core of Bistro's `Schema` and of its product-table population
strategy `TableDefinitionProd`, with proofs of what they guarantee.

The schema owns the tables and columns. It creates and deletes them, looks
them up by name (ignoring case) or by id, asks every derived column to
translate its formula, and then evaluates the columns layer by layer along
the dependency graph that translation produced. A column is evaluated only
when it is derived, it has no translate error, none of its dependencies has
one, and all its dependencies were done in an earlier layer.

A product table is populated from its key columns, meaning the KEY columns
whose output table is not primitive. Each key column is one dimension, and
its length is the length of its output table. `populate` runs an odometer
over arrays of offsets and lengths and appends one record per combination,
with the last dimension varying fastest. A dimension of length 0 is skipped:
it holds the offset -1 in every record. A second pass then adds the start of
each dimension's id range to that dimension's value, in every record of the
table.

Modules (one per file):

- `Seqs` (`seqs.dfy`): the stream operations the code relies on. `Filter` is `filter(...).collect(toList())`, `FirstIndex` is a sequential `findAny`, `Map` is `map(...)`. Also `Pairwise` and lemmas about these.
- `Elements` (`elements.dfy`): the records of tables and columns with abstract ids, error codes, case-insensitive names, well-formedness of the two lists, and the schema's lookups.
- `Graph` (`graph.dfy`): the layer selectors and the layered traversal of `evaluate()` written as specification functions, with what the traversal guarantees.
- `SchemaModel` (`schema.dfy`): class `Schema` with the fields the source mutates (`tables`, `columns`), plus `nextId` in place of UUIDs and `evaluated`, the observable effect of `Column.evaluate()`.
- `Odometer` (`odometer.dfy`): the enumeration `Tuples(L)` that `populate` performs, specified by mixed-radix decoding, and the search invariant `Cursor`/`Count`/`Phase` of its loop.
- `ProdDefinition` (`prod.dfy`): the key and proj selectors, the dependencies, and `Populate`. `Populate` is written as methods over arrays, as the source is, and is proved against the specification function `Populated`.

The model follows the code, including these behaviours a reader might not expect:

- An empty dimension does not make the product empty. The code skips it, so the row count is the product of the non-zero lengths (`Odometer.EmptyDimensionIsSkipped`, `Odometer.TuplesCount`). No dimensions, or only empty ones, still give exactly one record (of -1 offsets), not zero.
- The shift pass runs over all `getLength()` records of the table, not only the records just written. Records already in the table are shifted again (`ProdDefinition.PopulateShiftsExistingRows`).
- `createColumn` does not check for an existing column of the same name; only `createColumns` does.
- The next-layer test does not require a non-empty dependency list. A present, empty list passes the all-dependencies-done test.

## Model

| member | source | states |
|---|---|---|
| Elements.TableByName | core/src/main/java/org/conceptoriented/bistro/core/Schema.java:34-37 | the index found names the table equal to `name` ignoring case, no earlier table does, and None exactly when no table is so named |
| Elements.TableById | core/src/main/java/org/conceptoriented/bistro/core/Schema.java:38-41 | the index found holds the id; None exactly when no table has it |
| Elements.ColumnsOf | core/src/main/java/org/conceptoriented/bistro/core/Schema.java:74-77 | a column is listed exactly when it is a schema column whose input is the table |
| Elements.ColumnsOfNamed | core/src/main/java/org/conceptoriented/bistro/core/Schema.java:78-81 | a column is listed exactly when its input table exists and has the name ignoring case |
| Elements.ColumnOn | core/src/main/java/org/conceptoriented/bistro/core/Schema.java:82-85 | the index found is a column of the table with the name ignoring case; None exactly when there is none |
| Elements.ColumnByNames | core/src/main/java/org/conceptoriented/bistro/core/Schema.java:86-89 | the index found is a column named so on a table named so; None exactly when there is none |
| Elements.ColumnById | core/src/main/java/org/conceptoriented/bistro/core/Schema.java:90-93 | the index found holds the id; None exactly when no column has it |
| SchemaModel.ColumnsOfNamedIsColumnsOf | core/src/main/java/org/conceptoriented/bistro/core/Schema.java:74-81 | with table names unique ignoring case, the lookup by table name equals the lookup by the table it resolves to, and is empty when the name resolves to nothing |
| SchemaModel.ColumnByNamesIsColumnOn | core/src/main/java/org/conceptoriented/bistro/core/Schema.java:82-89 | with table names unique ignoring case, `getColumn(String, String)` finds the same index as `getColumn(Table, String)` on the resolved table, and nothing when no table has the name |
| SchemaModel.Schema.constructor | core/src/main/java/org/conceptoriented/bistro/core/Schema.java:227-234 | a new schema is well formed and holds exactly the primitive tables Double and String and no column |
| SchemaModel.Schema.CreateTable | core/src/main/java/org/conceptoriented/bistro/core/Schema.java:43-50 | returns the existing table whose name matches ignoring case and changes nothing; otherwise appends exactly one new table with a fresh id; the schema stays well formed |
| SchemaModel.Schema.DeleteTable | core/src/main/java/org/conceptoriented/bistro/core/Schema.java:51-64 | removes exactly the columns with the table as input or output and the table itself, keeping the order of the rest; an unknown id changes nothing |
| SchemaModel.Schema.CreateColumn | core/src/main/java/org/conceptoriented/bistro/core/Schema.java:95-99 | appends exactly one new stored column with a fresh id on the resolved input and output tables; tables unchanged |
| SchemaModel.Schema.CreateColumns | core/src/main/java/org/conceptoriented/bistro/core/Schema.java:100-112 | creates a column exactly for each name that neither the input table nor an earlier name of the call has, ignoring case (`FirstRequest`); the columns come in the order of their names, with consecutive fresh ids, each a stored column on the input table with the output given for its name; returns exactly the columns appended; afterwards every name exists on the input table; an output is demanded only for the names that get a column |
| SchemaModel.Schema.CreateNext | core/src/main/java/org/conceptoriented/bistro/core/Schema.java:104-108 | one round of the loop keeps its invariant: a column is appended for name `i` exactly when the name is missing, and otherwise nothing changes |
| SchemaModel.FirstRequestDecides | core/src/main/java/org/conceptoriented/bistro/core/Schema.java:104-105 | during the loop, `getColumn(input, names[i])` finds nothing exactly when name `i` is a first request with respect to the columns the call started from |
| SchemaModel.Schema.DeleteColumn | core/src/main/java/org/conceptoriented/bistro/core/Schema.java:113-116 | removes the first column with the id and nothing else; an unknown id changes nothing |
| SchemaModel.Schema.Translate | core/src/main/java/org/conceptoriented/bistro/core/Schema.java:126-132 | every derived column gets the dependencies and error its formula compiles to; every other column and all tables stay as they were |
| SchemaModel.Schema.GetNextColumns | core/src/main/java/org/conceptoriented/bistro/core/Schema.java:177-192 | the loop returns exactly the selection `Graph.NextColumns` |
| SchemaModel.Schema.GetNextColumnsEvaluatable | core/src/main/java/org/conceptoriented/bistro/core/Schema.java:193-216 | the loop, with its error tests and `findAny` on the dependencies, returns exactly the selection `Graph.NextColumnsEvaluatable` |
| SchemaModel.Schema.EvaluateLayer | core/src/main/java/org/conceptoriented/bistro/core/Schema.java:151-159 | within one layer, exactly the derived columns without translate error are evaluated, in layer order |
| SchemaModel.Schema.Evaluate | core/src/main/java/org/conceptoriented/bistro/core/Schema.java:147-163 | the columns evaluated are exactly `Graph.Evaluation(columns)`, in that order |
| Graph.StartingColumns | core/src/main/java/org/conceptoriented/bistro/core/Schema.java:169-172 | a column is in layer 0 exactly when it is derived with a present, empty dependency list |
| Graph.NextColumns | core/src/main/java/org/conceptoriented/bistro/core/Schema.java:177-192 | a column is selected exactly when it is not in the list, its dependency list is present and all of it is in the list |
| Graph.NextColumnsEvaluatable | core/src/main/java/org/conceptoriented/bistro/core/Schema.java:193-216 | a column is selected exactly when it is not done, has no translate error, its dependency list is present, and every dependency is done and has no translate error |
| Graph.NextDependencies | core/src/main/java/org/conceptoriented/bistro/core/Schema.java:173-176 | a column is selected exactly when its dependency list contains the column |
| Graph.EvaluatableWithinNext | core/src/main/java/org/conceptoriented/bistro/core/Schema.java:177-216 | every column the evaluatable selection admits is also admitted by the plain next-layer selection |
| Graph.EvaluatedOnlyClean | core/src/main/java/org/conceptoriented/bistro/core/Schema.java:150-159 | every id the traversal evaluates belongs to a derived column of the schema without translate error |
| Graph.EvaluationHasNoRepeats | core/src/main/java/org/conceptoriented/bistro/core/Schema.java:147-163 | with unique ids, one call of `evaluate()` evaluates each column at most once and adds it to `done` at most once |
| Graph.DoneIsLayered | core/src/main/java/org/conceptoriented/bistro/core/Schema.java:150-161 | every entry of `done` is a starting column or was admitted after all its dependencies were done, none with a translate error |
| Graph.ErrorContained | core/src/main/java/org/conceptoriented/bistro/core/Schema.java:200-210 | a column that reaches a column with a translate error through dependencies is neither done nor evaluated |
| Graph.CycleNeverEvaluated | core/src/main/java/org/conceptoriented/bistro/core/Schema.java:193-216 | no column on a dependency cycle is done or evaluated |
| Graph.EvaluationRoundsBound | core/src/main/java/org/conceptoriented/bistro/core/Schema.java:150 | the outer loop of `evaluate()` runs at most once per column |
| Graph.EvaluationSaturates | core/src/main/java/org/conceptoriented/bistro/core/Schema.java:150 | when the traversal stops, no further column is admissible; an empty starting layer evaluates nothing |
| Odometer.TuplesCount | core/src/main/java/org/conceptoriented/bistro/core/TableDefinitionProd.java:60-97 | the search produces as many rows as the product of the non-zero lengths |
| Odometer.TuplesAreTheReadings | core/src/main/java/org/conceptoriented/bistro/core/TableDefinitionProd.java:65-97 | a tuple is produced exactly when each empty dimension holds -1 and each other one an offset below its length |
| Odometer.TuplesDistinct | core/src/main/java/org/conceptoriented/bistro/core/TableDefinitionProd.java:65-97 | no tuple is produced twice |
| Odometer.TuplesOrdered | core/src/main/java/org/conceptoriented/bistro/core/TableDefinitionProd.java:65-97 | tuples come in strictly increasing lexicographic order, the last dimension fastest |
| Odometer.TuplesOffsets | core/src/main/java/org/conceptoriented/bistro/core/TableDefinitionProd.java:84-94 | in every tuple an empty dimension holds -1 and any other an offset in `[0, length)` |
| Odometer.NoDimensionsOneRow | core/src/main/java/org/conceptoriented/bistro/core/TableDefinitionProd.java:60-73 | with no dimension, exactly one empty tuple is produced |
| Odometer.AllEmptyOneRow | core/src/main/java/org/conceptoriented/bistro/core/TableDefinitionProd.java:60-79 | with only empty dimensions, exactly one tuple of -1s is produced |
| Odometer.TwoByThree | core/src/main/java/org/conceptoriented/bistro/core/TableDefinitionProd.java:60-97 | lengths 2 and 3 give the six pairs in odometer order |
| Odometer.EmptyDimensionIsSkipped | core/src/main/java/org/conceptoriented/bistro/core/TableDefinitionProd.java:86-94 | lengths 2 and 0 give two rows with -1 in the empty dimension, not zero rows |
| Odometer.CursorStart | core/src/main/java/org/conceptoriented/bistro/core/TableDefinitionProd.java:54-61 | all offsets -1 and `top` on the first non-empty level is a legal search state that has emitted nothing |
| Odometer.CursorReady | core/src/main/java/org/conceptoriented/bistro/core/TableDefinitionProd.java:67-73 | when `top` reaches the dimension count, the offsets are the next tuple of the enumeration |
| Odometer.CursorEmit | core/src/main/java/org/conceptoriented/bistro/core/TableDefinitionProd.java:67-79 | after a record is emitted and `top` falls through empty levels, the state is legal and has counted one more row |
| Odometer.CursorUp | core/src/main/java/org/conceptoriented/bistro/core/TableDefinitionProd.java:84-90 | choosing the next offset and climbing past empty levels keeps the state legal and the count, and decreases the phase |
| Odometer.CursorDown | core/src/main/java/org/conceptoriented/bistro/core/TableDefinitionProd.java:91-95 | resetting an exhausted level and going down past empty levels keeps the state legal and the count, and decreases the phase |
| ProdDefinition.KeyColumns | core/src/main/java/org/conceptoriented/bistro/core/TableDefinitionProd.java:118-126 | a column is a key column exactly when it is a KEY column of the table whose output is not primitive |
| ProdDefinition.KeyColumnsCount | core/src/main/java/org/conceptoriented/bistro/core/TableDefinitionProd.java:118-126 | each key column is listed as often as the schema holds it, and nothing else is listed |
| ProdDefinition.GetKeyColumns | core/src/main/java/org/conceptoriented/bistro/core/TableDefinitionProd.java:118-126 | the loop with its two `continue` tests returns exactly `KeyColumns` |
| ProdDefinition.ProjColumns | core/src/main/java/org/conceptoriented/bistro/core/TableDefinitionProd.java:128-136 | a column is listed exactly when it is a PROJ column of the schema whose output is the table |
| ProdDefinition.ProjColumnsCount | core/src/main/java/org/conceptoriented/bistro/core/TableDefinitionProd.java:128-136 | each incoming PROJ column is listed as often as the schema holds it, and nothing else is listed |
| ProdDefinition.GetProjColumns | core/src/main/java/org/conceptoriented/bistro/core/TableDefinitionProd.java:128-136 | the loop with its two `continue` tests returns exactly `ProjColumns` |
| ProdDefinition.Dependencies | core/src/main/java/org/conceptoriented/bistro/core/TableDefinitionProd.java:19-36 | one entry per key column, plus two per incoming PROJ column |
| ProdDefinition.DependenciesAreTheSources | core/src/main/java/org/conceptoriented/bistro/core/TableDefinitionProd.java:19-36 | an element is a dependency exactly when it is the output table of a key column, an incoming PROJ column, or the input table of one |
| ProdDefinition.Populate | core/src/main/java/org/conceptoriented/bistro/core/TableDefinitionProd.java:38-116 | the table's records become its old records plus one record per tuple of the enumeration, every record then shifted into the dimensions' id ranges |
| ProdDefinition.NewOffsets | core/src/main/java/org/conceptoriented/bistro/core/TableDefinitionProd.java:54-55 | a fresh array with one -1 per dimension |
| ProdDefinition.ReadLengths | core/src/main/java/org/conceptoriented/bistro/core/TableDefinitionProd.java:57-58 | a fresh array holding the length of each dimension's output table |
| ProdDefinition.SkipUp | core/src/main/java/org/conceptoriented/bistro/core/TableDefinitionProd.java:88-89 | the first level above `top` that is non-empty, or the dimension count; every level passed is empty |
| ProdDefinition.ResetDown | core/src/main/java/org/conceptoriented/bistro/core/TableDefinitionProd.java:78-79 | the first non-empty level at or below `top`, or -1; every level passed is empty and set to -1; nothing else changes |
| ProdDefinition.Search | core/src/main/java/org/conceptoriented/bistro/core/TableDefinitionProd.java:60-97 | the search loop appends exactly the enumeration of the lengths, in order, and terminates |
| ProdDefinition.EmitRecord | core/src/main/java/org/conceptoriented/bistro/core/TableDefinitionProd.java:67-80 | appends the current offsets as a record, keeps the search invariant, and counts one more row |
| ProdDefinition.Advance | core/src/main/java/org/conceptoriented/bistro/core/TableDefinitionProd.java:81-96 | moves the level's offset forward or resets it, keeps the search invariant and the count, and decreases the phase |
| ProdDefinition.ShiftIntoRanges | core/src/main/java/org/conceptoriented/bistro/core/TableDefinitionProd.java:100-108 | every record's value in each dimension gains that dimension's range start, and nothing else changes |
| ProdDefinition.ShiftDimension | core/src/main/java/org/conceptoriented/bistro/core/TableDefinitionProd.java:104-107 | one more dimension shifted in every record |
| ProdDefinition.PopulatedCount | core/src/main/java/org/conceptoriented/bistro/core/TableDefinitionProd.java:38-116 | populating an empty table yields as many records as the product of the non-zero dimension lengths |
| ProdDefinition.PopulatedIsTheProduct | core/src/main/java/org/conceptoriented/bistro/core/TableDefinitionProd.java:38-116 | a record is produced exactly when each value lies in its dimension's id range, or is the range start minus one for an empty dimension |
| ProdDefinition.PopulatedOrdered | core/src/main/java/org/conceptoriented/bistro/core/TableDefinitionProd.java:38-116 | the records are distinct and in strictly increasing lexicographic order |
| ProdDefinition.NoDimensionsOneRecord | core/src/main/java/org/conceptoriented/bistro/core/TableDefinitionProd.java:60-73 | a table without dimensions gets exactly one empty record |
| ProdDefinition.PopulateShiftsExistingRows | core/src/main/java/org/conceptoriented/bistro/core/TableDefinitionProd.java:104-107 | a record already in the table before population has each value shifted by its dimension's range start once more |

## Left out

- UUID ids become natural numbers drawn from one counter shared by tables and columns. `getId`, `getName`, `setName`, `getTables`, `getColumns()` and `toString` are plain accessors and are not modelled.
- `Column.java` and `Table.java` are not part of this model. `Column.translate()` is the parameter `compile` of `Translate`. `Column.evaluate()` is recorded as its id appended to `evaluated`; the values it computes are not modelled. `isStartingColumn` is taken as derived with an empty dependency list, and `Table.isPrimitive` as the name Double or String ignoring case.
- `table.getColumns()` of `Table.java` is taken to be the schema's columns whose input is the table, in schema order. This fixes the order of the dimensions, and so the record order that `ProdDefinition.PopulatedOrdered` states.
- A new table is taken to have length 0 and id range start 0, and to be primitive exactly when its name is Double or String ignoring case.
- A new column is taken to be a stored column of kind NOOP, with no dependency list and no translate error.
- Case-insensitive comparison folds ASCII letters only; Java's full Unicode case folding is not modelled.
- SchemaModel.Schema.CreateColumn requires both table names to resolve. The source would store a column with a null table, on which later lookups fail.
- EVALUATE errors and the `getErrors()` list of the definition are not modelled; the source never sets either on these paths.
- The `TableDefinition` interface and the `TableDefinitionProd` constructor are left out. The constructor only stores the table, which the model passes as a parameter.
- The commented-out initialisation and finalisation of column data in `populate` are not modelled. Neither is the unused `starts` array.
- ProdDefinition.Populate: offsets and shifted values are unbounded integers; `long` overflow of the values and of the row count is not modelled.
- ProdDefinition.Populate: a record is appended whole, as one row of key values, instead of `table.add()` followed by one `setValue` per key column. Record ids are positions in the table, as if the populated table's own id range started at 0 (the Java code mixes the id returned by `add()` with 0-based positions in the shift pass).
- ProdDefinition.Populate requires every existing record to hold one value per key column, and every KEY column of the table to have an output table. The source would fail on a null value or a null output table.
- ProdDefinition.KeyColumns and ProdDefinition.Dependencies require every KEY column of the table to have an output table (`KeyOutputsExist`); the source would fail on a null output table there too.
- Concurrency is not modelled: every operation runs to completion on one thread.
