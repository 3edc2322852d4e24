/** The column dependency graph the schema's `evaluate()` walks: the starting
    layer, the next-layer selectors, and the layered traversal itself as a
    specification (`EvaluationOrder`, `FinalDone`), with what it guarantees:
    only clean derived columns are evaluated, each at most once, only after
    their dependencies, never downstream of a translate error or on a cycle. */
module Graph {
  import opened Seqs
  import opened Elements

  //
  // Layer selectors
  //

  /** A derived column whose dependency list is present and empty. */
  predicate IsStartingColumn(c: Column)
  {
    c.derived && c.deps == Some([])
  }

  /** `getStartingColumns()`: layer 0 of the traversal. */
  function StartingColumns(columns: seq<Column>): (r: seq<Column>)
    ensures forall c :: c in r <==> c in columns && IsStartingColumn(c)
  {
    Filter(columns, IsStartingColumn)
  }

  /** The column with id `d` exists in the schema and carries a translate error. */
  predicate DependsOnError(columns: seq<Column>, d: ColId)
  {
    var i := ColumnById(columns, d);
    i.Some? && HasTranslateError(columns[i.value])
  }

  /** The admission test of `getNextColumnsEvaluatable`. */
  predicate Evaluatable(columns: seq<Column>, done: seq<ColId>, c: Column)
  {
    && c.id !in done
    && c.deps.Some?
    && !HasTranslateError(c)
    && (forall d :: d in c.deps.value ==> !DependsOnError(columns, d))
    && (forall d :: d in c.deps.value ==> d in done)
  }

  /** `getNextColumnsEvaluatable(done)`: columns not yet done, with a dependency list that is all done,
      no own translate error and no dependency with one. */
  function NextColumnsEvaluatable(columns: seq<Column>, done: seq<ColId>): (r: seq<Column>)
    ensures forall c :: c in r ==> c in columns && c.id !in done && c.deps.Some? && !HasTranslateError(c)
    ensures forall c, d :: c in r && d in c.deps.value ==> d in done && !DependsOnError(columns, d)
    ensures forall c :: (c in columns && c.id !in done && c.deps.Some? && !HasTranslateError(c) &&
                         (forall d :: d in c.deps.value ==> d in done && !DependsOnError(columns, d))) ==> c in r
  {
    Filter(columns, (c: Column) => Evaluatable(columns, done, c))
  }

  /** The admission test of `getNextColumns`. */
  predicate Follows(previous: seq<ColId>, c: Column)
  {
    c.id !in previous && c.deps.Some? && forall d :: d in c.deps.value ==> d in previous
  }

  /** `getNextColumns(previous)`: columns not yet in `previous` whose dependency list is present and all in it. */
  function NextColumns(columns: seq<Column>, previous: seq<ColId>): (r: seq<Column>)
    ensures forall c :: c in r <==> c in columns && c.id !in previous && c.deps.Some? &&
                                    forall d :: d in c.deps.value ==> d in previous
  {
    Filter(columns, (c: Column) => Follows(previous, c))
  }

  /** `getNextDependencies(col)`: the columns whose dependency list contains `col`. */
  function NextDependencies(columns: seq<Column>, col: ColId): (r: seq<Column>)
    ensures forall c :: c in r <==> c in columns && c.deps.Some? && col in c.deps.value
  {
    Filter(columns, (c: Column) => c.deps.Some? && col in c.deps.value)
  }

  /** The evaluatable selection is the plain next-layer selection narrowed by the error tests. */
  lemma EvaluatableWithinNext(columns: seq<Column>, done: seq<ColId>)
    ensures forall c :: c in NextColumnsEvaluatable(columns, done) ==> c in NextColumns(columns, done)
  {
  }

  //
  // The layered traversal, as a specification
  //

  function Ids(layer: seq<Column>): (r: seq<ColId>)
    ensures |r| == |layer| && forall i :: 0 <= i < |layer| ==> r[i] == layer[i].id
  {
    seq(|layer|, i requires 0 <= i < |layer| => layer[i].id)
  }

  function IdSet(columns: seq<Column>): set<ColId>
  {
    set c | c in columns :: c.id
  }

  function DoneSet(done: seq<ColId>): set<ColId>
  {
    set d | d in done
  }

  /** A derived column without translate error: the inner loop of `evaluate()` evaluates exactly these. */
  predicate Clean(c: Column)
  {
    c.derived && !HasTranslateError(c)
  }

  /** The ids handed to `Column.evaluate()` while one layer is processed, in layer order. */
  function EvaluatedIn(layer: seq<Column>): (r: seq<ColId>)
    ensures |r| <= |layer|
    ensures forall x :: x in r ==> exists c :: c in layer && c.id == x && Clean(c)
  {
    if |layer| == 0 then []
    else
      var last := layer[|layer| - 1];
      EvaluatedIn(layer[..|layer| - 1]) + (if Clean(last) then [last.id] else [])
  }

  /** A layer the traversal may process next: columns of the schema, none done yet. */
  predicate LayerFresh(columns: seq<Column>, done: seq<ColId>, layer: seq<Column>)
  {
    forall c :: c in layer ==> c in columns && c.id !in done
  }

  lemma LayerShrinksRemaining(columns: seq<Column>, done: seq<ColId>, layer: seq<Column>)
    requires LayerFresh(columns, done, layer) && |layer| > 0
    ensures IdSet(columns) - DoneSet(done + Ids(layer)) < IdSet(columns) - DoneSet(done)
  {
    var x := layer[0].id;
    assert layer[0] in layer;
    assert x in IdSet(columns) - DoneSet(done);
    assert (done + Ids(layer))[|done|] == x;
  }

  /** The ids evaluated from this layer on, given the ids already `done`. */
  function EvaluationOrder(columns: seq<Column>, done: seq<ColId>, layer: seq<Column>): seq<ColId>
    requires LayerFresh(columns, done, layer)
    decreases IdSet(columns) - DoneSet(done)
  {
    if |layer| == 0 then []
    else
      var done' := done + Ids(layer);
      LayerShrinksRemaining(columns, done, layer);
      EvaluatedIn(layer) + EvaluationOrder(columns, done', NextColumnsEvaluatable(columns, done'))
  }

  /** The `done` list once the traversal stops. */
  function FinalDone(columns: seq<Column>, done: seq<ColId>, layer: seq<Column>): seq<ColId>
    requires LayerFresh(columns, done, layer)
    decreases IdSet(columns) - DoneSet(done)
  {
    if |layer| == 0 then done
    else
      var done' := done + Ids(layer);
      LayerShrinksRemaining(columns, done, layer);
      FinalDone(columns, done', NextColumnsEvaluatable(columns, done'))
  }

  /** The number of non-empty layers: how often the body of the outer loop runs. */
  function Rounds(columns: seq<Column>, done: seq<ColId>, layer: seq<Column>): nat
    requires LayerFresh(columns, done, layer)
    decreases IdSet(columns) - DoneSet(done)
  {
    if |layer| == 0 then 0
    else
      var done' := done + Ids(layer);
      LayerShrinksRemaining(columns, done, layer);
      1 + Rounds(columns, done', NextColumnsEvaluatable(columns, done'))
  }

  /** What one call of `evaluate()` evaluates, in order. */
  function Evaluation(columns: seq<Column>): seq<ColId>
  {
    EvaluationOrder(columns, [], StartingColumns(columns))
  }

  /** The `done` list at the end of one call of `evaluate()`. */
  function Done(columns: seq<Column>): seq<ColId>
  {
    FinalDone(columns, [], StartingColumns(columns))
  }

  //
  // What the traversal guarantees
  //

  /** No id occurs twice in the list. */
  predicate Distinct(s: seq<ColId>)
  {
    Pairwise(s, (a: ColId, b: ColId) => a != b)
  }

  /** Only derived columns without a translate error are ever evaluated. */
  lemma {:induction false} EvaluatedOnlyClean(columns: seq<Column>, done: seq<ColId>, layer: seq<Column>)
    requires LayerFresh(columns, done, layer)
    ensures forall x :: x in EvaluationOrder(columns, done, layer) ==>
              exists c :: c in columns && c.id == x && c.derived && !HasTranslateError(c)
    decreases IdSet(columns) - DoneSet(done)
  {
    if |layer| > 0 {
      var done' := done + Ids(layer);
      LayerShrinksRemaining(columns, done, layer);
      EvaluatedOnlyClean(columns, done', NextColumnsEvaluatable(columns, done'));
    }
  }

  lemma {:induction false} EvaluatedInIds(layer: seq<Column>)
    ensures forall x :: x in EvaluatedIn(layer) ==> x in Ids(layer)
  {
    if |layer| > 0 {
      var front := layer[..|layer| - 1];
      EvaluatedInIds(front);
      forall x | x in Ids(front) ensures x in Ids(layer) {
        var k :| 0 <= k < |front| && Ids(front)[k] == x;
        assert Ids(layer)[k] == x;
      }
      assert Ids(layer)[|layer| - 1] == layer[|layer| - 1].id;
    }
  }

  /** The traversal only appends to `done`. */
  lemma {:induction false} DoneGrows(columns: seq<Column>, done: seq<ColId>, layer: seq<Column>)
    requires LayerFresh(columns, done, layer)
    ensures |done| <= |FinalDone(columns, done, layer)|
    ensures FinalDone(columns, done, layer)[..|done|] == done
    decreases IdSet(columns) - DoneSet(done)
  {
    if |layer| > 0 {
      var done' := done + Ids(layer);
      LayerShrinksRemaining(columns, done, layer);
      var next := NextColumnsEvaluatable(columns, done');
      DoneGrows(columns, done', next);
      var fin := FinalDone(columns, done', next);
      assert fin[..|done'|] == done';
      assert done'[..|done|] == done;
    }
  }

  /** Every evaluated column ends up in `done`, and none of them was done before. */
  lemma {:induction false} EvaluatedAreDone(columns: seq<Column>, done: seq<ColId>, layer: seq<Column>)
    requires LayerFresh(columns, done, layer)
    ensures forall x :: x in EvaluationOrder(columns, done, layer) ==>
              x in FinalDone(columns, done, layer) && x !in done
    decreases IdSet(columns) - DoneSet(done)
  {
    if |layer| > 0 {
      var done' := done + Ids(layer);
      LayerShrinksRemaining(columns, done, layer);
      var next := NextColumnsEvaluatable(columns, done');
      EvaluatedAreDone(columns, done', next);
      DoneGrows(columns, done', next);
      EvaluatedInIds(layer);
      LayerIdsKept(columns, done, layer, FinalDone(columns, done', next));
    }
  }

  /** The ids of a fresh layer are new to `done` and survive in anything that extends `done + layer`. */
  lemma LayerIdsKept(columns: seq<Column>, done: seq<ColId>, layer: seq<Column>, fin: seq<ColId>)
    requires LayerFresh(columns, done, layer)
    requires |done| + |layer| <= |fin| && fin[..|done| + |layer|] == done + Ids(layer)
    ensures forall x :: x in Ids(layer) ==> x in fin && x !in done
  {
    forall x | x in Ids(layer) ensures x in fin && x !in done {
      var k :| 0 <= k < |layer| && Ids(layer)[k] == x;
      assert layer[k] in layer;
      assert fin[|done| + k] == (done + Ids(layer))[|done| + k];
    }
  }

  lemma {:induction false} EvaluatedInDistinct(layer: seq<Column>)
    requires UniqueIds(layer)
    ensures Distinct(EvaluatedIn(layer))
  {
    if |layer| > 0 {
      var front := layer[..|layer| - 1];
      var last := layer[|layer| - 1];
      assert UniqueIds(front);
      EvaluatedInDistinct(front);
      EvaluatedInIds(front);
      var head := EvaluatedIn(front);
      assert last.id !in head by {
        forall k | 0 <= k < |front| ensures Ids(front)[k] != last.id {
          assert layer[k] == front[k];
        }
      }
      var all := head + (if Clean(last) then [last.id] else []);
      forall i, j | 0 <= i < j < |all| ensures all[i] != all[j] {
        if j == |head| {
          assert all[i] in head;
        }
      }
    }
  }

  /** Appending a layer of distinct fresh columns keeps `done` free of repeats. */
  lemma AppendLayerDistinct(columns: seq<Column>, done: seq<ColId>, layer: seq<Column>)
    requires LayerFresh(columns, done, layer) && UniqueIds(layer) && Distinct(done)
    ensures Distinct(done + Ids(layer))
  {
    var done' := done + Ids(layer);
    forall i, j | 0 <= i < j < |done'| ensures done'[i] != done'[j] {
      if j >= |done| {
        assert layer[j - |done|] in layer;
        if i >= |done| {
          assert done'[i] == layer[i - |done|].id;
        }
      }
    }
  }

  /** No column is done twice in one traversal. */
  lemma {:induction false} DoneAtMostOnce(columns: seq<Column>, done: seq<ColId>, layer: seq<Column>)
    requires LayerFresh(columns, done, layer)
    requires UniqueIds(columns) && UniqueIds(layer) && Distinct(done)
    ensures Distinct(FinalDone(columns, done, layer))
    decreases IdSet(columns) - DoneSet(done)
  {
    if |layer| > 0 {
      var done' := done + Ids(layer);
      LayerShrinksRemaining(columns, done, layer);
      AppendLayerDistinct(columns, done, layer);
      FilterPairwise(columns, (c: Column) => Evaluatable(columns, done', c), (a: Column, b: Column) => a.id != b.id);
      DoneAtMostOnce(columns, done', NextColumnsEvaluatable(columns, done'));
    }
  }

  /** No column is evaluated twice in one traversal. */
  lemma {:induction false} EvaluatedAtMostOnce(columns: seq<Column>, done: seq<ColId>, layer: seq<Column>)
    requires LayerFresh(columns, done, layer)
    requires UniqueIds(columns) && UniqueIds(layer)
    ensures Distinct(EvaluationOrder(columns, done, layer))
    decreases IdSet(columns) - DoneSet(done)
  {
    if |layer| > 0 {
      var done' := done + Ids(layer);
      LayerShrinksRemaining(columns, done, layer);
      var next := NextColumnsEvaluatable(columns, done');
      FilterPairwise(columns, (c: Column) => Evaluatable(columns, done', c), (a: Column, b: Column) => a.id != b.id);
      EvaluatedAtMostOnce(columns, done', next);
      EvaluatedAreDone(columns, done', next);
      EvaluatedInDistinct(layer);
      EvaluatedInIds(layer);
      DistinctConcat(EvaluatedIn(layer), EvaluationOrder(columns, done', next), done');
    }
  }

  lemma DistinctConcat(a: seq<ColId>, b: seq<ColId>, split: seq<ColId>)
    requires Distinct(a) && Distinct(b)
    requires forall x :: x in a ==> x in split
    requires forall x :: x in b ==> x !in split
    ensures Distinct(a + b)
  {
    var all := a + b;
    forall i, j | 0 <= i < j < |all| ensures all[i] != all[j] {
      if i < |a| && j >= |a| {
        assert all[i] in a && all[j] in b;
      } else if i >= |a| {
        assert all[i] == b[i - |a|] && all[j] == b[j - |a|];
      }
    }
  }

  /** Whole-call form: every column is evaluated, and done, at most once per `evaluate()`. */
  lemma EvaluationHasNoRepeats(columns: seq<Column>)
    requires UniqueIds(columns)
    ensures Distinct(Evaluation(columns)) && Distinct(Done(columns))
  {
    FilterPairwise(columns, IsStartingColumn, (a: Column, b: Column) => a.id != b.id);
    EvaluatedAtMostOnce(columns, [], StartingColumns(columns));
    DoneAtMostOnce(columns, [], StartingColumns(columns));
  }

  //
  // Admission: every done column entered with its dependencies already done
  //

  /** The column with id `x` could enter the traversal once `before` was done. */
  predicate Admitted(columns: seq<Column>, before: seq<ColId>, x: ColId)
  {
    var i := ColumnById(columns, x);
    && i.Some?
    && var c := columns[i.value];
    || IsStartingColumn(c)
    || (&& c.deps.Some?
        && !HasTranslateError(c)
        && forall d :: d in c.deps.value ==> d in before && !DependsOnError(columns, d))
  }

  /** Each entry of `done` was admitted on the strength of the entries before it. */
  predicate Layered(columns: seq<Column>, done: seq<ColId>)
  {
    forall i :: 0 <= i < |done| ==> Admitted(columns, done[..i], done[i])
  }

  lemma LookupUnique(columns: seq<Column>, c: Column)
    requires UniqueIds(columns) && c in columns
    ensures ColumnById(columns, c.id).Some? && columns[ColumnById(columns, c.id).value] == c
  {
    var k :| 0 <= k < |columns| && columns[k] == c;
    var i := ColumnById(columns, c.id).value;
    assert !(i < k) && !(k < i);
  }

  /** Admission with `done` still holds with anything that extends `done`. */
  lemma AdmittedGrows(columns: seq<Column>, before: seq<ColId>, after: seq<ColId>, x: ColId)
    requires Admitted(columns, before, x) && |before| <= |after| && after[..|before|] == before
    ensures Admitted(columns, after, x)
  {
    forall d | d in before ensures d in after {
      var k :| 0 <= k < |before| && before[k] == d;
      assert after[k] == d;
    }
  }

  lemma AppendLayerLayered(columns: seq<Column>, done: seq<ColId>, layer: seq<Column>)
    requires Layered(columns, done)
    requires forall c :: c in layer ==> Admitted(columns, done, c.id)
    ensures Layered(columns, done + Ids(layer))
  {
    var done' := done + Ids(layer);
    forall i | 0 <= i < |done'| ensures Admitted(columns, done'[..i], done'[i]) {
      if i < |done| {
        assert done'[..i] == done[..i];
      } else {
        var c := layer[i - |done|];
        assert c in layer && done'[i] == c.id;
        assert done'[..i][..|done|] == done;
        AdmittedGrows(columns, done, done'[..i], c.id);
      }
    }
  }

  lemma {:induction false} TraversalIsLayered(columns: seq<Column>, done: seq<ColId>, layer: seq<Column>)
    requires LayerFresh(columns, done, layer) && UniqueIds(columns) && Layered(columns, done)
    requires forall c :: c in layer ==> Admitted(columns, done, c.id)
    ensures Layered(columns, FinalDone(columns, done, layer))
    decreases IdSet(columns) - DoneSet(done)
  {
    if |layer| > 0 {
      var done' := done + Ids(layer);
      LayerShrinksRemaining(columns, done, layer);
      AppendLayerLayered(columns, done, layer);
      var next := NextColumnsEvaluatable(columns, done');
      forall c | c in next ensures Admitted(columns, done', c.id) {
        LookupUnique(columns, c);
      }
      TraversalIsLayered(columns, done', next);
    }
  }

  /** Whole-call form: every done column was admitted after all of its dependencies. */
  lemma DoneIsLayered(columns: seq<Column>)
    requires UniqueIds(columns)
    ensures Layered(columns, Done(columns))
  {
    forall c | c in StartingColumns(columns) ensures Admitted(columns, [], c.id) {
      LookupUnique(columns, c);
    }
    TraversalIsLayered(columns, [], StartingColumns(columns));
  }

  //
  // Error containment and cycles
  //

  /** `b` is a direct dependency of the column with id `a`. */
  predicate Edge(columns: seq<Column>, a: ColId, b: ColId)
  {
    var i := ColumnById(columns, a);
    i.Some? && columns[i.value].deps.Some? && b in columns[i.value].deps.value
  }

  /** A chain of direct dependencies p[0] -> p[1] -> ... */
  predicate IsPath(columns: seq<Column>, p: seq<ColId>)
  {
    forall k :: 0 <= k < |p| - 1 ==> Edge(columns, p[k], p[k + 1])
  }

  /** A direct dependency of an admitted column was done before it and has no translate error. */
  lemma AdmittedEdge(columns: seq<Column>, before: seq<ColId>, a: ColId, b: ColId)
    requires Admitted(columns, before, a) && Edge(columns, a, b)
    ensures b in before && !DependsOnError(columns, b)
  {
  }

  /** A column that reaches a column with a translate error through dependencies never becomes done. */
  lemma {:induction false} ErrorBlocksDescendants(columns: seq<Column>, done: seq<ColId>, p: seq<ColId>)
    requires Layered(columns, done)
    requires |p| >= 2 && IsPath(columns, p) && DependsOnError(columns, p[|p| - 1])
    ensures p[0] !in done
    decreases |p|
  {
    if p[0] in done {
      var i :| 0 <= i < |done| && done[i] == p[0];
      assert Edge(columns, p[0], p[1]);
      AdmittedEdge(columns, done[..i], p[0], p[1]);
      if |p| > 2 {
        var q := p[1..];
        assert IsPath(columns, q) by {
          forall k | 0 <= k < |q| - 1 ensures Edge(columns, q[k], q[k + 1]) {
            assert q[k] == p[k + 1] && q[k + 1] == p[k + 2];
          }
        }
        assert q[|q| - 1] == p[|p| - 1];
        ErrorBlocksDescendants(columns, done, q);
      }
    }
  }

  /** Whole-call form: neither evaluated nor done, for any column downstream of a translate error. */
  lemma ErrorContained(columns: seq<Column>, p: seq<ColId>)
    requires UniqueIds(columns)
    requires |p| >= 2 && IsPath(columns, p) && DependsOnError(columns, p[|p| - 1])
    ensures p[0] !in Done(columns) && p[0] !in Evaluation(columns)
  {
    DoneIsLayered(columns);
    ErrorBlocksDescendants(columns, Done(columns), p);
    EvaluatedAreDone(columns, [], StartingColumns(columns));
  }

  lemma {:induction false} CycleAbsentBelow(columns: seq<Column>, done: seq<ColId>, p: seq<ColId>, n: nat)
    requires Layered(columns, done) && n <= |done|
    requires |p| >= 2 && p[0] == p[|p| - 1] && IsPath(columns, p)
    ensures forall k :: 0 <= k < |p| ==> p[k] !in done[..n]
  {
    if n > 0 {
      CycleAbsentBelow(columns, done, p, n - 1);
      assert done[..n] == done[..n - 1] + [done[n - 1]];
      assert Admitted(columns, done[..n - 1], done[n - 1]);
      forall k | 0 <= k < |p| - 1 ensures p[k] != done[n - 1] {
        assert Edge(columns, p[k], p[k + 1]);
        assert p[k + 1] !in done[..n - 1];
      }
    }
  }

  /** Whole-call form: no column lying on a dependency cycle is done or evaluated. */
  lemma CycleNeverEvaluated(columns: seq<Column>, p: seq<ColId>)
    requires UniqueIds(columns)
    requires |p| >= 2 && p[0] == p[|p| - 1] && IsPath(columns, p)
    ensures forall k :: 0 <= k < |p| ==> p[k] !in Done(columns) && p[k] !in Evaluation(columns)
  {
    DoneIsLayered(columns);
    var fin := Done(columns);
    CycleAbsentBelow(columns, fin, p, |fin|);
    assert fin[..|fin|] == fin;
    EvaluatedAreDone(columns, [], StartingColumns(columns));
  }

  //
  // Termination and saturation
  //

  lemma {:induction false} SubsetCardinality(a: set<ColId>, b: set<ColId>)
    requires a <= b
    ensures |a| <= |b|
    decreases |a|
  {
    if a != {} {
      var x :| x in a;
      SubsetCardinality(a - {x}, b - {x});
    }
  }

  lemma {:induction false} IdSetCardinality(columns: seq<Column>)
    ensures |IdSet(columns)| <= |columns|
  {
    if |columns| > 0 {
      var front := columns[..|columns| - 1];
      IdSetCardinality(front);
      assert IdSet(columns) == IdSet(front) + {columns[|columns| - 1].id} by {
        assert columns == front + [columns[|columns| - 1]];
      }
    }
  }

  lemma {:induction false} RoundsBound(columns: seq<Column>, done: seq<ColId>, layer: seq<Column>)
    requires LayerFresh(columns, done, layer)
    ensures Rounds(columns, done, layer) <= |IdSet(columns) - DoneSet(done)|
    decreases IdSet(columns) - DoneSet(done)
  {
    if |layer| > 0 {
      var done' := done + Ids(layer);
      LayerShrinksRemaining(columns, done, layer);
      RoundsBound(columns, done', NextColumnsEvaluatable(columns, done'));
      var before := IdSet(columns) - DoneSet(done);
      var after := IdSet(columns) - DoneSet(done');
      var x :| x in before && x !in after;
      SubsetCardinality(after, before - {x});
    }
  }

  /** The outer loop of `evaluate()` runs its body at most once per column: `done` grows by a fresh column each round. */
  lemma EvaluationRoundsBound(columns: seq<Column>)
    ensures Rounds(columns, [], StartingColumns(columns)) <= |columns|
  {
    RoundsBound(columns, [], StartingColumns(columns));
    IdSetCardinality(columns);
    assert IdSet(columns) - DoneSet([]) == IdSet(columns);
  }

  /** When the traversal stops after a non-empty first layer, no further column is admissible. */
  lemma {:induction false} TraversalSaturates(columns: seq<Column>, done: seq<ColId>, layer: seq<Column>)
    requires LayerFresh(columns, done, layer) && |layer| > 0
    ensures NextColumnsEvaluatable(columns, FinalDone(columns, done, layer)) == []
    decreases IdSet(columns) - DoneSet(done)
  {
    var done' := done + Ids(layer);
    LayerShrinksRemaining(columns, done, layer);
    var next := NextColumnsEvaluatable(columns, done');
    if |next| > 0 {
      TraversalSaturates(columns, done', next);
    }
  }

  /** Whole-call form; an empty starting layer stops `evaluate()` at once, whatever else could run. */
  lemma EvaluationSaturates(columns: seq<Column>)
    ensures StartingColumns(columns) != [] ==> NextColumnsEvaluatable(columns, Done(columns)) == []
    ensures StartingColumns(columns) == [] ==> Evaluation(columns) == [] && Done(columns) == []
  {
    if StartingColumns(columns) != [] {
      TraversalSaturates(columns, [], StartingColumns(columns));
    }
  }
}
