/** The mixed-radix odometer behind the population of a product table.
    Each key column contributes one dimension whose length is the row count
    of its output table. A dimension of length 0 is skipped: it keeps the
    offset -1 and counts as a single choice. The enumeration order puts the
    last dimension fastest. */
module Odometer {
  import opened Seqs

  /** How many choices a dimension of length `l` offers: `l`, or one (the offset -1) when it is empty. */
  function Width(l: nat): nat
  {
    if l == 0 then 1 else l
  }

  /** The offset written for choice `r` of a dimension of length `l`. */
  function Digit(l: nat, r: nat): int
  {
    if l == 0 then -1 else r
  }

  /** The number of tuples: the product of the widths. */
  function Prod(L: seq<nat>): (r: nat)
    ensures r >= 1
  {
    if |L| == 0 then 1
    else
      var p := Prod(L[..|L| - 1]);
      MulPositive(p, Width(L[|L| - 1]));
      p * Width(L[|L| - 1])
  }

  /** The ordinary product of a list of numbers. */
  function Product(s: seq<nat>): nat
  {
    if |s| == 0 then 1 else Product(s[..|s| - 1]) * s[|s| - 1]
  }

  /** The tuple `t` is a legal odometer reading: an empty dimension holds -1,
      any other dimension an offset in `[0, L[i])`. */
  predicate Fits(L: seq<nat>, t: seq<int>)
  {
    |t| == |L| && forall i :: 0 <= i < |L| ==> if L[i] == 0 then t[i] == -1 else 0 <= t[i] < L[i]
  }

  /** The position of reading `t` in the enumeration (mixed radix, last dimension least significant). */
  function Rank(L: seq<nat>, t: seq<int>): int
    requires |t| == |L|
  {
    if |L| == 0 then 0
    else
      var m := |L| - 1;
      Rank(L[..m], t[..m]) * Width(L[m]) + (if L[m] == 0 then 0 else t[m])
  }

  /** The reading at position `n` of the enumeration. */
  function Decode(L: seq<nat>, n: nat): (t: seq<int>)
    ensures |t| == |L|
  {
    if |L| == 0 then []
    else
      var m := |L| - 1;
      var w := Width(L[m]);
      Decode(L[..m], n / w) + [Digit(L[m], n % w)]
  }

  /** All readings, in the order the odometer visits them. */
  function Tuples(L: seq<nat>): seq<seq<int>>
  {
    seq(Prod(L), n requires 0 <= n => Decode(L, n))
  }

  /** `a` comes before `b` in lexicographic order. */
  predicate LexLess(a: seq<int>, b: seq<int>)
  {
    exists p :: 0 <= p < |a| && p < |b| && a[..p] == b[..p] && a[p] < b[p]
  }

  //
  // Arithmetic
  //

  lemma MulPositive(a: nat, b: nat)
    requires a >= 1 && b >= 1
    ensures a * b >= 1 && a * b >= a
  {
    assert a * b == a * (b - 1) + a;
  }

  lemma MulAssoc(a: int, b: int, c: int)
    ensures a * b * c == a * (b * c)
  {
  }

  lemma MulLe(a: int, b: int, w: nat)
    requires a <= b
    ensures a * w <= b * w
  {
    assert b * w - a * w == (b - a) * w;
  }

  lemma DivModSplit(n: nat, w: nat)
    requires w >= 1
    ensures n == (n / w) * w + n % w && 0 <= n % w < w
    ensures w == 1 ==> n % w == 0
  {
  }

  lemma DivNonNegative(n: nat, w: nat)
    requires w >= 1
    ensures n / w >= 0
  {
  }

  lemma DivBelow(n: nat, w: nat, p: nat)
    requires w >= 1 && n < p * w
    ensures n / w < p
  {
    assert n == (n / w) * w + n % w;
    if n / w >= p {
      MulLe(p, n / w, w);
    }
  }

  lemma DivMonotone(i: nat, j: nat, w: nat)
    requires w >= 1 && i <= j
    ensures i / w <= j / w
  {
    assert i == (i / w) * w + i % w;
    assert j == (j / w) * w + j % w;
    assert (j / w + 1) * w == (j / w) * w + w;
    if i / w > j / w {
      MulLe(j / w + 1, i / w, w);
    }
  }

  lemma DivModOf(q: nat, w: nat, d: nat)
    requires w >= 1 && d < w
    ensures (q * w + d) / w == q && (q * w + d) % w == d
  {
    var a := q * w + d;
    var q', r' := a / w, a % w;
    assert a == q' * w + r';
    assert (q' + 1) * w == q' * w + w;
    assert (q + 1) * w == q * w + w;
    if q' < q {
      MulLe(q' + 1, q, w);
    } else if q < q' {
      MulLe(q + 1, q', w);
    }
  }

  //
  // The enumeration is a bijection onto the legal readings
  //

  lemma {:induction false} ProdIsProductOfNonEmpty(L: seq<nat>)
    ensures Prod(L) == Product(Filter(L, (l: nat) => l > 0))
  {
    if |L| > 0 {
      var m := |L| - 1;
      var p := (l: nat) => l > 0;
      assert L == L[..m] + [L[m]];
      ProdIsProductOfNonEmpty(L[..m]);
      FilterAppend(L[..m], [L[m]], p);
      assert [L[m]][1..] == [];
      var f := Filter(L[..m], p);
      if L[m] > 0 {
        assert (f + [L[m]])[..|f|] == f;
      } else {
        assert f + [] == f;
      }
    }
  }

  /** A reading is legal exactly when its prefix is legal for the prefix and its last offset is legal. */
  lemma FitsSnoc(L: seq<nat>, t: seq<int>)
    requires |L| > 0 && |t| == |L|
    ensures Fits(L, t) <==>
              Fits(L[..|L| - 1], t[..|L| - 1]) &&
              (if L[|L| - 1] == 0 then t[|L| - 1] == -1 else 0 <= t[|L| - 1] < L[|L| - 1])
  {
    var m := |L| - 1;
    if Fits(L[..m], t[..m]) && (if L[m] == 0 then t[m] == -1 else 0 <= t[m] < L[m]) {
      forall i | 0 <= i < |L| ensures if L[i] == 0 then t[i] == -1 else 0 <= t[i] < L[i] {
        if i < m {
          assert L[..m][i] == L[i] && t[..m][i] == t[i];
        }
      }
    }
  }

  lemma DecodeSnoc(L: seq<nat>, n: nat)
    requires |L| > 0
    ensures Decode(L, n)[..|L| - 1] == Decode(L[..|L| - 1], n / Width(L[|L| - 1]))
    ensures Decode(L, n)[|L| - 1] == Digit(L[|L| - 1], n % Width(L[|L| - 1]))
  {
  }

  /** Position `n` below the count decodes to a legal reading whose rank is `n`. */
  lemma {:induction false} DecodeFits(L: seq<nat>, n: nat)
    requires n < Prod(L)
    ensures Fits(L, Decode(L, n)) && Rank(L, Decode(L, n)) == n
  {
    if |L| > 0 {
      var m := |L| - 1;
      var w := Width(L[m]);
      var t := Decode(L, n);
      DivBelow(n, w, Prod(L[..m]));
      DecodeFits(L[..m], n / w);
      DecodeSnoc(L, n);
      FitsSnoc(L, t);
      DivModSplit(n, w);
      assert Rank(L, t) == Rank(L[..m], t[..m]) * w + (if L[m] == 0 then 0 else t[m]);
    }
  }

  /** Appending digit `d` below `w` to a number below `p` stays below `p * w`, and the digit reads back. */
  lemma MixedDigit(r: nat, p: nat, w: nat, d: nat)
    requires r < p && d < w
    ensures 0 <= r * w + d < p * w && (r * w + d) / w == r && (r * w + d) % w == d
  {
    MulLe(r, p - 1, w);
    assert (p - 1) * w == p * w - w;
    DivModOf(r, w, d);
  }

  /** Every legal reading has a rank below the count and decodes back from it. */
  lemma {:induction false} RankDecodes(L: seq<nat>, t: seq<int>)
    requires Fits(L, t)
    ensures 0 <= Rank(L, t) < Prod(L) && Decode(L, Rank(L, t)) == t
  {
    if |L| > 0 {
      var m := |L| - 1;
      assert Fits(L[..m], t[..m]) by {
        FitsSnoc(L, t);
      }
      RankDecodes(L[..m], t[..m]);
      RankDecodesLast(L, t);
    }
  }

  /** The inductive step of `RankDecodes`: the last offset is the last mixed-radix digit. */
  lemma RankDecodesLast(L: seq<nat>, t: seq<int>)
    requires Fits(L, t) && |L| > 0
    requires 0 <= Rank(L[..|L| - 1], t[..|L| - 1]) < Prod(L[..|L| - 1])
    requires Decode(L[..|L| - 1], Rank(L[..|L| - 1], t[..|L| - 1])) == t[..|L| - 1]
    ensures 0 <= Rank(L, t) < Prod(L) && Decode(L, Rank(L, t)) == t
  {
    var m := |L| - 1;
    var w := Width(L[m]);
    var d: nat := if L[m] == 0 then 0 else t[m];
    var r: nat := Rank(L[..m], t[..m]);
    MixedDigit(r, Prod(L[..m]), w, d);
    var n: nat := r * w + d;
    assert Rank(L, t) == n && n < Prod(L);
    var u := Decode(L, n);
    assert u[..m] == t[..m] && u[m] == t[m] by {
      DecodeSnoc(L, n);
    }
    assert u == u[..m] + [u[m]] && t == t[..m] + [t[m]];
  }

  lemma TuplesFit(L: seq<nat>, n: nat)
    requires n < |Tuples(L)|
    ensures Fits(L, Tuples(L)[n]) && Rank(L, Tuples(L)[n]) == n
  {
    DecodeFits(L, n);
  }

  /** The odometer produces exactly the product of the non-empty lengths many rows. */
  lemma TuplesCount(L: seq<nat>)
    ensures |Tuples(L)| == Prod(L) == Product(Filter(L, (l: nat) => l > 0))
  {
    ProdIsProductOfNonEmpty(L);
  }

  /** The rows are exactly the legal readings: nothing else, and each of them. */
  lemma TuplesAreTheReadings(L: seq<nat>, t: seq<int>)
    ensures t in Tuples(L) <==> Fits(L, t)
  {
    if t in Tuples(L) {
      var n :| 0 <= n < |Tuples(L)| && Tuples(L)[n] == t;
      TuplesFit(L, n);
    }
    if Fits(L, t) {
      RankDecodes(L, t);
      assert Tuples(L)[Rank(L, t)] == t;
    }
  }

  /** No reading is produced twice. */
  lemma TuplesDistinct(L: seq<nat>)
    ensures forall i, j :: 0 <= i < j < |Tuples(L)| ==> Tuples(L)[i] != Tuples(L)[j]
  {
    forall i, j | 0 <= i < j < |Tuples(L)| ensures Tuples(L)[i] != Tuples(L)[j] {
      TuplesFit(L, i);
      TuplesFit(L, j);
    }
  }

  /** An empty dimension holds -1 in every row; a non-empty one an offset in `[0, L[i])`. */
  lemma TuplesOffsets(L: seq<nat>, n: nat, i: nat)
    requires n < |Tuples(L)| && i < |L|
    ensures L[i] == 0 ==> Tuples(L)[n][i] == -1
    ensures L[i] > 0 ==> 0 <= Tuples(L)[n][i] < L[i]
  {
    TuplesFit(L, n);
  }

  lemma SameQuotient(i: nat, j: nat, w: nat)
    requires w >= 1 && i < j && i / w == j / w
    ensures i % w < j % w && w > 1
  {
    assert i == (i / w) * w + i % w && j == (j / w) * w + j % w;
  }

  lemma LexSnoc(a: seq<int>, b: seq<int>, x: int, y: int)
    requires LexLess(a, b)
    ensures LexLess(a + [x], b + [y])
  {
    var p :| 0 <= p < |a| && p < |b| && a[..p] == b[..p] && a[p] < b[p];
    assert (a + [x])[..p] == a[..p] && (b + [y])[..p] == b[..p];
    assert (a + [x])[p] == a[p] && (b + [y])[p] == b[p];
  }

  lemma LexLast(a: seq<int>, x: int, y: int)
    requires x < y
    ensures LexLess(a + [x], a + [y])
  {
    assert (a + [x])[..|a|] == a == (a + [y])[..|a|];
  }

  /** Positions with ordered quotients decode to ordered readings when their prefixes are ordered. */
  lemma DecodeOrderedHigh(L: seq<nat>, i: nat, j: nat)
    requires |L| > 0
    requires LexLess(Decode(L[..|L| - 1], i / Width(L[|L| - 1])), Decode(L[..|L| - 1], j / Width(L[|L| - 1])))
    ensures LexLess(Decode(L, i), Decode(L, j))
  {
    var m := |L| - 1;
    var w := Width(L[m]);
    DivNonNegative(i, w);
    DivNonNegative(j, w);
    var a, b := Decode(L[..m], i / w), Decode(L[..m], j / w);
    var x, y := Digit(L[m], i % w), Digit(L[m], j % w);
    assert Decode(L, i) == a + [x] && Decode(L, j) == b + [y];
    LexSnoc(a, b, x, y);
  }

  /** Positions with the same quotient differ only in the last offset, which increases. */
  lemma DecodeOrderedLow(L: seq<nat>, i: nat, j: nat)
    requires |L| > 0 && i < j && i / Width(L[|L| - 1]) == j / Width(L[|L| - 1])
    ensures LexLess(Decode(L, i), Decode(L, j))
  {
    var m := |L| - 1;
    var w := Width(L[m]);
    SameQuotient(i, j, w);
    LexLast(Decode(L[..m], i / w), i % w, j % w);
  }

  lemma {:induction false} DecodeOrdered(L: seq<nat>, i: nat, j: nat)
    requires i < j < Prod(L)
    ensures LexLess(Decode(L, i), Decode(L, j))
  {
    if |L| > 0 {
      var m := |L| - 1;
      var w := Width(L[m]);
      DivMonotone(i, j, w);
      if i / w < j / w {
        assert j / w < Prod(L[..m]) by {
          DivBelow(j, w, Prod(L[..m]));
        }
        DecodeOrdered(L[..m], i / w, j / w);
        DecodeOrderedHigh(L, i, j);
      } else {
        DecodeOrderedLow(L, i, j);
      }
    }
  }

  /** Rows come in lexicographic order, the last dimension varying fastest. */
  lemma TuplesOrdered(L: seq<nat>)
    ensures forall i, j :: 0 <= i < j < |Tuples(L)| ==> LexLess(Tuples(L)[i], Tuples(L)[j])
  {
    forall i, j | 0 <= i < j < |Tuples(L)| ensures LexLess(Tuples(L)[i], Tuples(L)[j]) {
      DecodeOrdered(L, i, j);
    }
  }

  /** No key dimension at all: exactly one (empty) row. */
  lemma NoDimensionsOneRow()
    ensures Tuples([]) == [[]]
  {
    assert |Tuples([])| == 1;
  }

  /** Only empty dimensions: exactly one row, all -1. */
  lemma AllEmptyOneRow(L: seq<nat>)
    requires forall i :: 0 <= i < |L| ==> L[i] == 0
    ensures Tuples(L) == [seq(|L|, _ => -1)]
  {
    ProdSkips(L, 0, |L|);
    assert L[0..|L|] == L;
    TuplesFit(L, 0);
    var row := Tuples(L)[0];
    assert row == seq(|L|, _ => -1);
    assert Tuples(L) == [row];
  }

  /** Two dimensions of lengths 2 and 3: six rows, the last dimension varying fastest. */
  lemma TwoByThree()
    ensures Tuples([2, 3]) == [[0, 0], [0, 1], [0, 2], [1, 0], [1, 1], [1, 2]]
  {
    var L: seq<nat> := [2, 3];
    assert L[..1] == [2] && [2][..0] == [];
    assert Prod(L) == 6;
    forall n | 0 <= n < 6 ensures Decode(L, n) == [n / 3, n % 3] {
      DecodeSnoc(L, n);
      assert Decode(L[..1], n / 3) == [n / 3];
    }
  }

  /** An empty dimension does not empty the product: it is skipped and holds -1 in every row. */
  lemma EmptyDimensionIsSkipped()
    ensures Tuples([2, 0]) == [[0, -1], [1, -1]]
  {
    var L: seq<nat> := [2, 0];
    assert L[..1] == [2] && [2][..0] == [];
    assert Prod(L) == 2;
    forall n | 0 <= n < 2 ensures Decode(L, n) == [n, -1] {
      DecodeSnoc(L, n);
      assert Decode(L[..1], n) == [n];
    }
  }

  //
  // Products and ranks over slices
  //

  lemma {:induction false} ProdAppend(A: seq<nat>, B: seq<nat>)
    ensures Prod(A + B) == Prod(A) * Prod(B)
  {
    if |B| == 0 {
      assert A + B == A;
    } else {
      var m := |B| - 1;
      assert (A + B)[..|A + B| - 1] == A + B[..m];
      ProdAppend(A, B[..m]);
      MulAssoc(Prod(A), Prod(B[..m]), Width(B[m]));
    }
  }

  lemma ProdSplit(L: seq<nat>, a: nat, b: nat, c: nat)
    requires a <= b <= c <= |L|
    ensures Prod(L[a..c]) == Prod(L[a..b]) * Prod(L[b..c])
  {
    assert L[a..c] == L[a..b] + L[b..c];
    ProdAppend(L[a..b], L[b..c]);
  }

  lemma {:induction false} ProdSkips(L: seq<nat>, a: nat, b: nat)
    requires a <= b <= |L| && forall i :: a <= i < b ==> L[i] == 0
    ensures Prod(L[a..b]) == 1
  {
    if a < b {
      ProdSkips(L, a, b - 1);
      assert L[a..b][..b - 1 - a] == L[a..b - 1];
    }
  }

  lemma ProdSingle(l: nat)
    ensures Prod([l]) == Width(l)
  {
    assert [l][..0] == [];
  }

  lemma ProdFront(L: seq<nat>, a: nat)
    requires a < |L|
    ensures Prod(L[a..]) == Width(L[a]) * Prod(L[a + 1..])
  {
    ProdSplit(L, a, a + 1, |L|);
    assert L[a..a + 1] == [L[a]];
    assert L[a..] == L[a..|L|] && L[a + 1..] == L[a + 1..|L|];
    ProdSingle(L[a]);
  }

  /** Empty dimensions at the front of a suffix do not change its product. */
  lemma ProdSuffix(L: seq<nat>, a: nat, b: nat)
    requires a <= b <= |L| && forall i :: a <= i < b ==> L[i] == 0
    ensures Prod(L[a..]) == Prod(L[b..])
  {
    ProdSplit(L, a, b, |L|);
    ProdSkips(L, a, b);
    assert L[a..] == L[a..|L|] && L[b..] == L[b..|L|];
  }

  lemma RankStep(L: seq<nat>, t: seq<int>, m: nat)
    requires |t| == |L| && m < |L|
    ensures Rank(L[..m + 1], t[..m + 1]) == Rank(L[..m], t[..m]) * Width(L[m]) + (if L[m] == 0 then 0 else t[m])
  {
    assert L[..m + 1][..m] == L[..m] && t[..m + 1][..m] == t[..m];
  }

  /** Empty dimensions do not change the rank. */
  lemma {:induction false} RankSkips(L: seq<nat>, t: seq<int>, a: nat, b: nat)
    requires |t| == |L| && a <= b <= |L| && forall i :: a <= i < b ==> L[i] == 0
    ensures Rank(L[..b], t[..b]) == Rank(L[..a], t[..a])
  {
    if a < b {
      RankSkips(L, t, a, b - 1);
      RankStep(L, t, b - 1);
    }
  }

  //
  // The search procedure of `populate`: offsets `o` and the level `top`
  //

  /** The invariant of the search: empty dimensions hold -1, levels below `top` hold a chosen offset,
      the level `top` itself an offset in `[-1, L[top])`, and every level above `top` holds -1. */
  predicate Cursor(L: seq<nat>, o: seq<int>, top: int)
  {
    && |o| == |L| && -1 <= top <= |L|
    && (0 <= top < |L| ==> L[top] > 0 && -1 <= o[top] < L[top])
    && (forall i :: 0 <= i < |L| && L[i] == 0 ==> o[i] == -1)
    && (forall i :: 0 <= i < top && i < |L| && L[i] > 0 ==> 0 <= o[i] < L[i])
    && (forall i :: top < i < |L| ==> o[i] == -1)
  }

  /** How many rows the search has emitted in state (`o`, `top`). */
  function Count(L: seq<nat>, o: seq<int>, top: int): int
    requires |o| == |L| && -1 <= top <= |L|
  {
    if top == -1 then Prod(L)
    else if top == |L| then Rank(L, o)
    else (Rank(L[..top], o[..top]) * L[top] + o[top] + 1) * Prod(L[top + 1..])
  }

  /** Between two emitted rows the search moves up or down; this measure decreases with each move. */
  function Phase(L: seq<nat>, o: seq<int>, top: int): nat
    requires |o| == |L| && -1 <= top <= |L|
  {
    if top == -1 || top == |L| then 0
    else if o[top] + 1 == L[top] then |L| + 1 + top
    else |L| - top
  }

  /** At `top == |L|` the offsets form a legal reading, which is the next row to emit. */
  lemma CursorReady(L: seq<nat>, o: seq<int>)
    requires Cursor(L, o, |L|)
    ensures Fits(L, o) && 0 <= Rank(L, o) < Prod(L) && Tuples(L)[Rank(L, o)] == o
  {
    RankDecodes(L, o);
  }

  /** The start: all offsets -1, `top` on the first non-empty dimension; nothing emitted. */
  lemma CursorStart(L: seq<nat>, o: seq<int>, top: nat)
    requires o == seq(|L|, _ => -1)
    requires top <= |L| && (forall i :: 0 <= i < top ==> L[i] == 0) && (top == |L| || L[top] > 0)
    ensures Cursor(L, o, top) && Count(L, o, top) == 0
  {
    RankSkips(L, o, 0, top);
    assert L[..top][..0] == [] && o[..top][..0] == [];
    assert L[..|L|] == L && o[..|L|] == o;
  }

  /** After a row is emitted, `top` falls through the empty dimensions above the last non-empty one. */
  lemma CursorEmit(L: seq<nat>, o: seq<int>, t: int)
    requires Cursor(L, o, |L|) && -1 <= t < |L| && (forall i :: t < i < |L| ==> L[i] == 0) && (t == -1 || L[t] > 0)
    ensures Cursor(L, o, t) && Count(L, o, t) == Rank(L, o) + 1
  {
    assert Rank(L, o) == Rank(L[..t + 1], o[..t + 1]) by {
      RankSkips(L, o, t + 1, |L|);
      assert L[..|L|] == L && o[..|L|] == o;
    }
    assert Prod(L[t + 1..]) == 1 by {
      ProdSkips(L, t + 1, |L|);
      assert L[t + 1..] == L[t + 1..|L|];
    }
    if t == -1 {
      assert L[0..] == L;
    } else {
      RankStep(L, o, t);
      assert Count(L, o, t) == (Rank(L[..t], o[..t]) * L[t] + o[t] + 1) * 1;
    }
  }

  lemma UpArith(x: int, l: int, q: int, p: int)
    requires p == l * q
    ensures (x * l + -1 + 1) * q == x * p
  {
    assert (x * l) * q == x * (l * q);
  }

  lemma DownArith(r: int, l: int, p: int, s: int)
    requires s == l * p
    ensures (r * l + (l - 1) + 1) * p == (r + 1) * s
  {
    assert (r * l + l) * p == (r + 1) * (l * p);
  }

  /** Offset chosen at `top`: `top` climbs past the empty dimensions; the emitted count is unchanged. */
  lemma CursorUp(L: seq<nat>, o: seq<int>, top: nat, t: nat)
    requires Cursor(L, o, top) && top < |L| && o[top] + 1 < L[top]
    requires top < t <= |L| && (forall i :: top < i < t ==> L[i] == 0) && (t == |L| || L[t] > 0)
    ensures Cursor(L, o[top := o[top] + 1], t)
    ensures Count(L, o[top := o[top] + 1], t) == Count(L, o, top)
    ensures Phase(L, o[top := o[top] + 1], t) < Phase(L, o, top)
  {
    CursorUpCount(L, o, top, t);
  }

  lemma CursorUpCount(L: seq<nat>, o: seq<int>, top: nat, t: nat)
    requires Cursor(L, o, top) && top < |L| && o[top] + 1 < L[top]
    requires top < t <= |L| && (forall i :: top < i < t ==> L[i] == 0) && (t == |L| || L[t] > 0)
    ensures Count(L, o[top := o[top] + 1], t) == Count(L, o, top)
  {
    var o' := o[top := o[top] + 1];
    var x := Rank(L[..top], o[..top]) * L[top] + o[top] + 1;
    var p := Prod(L[top + 1..]);
    assert Count(L, o, top) == x * p;
    assert Rank(L[..t], o'[..t]) == x by {
      assert o'[..top] == o[..top];
      RankStep(L, o', top);
      RankSkips(L, o', top + 1, t);
    }
    assert p == Prod(L[t..]) by {
      ProdSuffix(L, top + 1, t);
    }
    if t < |L| {
      var q := Prod(L[t + 1..]);
      assert p == L[t] * q by {
        ProdFront(L, t);
      }
      assert Count(L, o', t) == (x * L[t] + -1 + 1) * q;
      UpArith(x, L[t], q, p);
    } else {
      assert L[..|L|] == L && o'[..|L|] == o';
      assert L[t..] == [];
      assert Count(L, o', t) == x && p == 1;
    }
  }

  /** Level `top` exhausted: it is reset and `top` falls through the empty dimensions below it;
      the emitted count is unchanged. */
  lemma CursorDown(L: seq<nat>, o: seq<int>, top: nat, t: int)
    requires Cursor(L, o, top) && top < |L| && o[top] + 1 == L[top]
    requires -1 <= t < top && (forall i :: t < i < top ==> L[i] == 0) && (t == -1 || L[t] > 0)
    ensures Cursor(L, o[top := -1], t)
    ensures Count(L, o[top := -1], t) == Count(L, o, top)
    ensures Phase(L, o[top := -1], t) < Phase(L, o, top)
  {
    CursorDownCount(L, o, top, t);
  }

  lemma CursorDownCount(L: seq<nat>, o: seq<int>, top: nat, t: int)
    requires Cursor(L, o, top) && top < |L| && o[top] + 1 == L[top]
    requires -1 <= t < top && (forall i :: t < i < top ==> L[i] == 0) && (t == -1 || L[t] > 0)
    ensures Count(L, o[top := -1], t) == Count(L, o, top)
  {
    var o' := o[top := -1];
    var r := Rank(L[..top], o[..top]);
    var p := Prod(L[top + 1..]);
    var s := Prod(L[top..]);
    assert s == L[top] * p by {
      ProdFront(L, top);
    }
    assert Count(L, o, top) == (r * L[top] + (L[top] - 1) + 1) * p;
    DownArith(r, L[top], p, s);
    assert r == Rank(L[..t + 1], o[..t + 1]) by {
      RankSkips(L, o, t + 1, top);
    }
    assert Prod(L[t + 1..]) == s by {
      ProdSuffix(L, t + 1, top);
    }
    if t == -1 {
      assert L[0..] == L;
      assert Count(L, o', t) == s;
    } else {
      assert Rank(L[..t], o'[..t]) * L[t] + o'[t] == r by {
        RankStep(L, o, t);
        assert o'[..t] == o[..t] && o'[t] == o[t];
      }
      assert Count(L, o', t) == (r + 1) * s;
    }
  }
}
