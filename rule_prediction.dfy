/** `predecir_one_r` (cervezas.py lines 106-129): label every row of a frame with the rule for
    its value in the chosen column, or with a default label when the rule has no entry. */
module RulePrediction {
  import opened Results
  import opened Seqs
  import opened Dicts
  import opened Frames
  import opened OneRule

  /** Lines 123-127: `reglas[valor]` when `valor in reglas`, `clase_por_defecto` otherwise. */
  function Lookup<V(==), L>(reglas: Dict<V, L>, v: V, porDefecto: L): (r: L)
    ensures v in Keys(reglas) ==> Get(reglas, v) == Some(r) && (v, r) in reglas
    ensures v !in Keys(reglas) ==> r == porDefecto
  {
    match Get(reglas, v)
    case Some(m) =>
      assert reglas[IndexOf(Keys(reglas), v)] == (v, m);
      m
    case None => porDefecto
  }

  /** The predictions for a column of values, one per value, in row order. */
  function Predictions<V(==), L>(col: seq<V>, reglas: Dict<V, L>, porDefecto: L): (ps: seq<L>)
    ensures |ps| == |col|
    ensures forall i :: 0 <= i < |col| ==>
      (col[i] in Keys(reglas) ==> Get(reglas, col[i]) == Some(ps[i]) && (col[i], ps[i]) in reglas) &&
      (col[i] !in Keys(reglas) ==> ps[i] == porDefecto)
  {
    seq(|col|, i requires 0 <= i < |col| => Lookup(reglas, col[i], porDefecto))
  }

  /** `predecir_one_r(X, atributo, reglas, clase_por_defecto)`. `fila[atributo]` raises a
      KeyError on the first row when `atributo` is not a column of `X` (in particular when it is
      the `None` of a `one_r` that kept no column); a frame without rows never reaches it. */
  method Predict<V(==), L>(X: Frame<V>, atributo: Option<string>, reglas: Dict<V, L>, porDefecto: L)
    returns (r: Result<seq<L>>)
    requires WellFormed(X)
    ensures r.Err? <==> X.height > 0 && !(atributo.Some? && HasColumn(X, atributo.value))
    ensures r.Err? ==> r.fault == MissingColumn
    ensures r.Ok? ==> |r.value| == X.height
    ensures r.Ok? && X.height > 0 ==> r.value == Predictions(ColumnNamed(X, atributo.value), reglas, porDefecto)
  {
    var predicciones: seq<L> := [];
    var i := 0;
    while i < X.height
      invariant 0 <= i <= X.height
      invariant i > 0 ==> atributo.Some? && HasColumn(X, atributo.value)
      invariant i > 0 ==> predicciones == Predictions(ColumnNamed(X, atributo.value)[..i], reglas, porDefecto)
      invariant i == 0 ==> predicciones == []
    {
      if atributo.None? || !HasColumn(X, atributo.value) {
        return Err(MissingColumn);
      }
      var columna := ColumnNamed(X, atributo.value);
      var valor := columna[i];
      if valor in Keys(reglas) {
        predicciones := predicciones + [Get(reglas, valor).value];
      } else {
        predicciones := predicciones + [porDefecto];
      }
      assert columna[..i + 1] == columna[..i] + [valor];
      i := i + 1;
    }
    if i > 0 {
      assert ColumnNamed(X, atributo.value)[..i] == ColumnNamed(X, atributo.value);
    }
    return Ok(predicciones);
  }

  // ---------------------------------------------------------------------------------------
  // Predicting the training rows back (cervezas.py lines 161-163)

  /** `sum(1 for pred, real in zip(predicciones, y) if pred == real)`: the pairs that agree. */
  function Hits<L(==)>(pairs: seq<(L, L)>): (n: nat)
    ensures n <= |pairs|
    ensures n == |pairs| <==> forall i :: 0 <= i < |pairs| ==> pairs[i].0 == pairs[i].1
  {
    if pairs == [] then 0
    else
      assert forall i :: 0 <= i < |pairs| - 1 ==> pairs[..|pairs| - 1][i] == pairs[i];
      Hits(pairs[..|pairs| - 1]) + (if pairs[|pairs| - 1].0 == pairs[|pairs| - 1].1 then 1 else 0)
  }

  /** The correct predictions of `ps` against the labels `y`, paired as `zip` pairs them. */
  function Correct<L(==)>(ps: seq<L>, y: seq<L>): (n: nat)
    ensures n <= |ps| && n <= |y|
  {
    Hits(Zip(ps, y))
  }

  /** On the rows a rule was learnt from, every value of the column is a key of the rule, so
      the default label is never used. */
  lemma TrainingUsesNoDefault<V(!new), L(!new)>(col: seq<V>, y: seq<L>)
    requires |col| == |y|
    ensures forall i :: 0 <= i < |col| ==> col[i] in Keys(ColumnRules(Zip(col, y)))
  {
    var rows := Zip(col, y);
    forall i | 0 <= i < |col| ensures col[i] in Keys(ColumnRules(rows)) {
      assert Values(rows)[i] == col[i];
    }
  }

  /** Each row's prediction paired with its label. */
  function Paired<V(==), L>(rows: seq<(V, L)>, reglas: Dict<V, L>, porDefecto: L): seq<(L, L)> {
    seq(|rows|, i requires 0 <= i < |rows| => (Lookup(reglas, rows[i].0, porDefecto), rows[i].1))
  }

  /** Where every row's value has a rule, each row is either a hit or a miss of the rule. */
  lemma {:induction false} HitsAndMisses<V, L>(rows: seq<(V, L)>, reglas: Dict<V, L>, porDefecto: L)
    requires forall i :: 0 <= i < |rows| ==> rows[i].0 in Keys(reglas)
    ensures Hits(Paired(rows, reglas, porDefecto)) + Mismatch(rows, reglas) == |rows|
  {
    if rows != [] {
      var rows' := rows[..|rows| - 1];
      assert forall i :: 0 <= i < |rows'| ==> rows'[i] == rows[i];
      HitsAndMisses(rows', reglas, porDefecto);
      assert Paired(rows, reglas, porDefecto)[..|rows| - 1] == Paired(rows', reglas, porDefecto);
    }
  }

  /** The training round trip: predicting the training rows with the column's own rule gets
      right exactly the rows the rule does not misclassify, `|y| - errores`, whatever the
      default label. */
  lemma TrainingRoundTrip<V(!new), L(!new)>(col: seq<V>, y: seq<L>, porDefecto: L)
    requires |col| == |y|
    ensures Correct(Predictions(col, ColumnRules(Zip(col, y)), porDefecto), y) + ColumnErrors(Zip(col, y)) == |y|
  {
    var rows := Zip(col, y);
    var reglas := ColumnRules(rows);
    TrainingUsesNoDefault(col, y);
    RowsOfZip(col, y);
    HitsAndMisses(rows, reglas, porDefecto);
    PairedIsZip(col, y, reglas, porDefecto);
  }

  lemma RowsOfZip<V, L>(col: seq<V>, y: seq<L>)
    requires |col| == |y|
    ensures |Zip(col, y)| == |col|
    ensures forall i :: 0 <= i < |col| ==> Zip(col, y)[i].0 == col[i]
  {
  }

  /** Pairing each row's prediction with its label is zipping the predictions with the labels. */
  lemma PairedIsZip<V, L>(col: seq<V>, y: seq<L>, reglas: Dict<V, L>, porDefecto: L)
    requires |col| == |y|
    ensures Zip(Predictions(col, reglas, porDefecto), y) == Paired(Zip(col, y), reglas, porDefecto)
  {
    var ps := Predictions(col, reglas, porDefecto);
    forall i | 0 <= i < |col|
      ensures Zip(ps, y)[i] == Paired(Zip(col, y), reglas, porDefecto)[i]
    {
      assert ps[i] == Lookup(reglas, col[i], porDefecto);
    }
  }

  /** Predicting the training frame with what `one_r` returned gets as many rows right as the
      precision `one_r` reported promises: `correctos / len(y)` of line 163 equals it. */
  lemma OneRRoundTrip<V(!new), L(!new)>(X: Frame<V>, y: seq<L>, porDefecto: L)
    requires WellFormed(X) && X.height == |y| && |y| > 0 && |X.columns| > 0 && NoDup(X.names)
    ensures Select(Precisions(X, y)).0.Some?
    ensures var k := Select(Precisions(X, y)).0.value;
      var col := ColumnNamed(X, X.names[k]);
      (Correct(Predictions(col, ColumnRules(Zip(col, y)), porDefecto), y) as real) / (|y| as real)
        == Select(Precisions(X, y)).1
  {
    var ps, es, n := Precisions(X, y), ColumnsErrors(X, y), |y|;
    PrecisionsAreOfErrors(X, y);
    SelectFewestErrors(ps, es, n);
    var k := Select(ps).0.value;
    assert Select(ps).1 == Precision(es[k], n);
    var col := X.columns[k];
    assert ColumnNamed(X, X.names[k]) == col by {
      NameAt(X.names, k);
    }
    TrainingRoundTrip(col, y, porDefecto);
    PrecisionOfHits(Correct(Predictions(col, ColumnRules(Zip(col, y)), porDefecto), y), es[k], n);
  }

  /** In a duplicate-free sequence, an element's first index is its index. */
  lemma NameAt<T>(s: seq<T>, k: nat)
    requires NoDup(s) && k < |s|
    ensures IndexOf(s, s[k]) == k
  {
  }
}
