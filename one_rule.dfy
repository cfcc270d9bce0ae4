/** `one_r` (cervezas.py lines 60-104): for every column, a rule mapping each of its values to
    the majority label of the rows having it; the column whose rule misclassifies fewest
    training rows is kept. */
module OneRule {
  import opened Results
  import opened Seqs
  import opened Dicts
  import opened Counting
  import opened Frames
  import opened ZeroRule

  // ---------------------------------------------------------------------------------------
  // One column: its rows as (value, label) pairs

  function Values<V, L>(rows: seq<(V, L)>): seq<V> {
    seq(|rows|, i requires 0 <= i < |rows| => rows[i].0)
  }

  function Labels<V, L>(rows: seq<(V, L)>): seq<L> {
    seq(|rows|, i requires 0 <= i < |rows| => rows[i].1)
  }

  /** Values and labels of a table with one more row. */
  lemma LastRow<V, L>(rows: seq<(V, L)>)
    requires rows != []
    ensures Values(rows) == Values(rows[..|rows| - 1]) + [rows[|rows| - 1].0]
    ensures Labels(rows) == Labels(rows[..|rows| - 1]) + [rows[|rows| - 1].1]
  {
  }

  /** `y[X[atributo] == valor]` (lines 79-81): the labels of the rows whose value is `v`, in row
      order. */
  function LabelsWhere<V(==), L>(rows: seq<(V, L)>, v: V): (ls: seq<L>)
    ensures ls == [] <==> v !in Values(rows)
    ensures |ls| <= |rows|
  {
    if rows == [] then []
    else
      LastRow(rows);
      var last := rows[|rows| - 1];
      LabelsWhere(rows[..|rows| - 1], v) + (if last.0 == v then [last.1] else [])
  }

  /** `sum(1 for i, etiqueta in enumerate(y) if indices.iloc[i] and etiqueta != m)` (lines
      92-93): the rows having value `v` whose label is not `m`. */
  function PartitionErrors<V(==), L(==)>(rows: seq<(V, L)>, v: V, m: L): nat {
    if rows == [] then 0
    else
      var last := rows[|rows| - 1];
      PartitionErrors(rows[..|rows| - 1], v, m) + (if last.0 == v && last.1 != m then 1 else 0)
  }

  /** The misses of a partition are its rows minus those labelled `m`. */
  lemma {:induction false} PartitionErrorsByCount<V, L>(rows: seq<(V, L)>, v: V, m: L)
    ensures PartitionErrors(rows, v, m) + Count(LabelsWhere(rows, v), m) == |LabelsWhere(rows, v)|
  {
    if rows != [] {
      var last := rows[|rows| - 1];
      PartitionErrorsByCount(rows[..|rows| - 1], v, m);
      if last.0 == v {
        CountAppend(LabelsWhere(rows[..|rows| - 1], v), last.1, m);
      } else {
        assert LabelsWhere(rows, v) == LabelsWhere(rows[..|rows| - 1], v);
      }
    }
  }

  /** 1 when `reglas` has a rule for the row's value and that rule names another label. */
  function Miss<V(==), L(==)>(row: (V, L), reglas: Dict<V, L>): nat {
    match Get(reglas, row.0)
    case Some(m) => if m != row.1 then 1 else 0
    case None => 0
  }

  /** The rows whose label differs from the label `reglas` gives their value. */
  function Mismatch<V(==), L(==)>(rows: seq<(V, L)>, reglas: Dict<V, L>): nat {
    if rows == [] then 0 else Mismatch(rows[..|rows| - 1], reglas) + Miss(rows[|rows| - 1], reglas)
  }

  // ---------------------------------------------------------------------------------------
  // The loop of lines 77-93 over the distinct values of one column

  /** `reglas` once the loop has handled the values `vs` (in that order). */
  function RulesOver<V(==,!new), L(==,!new)>(rows: seq<(V, L)>, vs: seq<V>): Dict<V, L> {
    if vs == [] then []
    else
      var p := RulesOver(rows, vs[..|vs| - 1]);
      var v := vs[|vs| - 1];
      match Majority(LabelsWhere(rows, v))
      case None => p
      case Some(m) => Put(p, v, m)
  }

  /** After the values `vs`, `reglas` gives each of them the majority label of its rows and
      nothing else a rule; over distinct values that all occur, it is keyed in visiting order. */
  lemma {:induction false} RulesOverFacts<V(!new), L(!new)>(rows: seq<(V, L)>, vs: seq<V>)
    ensures forall v :: Get(RulesOver(rows, vs), v) == if v in vs then Majority(LabelsWhere(rows, v)) else None
    ensures NoDup(vs) && (forall i :: 0 <= i < |vs| ==> vs[i] in Values(rows)) ==> Keys(RulesOver(rows, vs)) == vs
  {
    if vs != [] {
      var p := RulesOver(rows, vs[..|vs| - 1]);
      RulesOverFacts(rows, vs[..|vs| - 1]);
      RulesOverStep(rows, vs, p);
      RulesOverKeysStep(rows, vs, p);
    }
  }

  /** One pass of the loop body keeps `reglas` a majority rule for the values seen so far ... */
  lemma RulesOverStep<V(!new), L(!new)>(rows: seq<(V, L)>, vs: seq<V>, p: Dict<V, L>)
    requires vs != []
    requires forall v :: Get(p, v) == if v in vs[..|vs| - 1] then Majority(LabelsWhere(rows, v)) else None
    ensures var v := vs[|vs| - 1];
      var r := match Majority(LabelsWhere(rows, v)) case None => p case Some(m) => Put(p, v, m);
      forall w :: Get(r, w) == if w in vs then Majority(LabelsWhere(rows, w)) else None
  {
    var vs', v := vs[..|vs| - 1], vs[|vs| - 1];
    var r := match Majority(LabelsWhere(rows, v)) case None => p case Some(m) => Put(p, v, m);
    forall w ensures Get(r, w) == if w in vs then Majority(LabelsWhere(rows, w)) else None {
      if w != v {
        LastDiffers(vs, w);
        assert Get(r, w) == Get(p, w);
      } else {
        assert w in vs;
      }
    }
  }

  /** ... and, over distinct values that all occur, keys them in the order they were visited. */
  lemma RulesOverKeysStep<V(!new), L(!new)>(rows: seq<(V, L)>, vs: seq<V>, p: Dict<V, L>)
    requires vs != []
    requires NoDup(vs[..|vs| - 1]) && (forall i :: 0 <= i < |vs| - 1 ==> vs[i] in Values(rows)) ==>
               Keys(p) == vs[..|vs| - 1]
    ensures var v := vs[|vs| - 1];
      var r := match Majority(LabelsWhere(rows, v)) case None => p case Some(m) => Put(p, v, m);
      NoDup(vs) && (forall i :: 0 <= i < |vs| ==> vs[i] in Values(rows)) ==> Keys(r) == vs
  {
    var vs', v := vs[..|vs| - 1], vs[|vs| - 1];
    if NoDup(vs) && (forall i :: 0 <= i < |vs| ==> vs[i] in Values(rows)) {
      assert NoDup(vs') && forall i :: 0 <= i < |vs'| ==> vs'[i] in Values(rows);
      assert vs == vs' + [v];
      assert v !in vs';
      assert v in Values(rows);
    }
  }

  /** `errores` once the loop has handled the values `vs`. */
  function ErrorsOver<V(==,!new), L(==,!new)>(rows: seq<(V, L)>, vs: seq<V>): nat {
    if vs == [] then 0
    else
      var v := vs[|vs| - 1];
      ErrorsOver(rows, vs[..|vs| - 1]) +
        match Majority(LabelsWhere(rows, v))
        case None => 0
        case Some(m) => PartitionErrors(rows, v, m)
  }

  // ---------------------------------------------------------------------------------------
  // What the loop computes for one column

  /** The rule `one_r` builds for one column: each distinct value, in order of first
      appearance, mapped to the majority label of the rows having that value. */
  function ColumnRules<V(==,!new), L(==,!new)>(rows: seq<(V, L)>): (reglas: Dict<V, L>)
    ensures Keys(reglas) == Distinct(Values(rows))
    ensures forall v :: Get(reglas, v) == if v in Values(rows) then Majority(LabelsWhere(rows, v)) else None
  {
    RulesOverFacts(rows, Distinct(Values(rows)));
    RulesOver(rows, Distinct(Values(rows)))
  }

  /** The training rows that rule misclassifies. */
  function ColumnErrors<V(==,!new), L(==,!new)>(rows: seq<(V, L)>): nat {
    Mismatch(rows, ColumnRules(rows))
  }

  /** The misses of every value's partition under the label `reglas` gives that value. */
  function SumDict<V(==), L(==)>(rows: seq<(V, L)>, vs: seq<V>, reglas: Dict<V, L>): nat {
    if vs == [] then 0 else SumDict(rows, vs[..|vs| - 1], reglas) + PartMiss(rows, vs[|vs| - 1], reglas)
  }

  function PartMiss<V(==), L(==)>(rows: seq<(V, L)>, v: V, reglas: Dict<V, L>): nat {
    match Get(reglas, v)
    case None => 0
    case Some(m) => PartitionErrors(rows, v, m)
  }

  lemma PartitionErrorsAppend<V, L>(rows: seq<(V, L)>, x: (V, L), v: V, m: L)
    ensures PartitionErrors(rows + [x], v, m) ==
      PartitionErrors(rows, v, m) + if x.0 == v && x.1 != m then 1 else 0
  {
    assert (rows + [x])[..|rows|] == rows;
  }

  /** A new row adds its own miss to the partition of its value and to no other. */
  lemma {:induction false} SumDictStep<V, L>(rows: seq<(V, L)>, x: (V, L), vs: seq<V>, reglas: Dict<V, L>)
    requires NoDup(vs)
    ensures SumDict(rows + [x], vs, reglas) == SumDict(rows, vs, reglas) + if x.0 in vs then Miss(x, reglas) else 0
  {
    if vs != [] {
      var vs', v := vs[..|vs| - 1], vs[|vs| - 1];
      assert NoDup(vs');
      SumDictStep(rows, x, vs', reglas);
      LastDiffers(vs, x.0);
      match Get(reglas, v) {
        case None =>
        case Some(m) => PartitionErrorsAppend(rows, x, v, m);
      }
    }
  }

  lemma {:induction false} SumDictEmpty<V, L>(vs: seq<V>, reglas: Dict<V, L>)
    ensures SumDict([], vs, reglas) == 0
  {
    if vs != [] {
      SumDictEmpty(vs[..|vs| - 1], reglas);
    }
  }

  /** Adding up the misses partition by partition counts every misclassified row once, when
      the partitions are those of distinct values covering every row. */
  lemma {:induction false} PartitionSum<V, L>(rows: seq<(V, L)>, vs: seq<V>, reglas: Dict<V, L>)
    requires NoDup(vs)
    requires forall i :: 0 <= i < |rows| ==> rows[i].0 in vs
    ensures SumDict(rows, vs, reglas) == Mismatch(rows, reglas)
  {
    if rows == [] {
      SumDictEmpty(vs, reglas);
    } else {
      var rows', x := rows[..|rows| - 1], rows[|rows| - 1];
      PartitionSum(rows', vs, reglas);
      SumDictStep(rows', x, vs, reglas);
      assert rows' + [x] == rows;
    }
  }

  /** The loop's error count is the partition sum under any dict that agrees with the
      majority rule on the visited values. */
  lemma {:induction false} ErrorsOverIsSum<V(!new), L(!new)>(rows: seq<(V, L)>, vs: seq<V>, reglas: Dict<V, L>)
    requires forall v :: v in vs ==> Get(reglas, v) == Majority(LabelsWhere(rows, v))
    ensures ErrorsOver(rows, vs) == SumDict(rows, vs, reglas)
  {
    if vs != [] {
      var vs' := vs[..|vs| - 1];
      forall v | v in vs' ensures v in vs { }
      ErrorsOverIsSum(rows, vs', reglas);
    }
  }

  /** Every partition's majority misses no more of its rows than any fixed label `g` does. */
  lemma {:induction false} ErrorsBelow<V(!new), L(!new)>(rows: seq<(V, L)>, vs: seq<V>, reglas: Dict<V, L>, g: L)
    requires forall v :: v in vs ==> Get(reglas, v) == Some(g)
    ensures ErrorsOver(rows, vs) <= SumDict(rows, vs, reglas)
  {
    if vs != [] {
      var vs', v := vs[..|vs| - 1], vs[|vs| - 1];
      forall w | w in vs' ensures w in vs { }
      ErrorsBelow(rows, vs', reglas, g);
      var ls := LabelsWhere(rows, v);
      if ls != [] {
        var m := Majority(ls).value;
        MajorityIsFirstMode(ls);
        PartitionErrorsByCount(rows, v, m);
        PartitionErrorsByCount(rows, v, g);
      }
    }
  }

  /** The rule that gives every value of `vs` the label `g`. */
  ghost function Uniform<V(!new), L>(vs: seq<V>, g: L): (d: Dict<V, L>)
    ensures forall v :: Get(d, v) == if v in vs then Some(g) else None
  {
    var d := seq(|vs|, i requires 0 <= i < |vs| => (vs[i], g));
    assert Keys(d) == vs;
    d
  }

  /** A rule giving every row's value the label `g` misses exactly the rows not labelled `g`. */
  lemma {:induction false} MismatchConst<V, L>(rows: seq<(V, L)>, reglas: Dict<V, L>, g: L)
    requires forall i :: 0 <= i < |rows| ==> Get(reglas, rows[i].0) == Some(g)
    ensures Mismatch(rows, reglas) + Count(Labels(rows), g) == |rows|
  {
    if rows != [] {
      var rows' := rows[..|rows| - 1];
      MismatchConst(rows', reglas, g);
      LastRow(rows);
      CountAppend(Labels(rows'), rows[|rows| - 1].1, g);
    }
  }

  /** Every row's value is among the distinct values of the column. */
  lemma ValuesOccur<V(!new), L>(rows: seq<(V, L)>)
    ensures forall i :: 0 <= i < |rows| ==> rows[i].0 in Values(rows) && rows[i].0 in Distinct(Values(rows))
  {
    forall i | 0 <= i < |rows| ensures rows[i].0 in Values(rows) && rows[i].0 in Distinct(Values(rows)) {
      assert Values(rows)[i] == rows[i].0;
    }
  }

  /** The loop over the distinct values computes the misclassified rows of the column. */
  lemma ColumnErrorsAreErrorsOver<V(!new), L(!new)>(rows: seq<(V, L)>)
    ensures ErrorsOver(rows, Distinct(Values(rows))) == ColumnErrors(rows)
  {
    var ds := Distinct(Values(rows));
    ValuesOccur(rows);
    var reglas := ColumnRules(rows);
    ErrorsOverIsSum(rows, ds, reglas);
    PartitionSum(rows, ds, reglas);
  }

  /** One-R per column is never worse than predicting a single label: the rule misses at
      most the rows not labelled `g`, whatever `g` is. */
  lemma ColumnErrorsBound<V(!new), L(!new)>(rows: seq<(V, L)>, g: L)
    ensures ColumnErrors(rows) + Count(Labels(rows), g) <= |rows|
  {
    var ds := Distinct(Values(rows));
    ValuesOccur(rows);
    var u := Uniform(ds, g);
    ColumnErrorsAreErrorsOver(rows);
    ErrorsBelow(rows, ds, u, g);
    assert forall i :: 0 <= i < |rows| ==> Get(u, rows[i].0) == Some(g);
    PartitionSum(rows, ds, u);
    MismatchConst(rows, u, g);
  }

  /** A column that holds rows at all misclassifies fewer rows than it holds: the rule for
      any row's value gets at least that row's label right for `g` = its label. */
  lemma ColumnErrorsBelowRows<V(!new), L(!new)>(rows: seq<(V, L)>)
    requires rows != []
    ensures ColumnErrors(rows) < |rows|
  {
    ColumnErrorsBound(rows, rows[0].1);
    assert Labels(rows)[0] == rows[0].1;
  }

  // ---------------------------------------------------------------------------------------
  // Precision and the choice of the column (lines 95-102)

  /** Line 96: `1 - (errores / len(y)) if len(y) > 0 else 0`. */
  function Precision(errores: nat, n: nat): real {
    if n > 0 then 1.0 - (errores as real) / (n as real) else 0.0
  }

  function ColumnPrecision<V(==,!new), L(==,!new)>(rows: seq<(V, L)>): real {
    Precision(ColumnErrors(rows), |rows|)
  }

  /** The precision of every column of `X`, in `X.columns` order. */
  function Precisions<V(==,!new), L(==,!new)>(X: Frame<V>, y: seq<L>): seq<real> {
    seq(|X.columns|, j requires 0 <= j < |X.columns| => ColumnPrecision(Zip(X.columns[j], y)))
  }

  /** The error count of every column of `X`, in `X.columns` order. */
  function ColumnsErrors<V(==,!new), L(==,!new)>(X: Frame<V>, y: seq<L>): seq<nat> {
    seq(|X.columns|, j requires 0 <= j < |X.columns| => ColumnErrors(Zip(X.columns[j], y)))
  }

  /** Lines 67-68 and 98-102: the scan that starts from no column and precision 0 and takes a
      column only when its precision is strictly greater than the best so far. Returns the
      position of the column kept and the precision kept. */
  function Select(ps: seq<real>): (r: (Option<nat>, real))
    ensures r.0.None? <==> forall j :: 0 <= j < |ps| ==> ps[j] <= 0.0
    ensures r.0.None? ==> r.1 == 0.0
    ensures r.0.Some? ==>
      && r.0.value < |ps|
      && r.1 == ps[r.0.value] > 0.0
      && (forall j :: 0 <= j < |ps| ==> ps[j] <= r.1)
      && (forall j :: 0 <= j < r.0.value ==> ps[j] < r.1)
  {
    if ps == [] then (None, 0.0)
    else
      var best := Select(ps[..|ps| - 1]);
      var p := ps[|ps| - 1];
      assert forall j :: 0 <= j < |ps| - 1 ==> ps[..|ps| - 1][j] == ps[j];
      if p > best.1 then (Some(|ps| - 1), p) else best
  }

  /** For a fixed number of rows, a higher precision is a lower error count. */
  lemma PrecisionOrder(e1: nat, e2: nat, n: nat)
    requires n > 0
    ensures Precision(e1, n) > Precision(e2, n) <==> e1 < e2
  {
    var a, b, m := e1 as real, e2 as real, n as real;
    assert a / m * m == a && b / m * m == b;
    if a < b {
      assert (b - a) / m > 0.0;
    }
  }

  /** Precision is positive exactly when some row is classified right. */
  lemma PrecisionPositive(e: nat, n: nat)
    requires n > 0
    ensures Precision(e, n) > 0.0 <==> e < n
  {
    var a, m := e as real, n as real;
    assert a / m * m == a;
  }

  /** No error is precision 1, on any rows at all. */
  lemma PrecisionNoErrors(n: nat)
    ensures Precision(0, n) == if n > 0 then 1.0 else 0.0
  {
  }

  /** Precision as the share of rows classified right. */
  lemma PrecisionIsRatio(e: nat, n: nat)
    requires 0 < n && e <= n
    ensures Precision(e, n) == ((n - e) as real) / (n as real)
  {
    var a, m := e as real, n as real;
    assert a / m * m == a;
    assert ((n - e) as real) / m * m == m - a;
  }

  // ---------------------------------------------------------------------------------------
  // The imperative code

  /** Lines 73-93, the body of the loop over the columns: build the rule of one column value
      by value and add up its misses. */
  method EvaluateColumn<V(==,!new), L(==,!new)>(col: seq<V>, y: seq<L>)
    returns (reglas: Dict<V, L>, errores: nat)
    requires |col| == |y|
    ensures reglas == ColumnRules(Zip(col, y))
    ensures errores == ColumnErrors(Zip(col, y))
  {
    var rows := Zip(col, y);
    ValuesOfZip(col, y);
    var valores := Distinct(col);
    reglas, errores := [], 0;
    for j := 0 to |valores|
      invariant reglas == RulesOver(rows, valores[..j])
      invariant errores == ErrorsOver(rows, valores[..j])
    {
      var valor := valores[j];
      OverNext(rows, valores, j);
      var clasesValor := LabelsWhere(rows, valor);
      if |clasesValor| > 0 {
        var claseMayoritaria := Majority(clasesValor).value;
        reglas := Put(reglas, valor, claseMayoritaria);
        errores := errores + PartitionErrors(rows, valor, claseMayoritaria);
      }
    }
    assert valores[..|valores|] == valores;
    assert reglas == RulesOver(rows, Distinct(Values(rows)));
    ColumnErrorsAreErrorsOver(rows);
  }

  /** The values of zipped rows are the column zipped. */
  lemma ValuesOfZip<V, L>(col: seq<V>, y: seq<L>)
    requires |col| == |y|
    ensures Values(Zip(col, y)) == col
  {
  }

  /** Handling one more value is one more step of `RulesOver` and `ErrorsOver`: nothing when
      no row has the value, otherwise the rule and the misses of its majority label. */
  lemma OverNext<V(!new), L(!new)>(rows: seq<(V, L)>, vs: seq<V>, j: nat)
    requires j < |vs|
    ensures var ls := LabelsWhere(rows, vs[j]);
      if |ls| > 0 then
        && RulesOver(rows, vs[..j + 1]) == Put(RulesOver(rows, vs[..j]), vs[j], Majority(ls).value)
        && ErrorsOver(rows, vs[..j + 1]) == ErrorsOver(rows, vs[..j]) + PartitionErrors(rows, vs[j], Majority(ls).value)
      else
        && RulesOver(rows, vs[..j + 1]) == RulesOver(rows, vs[..j])
        && ErrorsOver(rows, vs[..j + 1]) == ErrorsOver(rows, vs[..j])
  {
    assert vs[..j + 1] == vs[..j] + [vs[j]];
    RulesSnoc(rows, vs[..j], vs[j]);
    ErrorsSnoc(rows, vs[..j], vs[j]);
  }

  lemma RulesSnoc<V(!new), L(!new)>(rows: seq<(V, L)>, ws: seq<V>, v: V)
    ensures RulesOver(rows, ws + [v]) ==
      match Majority(LabelsWhere(rows, v))
      case None => RulesOver(rows, ws)
      case Some(m) => Put(RulesOver(rows, ws), v, m)
  {
    assert (ws + [v])[..|ws|] == ws;
  }

  lemma ErrorsSnoc<V(!new), L(!new)>(rows: seq<(V, L)>, ws: seq<V>, v: V)
    ensures ErrorsOver(rows, ws + [v]) == ErrorsOver(rows, ws) +
      match Majority(LabelsWhere(rows, v))
      case None => 0
      case Some(m) => PartitionErrors(rows, v, m)
  {
    assert (ws + [v])[..|ws|] == ws;
  }

  /** Looking at one more column is one more step of `Select`. */
  lemma SelectNext(ps: seq<real>, j: nat)
    requires j < |ps|
    ensures Select(ps[..j + 1]) == if ps[j] > Select(ps[..j]).1 then (Some(j), ps[j]) else Select(ps[..j])
  {
    assert ps[..j + 1][..j] == ps[..j];
  }

  /** `one_r(X, y)` (lines 60-104): the column kept, its rule and its precision; `None`, no rule
      and 0 when no column scores above 0. */
  method OneR<V(==,!new), L(==,!new)>(X: Frame<V>, y: seq<L>)
    returns (atributo: Option<string>, reglas: Dict<V, L>, precision: real)
    requires WellFormed(X) && X.height == |y|
    ensures var best := Select(Precisions(X, y));
      && precision == best.1
      && atributo == (if best.0.Some? then Some(X.names[best.0.value]) else None)
      && reglas == (if best.0.Some? then ColumnRules(Zip(X.columns[best.0.value], y)) else [])
  {
    ghost var ps := Precisions(X, y);
    atributo, precision, reglas := None, 0.0, [];
    for j := 0 to |X.columns|
      invariant var best := Select(ps[..j]);
        && precision == best.1
        && atributo == (if best.0.Some? then Some(X.names[best.0.value]) else None)
        && reglas == (if best.0.Some? then ColumnRules(Zip(X.columns[best.0.value], y)) else [])
    {
      var reglasAtributo, errores := EvaluateColumn(X.columns[j], y);
      var precisionAtributo := if |y| > 0 then 1.0 - (errores as real) / (|y| as real) else 0.0;
      SelectNext(ps, j);
      PrecisionAt(X, y, j);
      if precisionAtributo > precision {
        atributo, precision, reglas := Some(X.names[j]), precisionAtributo, reglasAtributo;
      }
    }
    assert ps[..|X.columns|] == ps;
  }

  /** Line 96: the precision of column `j` out of its error count. */
  lemma PrecisionAt<V(!new), L(!new)>(X: Frame<V>, y: seq<L>, j: nat)
    requires WellFormed(X) && X.height == |y| && j < |X.columns|
    ensures Precisions(X, y)[j] ==
      var e := ColumnErrors(Zip(X.columns[j], y));
      if |y| > 0 then 1.0 - (e as real) / (|y| as real) else 0.0
  {
    assert |Zip(X.columns[j], y)| == |y|;
  }

  // ---------------------------------------------------------------------------------------
  // What the choice of `one_r` amounts to

  /** `k` is the first position holding the smallest error count. */
  predicate FewestFirst(es: seq<nat>, k: nat) {
    && k < |es|
    && (forall j :: 0 <= j < |es| ==> es[k] <= es[j])
    && (forall j :: 0 <= j < k ==> es[k] < es[j])
  }

  /** Each column's precision is that of its error count over the |y| rows. */
  lemma PrecisionsAreOfErrors<V(!new), L(!new)>(X: Frame<V>, y: seq<L>)
    requires WellFormed(X) && X.height == |y|
    ensures |Precisions(X, y)| == |ColumnsErrors(X, y)| == |X.columns|
    ensures forall j :: 0 <= j < |X.columns| ==>
      Precisions(X, y)[j] == Precision(ColumnsErrors(X, y)[j], |y|) &&
      (|y| > 0 ==> ColumnsErrors(X, y)[j] < |y|)
  {
    forall j | 0 <= j < |X.columns|
      ensures Precisions(X, y)[j] == Precision(ColumnsErrors(X, y)[j], |y|)
      ensures |y| > 0 ==> ColumnsErrors(X, y)[j] < |y|
    {
      var rows := Zip(X.columns[j], y);
      assert |rows| == |y|;
      if |y| > 0 {
        ColumnErrorsBelowRows(rows);
      }
    }
  }

  /** The scan over precisions of error counts below `n` picks the first fewest-errors position. */
  lemma SelectFewestErrors(ps: seq<real>, es: seq<nat>, n: nat)
    requires n > 0 && |ps| == |es|
    requires forall j :: 0 <= j < |es| ==> ps[j] == Precision(es[j], n) && es[j] < n
    ensures Select(ps).0.None? <==> |es| == 0
    ensures forall k: nat :: Select(ps).0 == Some(k) <==> FewestFirst(es, k)
  {
    var best := Select(ps);
    forall j | 0 <= j < |ps| ensures ps[j] > 0.0 {
      PrecisionPositive(es[j], n);
    }
    if best.0.Some? {
      var k := best.0.value;
      forall j | 0 <= j < |es| ensures es[k] <= es[j] && (j < k ==> es[k] < es[j]) {
        PrecisionOrder(es[j], es[k], n);
        PrecisionOrder(es[k], es[j], n);
      }
      assert FewestFirst(es, k);
      assert forall k': nat :: FewestFirst(es, k') ==> k' == k;
    } else {
      assert |es| == 0;
    }
  }

  /** With at least one row, `one_r` keeps a column exactly when `X` has one, and the column it
      keeps is the first of those misclassifying fewest rows: ties go to the earlier column. */
  lemma OneRFewestErrors<V(!new), L(!new)>(X: Frame<V>, y: seq<L>)
    requires WellFormed(X) && X.height == |y| && |y| > 0
    ensures Select(Precisions(X, y)).0.None? <==> |X.columns| == 0
    ensures forall k: nat :: Select(Precisions(X, y)).0 == Some(k) <==> FewestFirst(ColumnsErrors(X, y), k)
  {
    PrecisionsAreOfErrors(X, y);
    SelectFewestErrors(Precisions(X, y), ColumnsErrors(X, y), |y|);
  }

  /** Without rows every precision is 0, which never beats the seed: `(None, {}, 0)`. */
  lemma OneRNoRows<V(!new), L(!new)>(X: Frame<V>, y: seq<L>)
    requires WellFormed(X) && X.height == |y| && |y| == 0
    ensures Select(Precisions(X, y)) == (None, 0.0)
  {
    PrecisionsAreOfErrors(X, y);
  }

  /** `one_r` keeps no column exactly when there are no rows or no columns to choose from. */
  lemma OneRNone<V(!new), L(!new)>(X: Frame<V>, y: seq<L>)
    requires WellFormed(X) && X.height == |y|
    ensures Select(Precisions(X, y)).0.None? <==> |y| == 0 || |X.columns| == 0
  {
    if |y| == 0 {
      OneRNoRows(X, y);
    } else {
      OneRFewestErrors(X, y);
    }
  }

  /** A column's rule misclassifies no more rows than predicting any one label `g` for all. */
  lemma ColumnAtLeastConstant<V(!new), L(!new)>(rows: seq<(V, L)>, g: L)
    requires |rows| > 0
    ensures ColumnPrecision(rows) >= (Count(Labels(rows), g) as real) / (|rows| as real)
  {
    ColumnErrorsBound(rows, g);
    PrecisionAtLeast(ColumnErrors(rows), Count(Labels(rows), g), |rows|);
  }

  /** The precision `one_r` reports is at least the precision `zero_r` reports on the same
      data (the comparison `main` prints): every column's rule does at least as well as the
      global majority label, and with a column to choose from the best of them is kept. */
  lemma OneRAtLeastZeroR<V(!new), L(!new)>(X: Frame<V>, y: seq<L>)
    requires WellFormed(X) && X.height == |y| && |y| > 0 && |X.columns| > 0
    ensures ZeroR(X, y).Ok?
    ensures forall j :: 0 <= j < |X.columns| ==> Precisions(X, y)[j] >= ZeroR(X, y).value.precision
    ensures Select(Precisions(X, y)).1 >= ZeroR(X, y).value.precision
  {
    var ps := Precisions(X, y);
    var zr := ZeroR(X, y);
    assert zr.Ok?;
    var z := zr.value;
    forall j | 0 <= j < |X.columns| ensures ps[j] >= z.precision {
      ColumnAtLeast(X, y, j, z.clase);
    }
    assert ps[0] >= z.precision > 0.0;
    var s := Select(ps);
    assert s.0.Some? && s.1 >= ps[0];
  }

  /** Column `j` does at least as well as predicting `g` for every row. */
  lemma ColumnAtLeast<V(!new), L(!new)>(X: Frame<V>, y: seq<L>, j: nat, g: L)
    requires WellFormed(X) && X.height == |y| && |y| > 0 && j < |X.columns|
    ensures Precisions(X, y)[j] >= (Count(y, g) as real) / (|y| as real)
  {
    var rows := Zip(X.columns[j], y);
    assert |rows| == |y|;
    assert Labels(rows) == y;
    ColumnAtLeastConstant(rows, g);
  }

  /** Misclassifying at most the rows other than `k` of them is a precision of at least
      `k / n`. */
  lemma PrecisionAtLeast(e: nat, k: nat, n: nat)
    requires n > 0 && e + k <= n
    ensures Precision(e, n) >= (k as real) / (n as real)
  {
    PrecisionIsRatio(e, n);
    RatioMonotone(k, n - e, n);
  }

  /** Hits and misses that make up all `n` rows: the hit ratio is the precision. */
  lemma PrecisionOfHits(c: nat, e: nat, n: nat)
    requires n > 0 && c + e == n
    ensures (c as real) / (n as real) == Precision(e, n)
  {
    PrecisionIsRatio(e, n);
  }

  /** Division by a positive count keeps the order. */
  lemma RatioMonotone(a: nat, b: nat, n: nat)
    requires a <= b && n > 0
    ensures (a as real) / (n as real) <= (b as real) / (n as real)
  {
    var m := n as real;
    assert (a as real) / m * m == a as real;
    assert (b as real) / m * m == b as real;
  }

  // ---------------------------------------------------------------------------------------
  // Boundary cases: a perfectly predictive column, a column with a single value

  /** Rows that agree on the value always agree on the label. */
  predicate Consistent<V(==), L(==)>(rows: seq<(V, L)>) {
    forall i, j :: 0 <= i < |rows| && 0 <= j < |rows| && rows[i].0 == rows[j].0 ==> rows[i].1 == rows[j].1
  }

  /** Every label of a partition is the label of some row having that value. */
  lemma {:induction false} LabelsWhereFrom<V, L>(rows: seq<(V, L)>, v: V, l: L)
    requires l in LabelsWhere(rows, v)
    ensures exists j :: 0 <= j < |rows| && rows[j] == (v, l)
  {
    var rows', last := rows[..|rows| - 1], rows[|rows| - 1];
    if l in LabelsWhere(rows', v) {
      LabelsWhereFrom(rows', v, l);
      var j :| 0 <= j < |rows'| && rows'[j] == (v, l);
      assert rows[j] == rows'[j];
    } else {
      assert last == (v, l);
    }
  }

  /** A rule that misses no row single-handedly misses no rows. */
  lemma {:induction false} MismatchNone<V, L>(rows: seq<(V, L)>, reglas: Dict<V, L>)
    requires forall i :: 0 <= i < |rows| ==> Miss(rows[i], reglas) == 0
    ensures Mismatch(rows, reglas) == 0
  {
    if rows != [] {
      var rows' := rows[..|rows| - 1];
      assert forall i :: 0 <= i < |rows'| ==> rows'[i] == rows[i];
      MismatchNone(rows', reglas);
    }
  }

  /** A column whose value determines the label gets every training row right. */
  lemma ConsistentColumnErrorFree<V(!new), L(!new)>(rows: seq<(V, L)>)
    requires Consistent(rows)
    ensures ColumnErrors(rows) == 0
    ensures ColumnPrecision(rows) == if |rows| > 0 then 1.0 else 0.0
  {
    ConsistentNoMiss(rows);
    MismatchNone(rows, ColumnRules(rows));
    assert ColumnPrecision(rows) == Precision(0, |rows|);
    PrecisionNoErrors(|rows|);
  }

  /** In a consistent column the rule misses no row. */
  lemma ConsistentNoMiss<V(!new), L(!new)>(rows: seq<(V, L)>)
    requires Consistent(rows)
    ensures forall i :: 0 <= i < |rows| ==> Miss(rows[i], ColumnRules(rows)) == 0
  {
    forall i | 0 <= i < |rows| ensures Miss(rows[i], ColumnRules(rows)) == 0 {
      ConsistentRowHit(rows, i);
    }
  }

  /** In a consistent column the rule for a row's value is that row's label. */
  lemma ConsistentRowHit<V(!new), L(!new)>(rows: seq<(V, L)>, i: nat)
    requires Consistent(rows) && i < |rows|
    ensures Miss(rows[i], ColumnRules(rows)) == 0
  {
    var v := rows[i].0;
    assert Values(rows)[i] == v;
    var ls := LabelsWhere(rows, v);
    assert ls != [];
    var m := Majority(ls).value;
    assert Get(ColumnRules(rows), v) == Some(m);
    LabelsWhereFrom(rows, v, m);
    var j :| 0 <= j < |rows| && rows[j] == (v, m);
    assert rows[i].1 == m;
  }

  /** With rows to learn from, the first column whose rule is error-free is the one kept, with
      precision 1: a perfectly predictive first column is always chosen. */
  lemma OneRTakesFirstPerfect<V(!new), L(!new)>(X: Frame<V>, y: seq<L>, c: nat)
    requires WellFormed(X) && X.height == |y| && |y| > 0 && c < |X.columns|
    requires ColumnErrors(Zip(X.columns[c], y)) == 0
    requires forall j :: 0 <= j < c ==> ColumnErrors(Zip(X.columns[j], y)) > 0
    ensures Select(Precisions(X, y)) == (Some(c), 1.0)
  {
    PrecisionsAreOfErrors(X, y);
    ColumnsErrorsAt(X, y);
    SelectFirstPerfect(Precisions(X, y), ColumnsErrors(X, y), |y|, c);
  }

  /** The error counts of the columns, one by one. */
  lemma ColumnsErrorsAt<V(!new), L(!new)>(X: Frame<V>, y: seq<L>)
    ensures |ColumnsErrors(X, y)| == |X.columns|
    ensures forall j :: 0 <= j < |X.columns| ==> ColumnsErrors(X, y)[j] == ColumnErrors(Zip(X.columns[j], y))
  {
  }

  /** The scan over precisions of error counts keeps the first error-free position, with 1. */
  lemma SelectFirstPerfect(ps: seq<real>, es: seq<nat>, n: nat, c: nat)
    requires n > 0 && |ps| == |es| && c < |es|
    requires forall j :: 0 <= j < |es| ==> ps[j] == Precision(es[j], n) && es[j] < n
    requires es[c] == 0 && forall j :: 0 <= j < c ==> es[j] > 0
    ensures Select(ps) == (Some(c), 1.0)
  {
    assert ps[c] == 1.0;
    forall j | 0 <= j < |ps| ensures ps[j] <= 1.0 && (j < c ==> ps[j] < 1.0) {
      PrecisionAtMostOne(es[j], n);
    }
    var r := Select(ps);
    assert r.0.Some?;
    assert r.1 == 1.0;
    assert r.0.value == c;
  }

  /** Precision is at most 1, and below 1 once a row is misclassified. */
  lemma PrecisionAtMostOne(e: nat, n: nat)
    requires n > 0
    ensures Precision(e, n) <= 1.0 && (e > 0 ==> Precision(e, n) < 1.0)
  {
    var a, m := e as real, n as real;
    assert a / m * m == a;
  }

  /** A partition covering every row holds all the labels. */
  lemma {:induction false} LabelsWhereAll<V, L>(rows: seq<(V, L)>, v: V)
    requires forall i :: 0 <= i < |rows| ==> rows[i].0 == v
    ensures LabelsWhere(rows, v) == Labels(rows)
  {
    if rows != [] {
      var rows' := rows[..|rows| - 1];
      assert forall i :: 0 <= i < |rows'| ==> rows'[i] == rows[i];
      LabelsWhereAll(rows', v);
      LastRow(rows);
    }
  }

  /** A column holding one value throughout gets one rule, to the overall majority label ... */
  lemma SingleValueRules<V(!new), L(!new)>(rows: seq<(V, L)>)
    requires rows != [] && forall i :: 0 <= i < |rows| ==> rows[i].0 == rows[0].0
    ensures Majority(Labels(rows)).Some?
    ensures ColumnRules(rows) == [(rows[0].0, Majority(Labels(rows)).value)]
  {
    var v := rows[0].0;
    ValuesConstant(rows);
    LabelsWhereAll(rows, v);
    assert Values(rows)[0] == v;
    Singleton(ColumnRules(rows), v, Majority(Labels(rows)).value);
  }

  /** A column holding one value throughout has just that one distinct value. */
  lemma ValuesConstant<V(!new), L>(rows: seq<(V, L)>)
    requires rows != [] && forall i :: 0 <= i < |rows| ==> rows[i].0 == rows[0].0
    ensures Distinct(Values(rows)) == [rows[0].0]
  {
    DistinctConstant(Values(rows), rows[0].0);
  }

  /** ... and the precision of predicting that label for every row, which is what `zero_r`
      reports. */
  lemma SingleValueColumn<V(!new), L(!new)>(rows: seq<(V, L)>)
    requires rows != [] && forall i :: 0 <= i < |rows| ==> rows[i].0 == rows[0].0
    ensures Majority(Labels(rows)).Some?
    ensures ColumnErrors(rows) + Count(Labels(rows), Majority(Labels(rows)).value) == |rows|
    ensures ColumnPrecision(rows) == (Count(Labels(rows), Majority(Labels(rows)).value) as real) / (|rows| as real)
  {
    var m := Majority(Labels(rows)).value;
    SingleValueRules(rows);
    MismatchConst(rows, ColumnRules(rows), m);
    PrecisionOfHits(Count(Labels(rows), m), ColumnErrors(rows), |rows|);
  }
}
