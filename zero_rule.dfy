/** `zero_r` (cervezas.py lines 42-58): always predict the majority label. */
module ZeroRule {
  import opened Results
  import opened Seqs
  import opened Counting
  import opened Frames

  /** What `zero_r` returns: the majority label and its training accuracy. */
  datatype ZeroRModel<L> = ZeroRModel(clase: L, precision: real)

  /** `zero_r(X, y)`. The features are not consulted. On an empty `y` the source fails with an
      IndexError at `most_common(1)[0]`, so the `else 0` of its accuracy line never runs. */
  function ZeroR<V, L(==,!new)>(X: Frame<V>, y: seq<L>): (r: Result<ZeroRModel<L>>)
    ensures r.Err? <==> y == []
    ensures r.Err? ==> r.fault == EmptyInput
    ensures r.Ok? ==>
      && r.value.clase in y
      && (forall x :: Count(y, x) <= Count(y, r.value.clase))
      && (forall i :: 0 <= i < |y| && Count(y, y[i]) == Count(y, r.value.clase) ==> r.value.clase in y[..i + 1])
      && r.value.precision == (Count(y, r.value.clase) as real) / (|y| as real)
      && 0.0 < r.value.precision <= 1.0
  {
    match Majority(y)
    case None => Err(EmptyInput)
    case Some(clase) =>
      MajorityIsFirstMode(y);
      var correctos := Count(y, clase);
      RatioBounds(correctos, |y|);
      Ok(ZeroRModel(clase, if |y| > 0 then (correctos as real) / (|y| as real) else 0.0))
  }

  /** A positive count out of at most as many rows is a ratio in (0, 1]. */
  lemma RatioBounds(c: nat, n: nat)
    requires 0 < c <= n
    ensures 0.0 < (c as real) / (n as real) <= 1.0
  {
    assert (c as real) / (n as real) * (n as real) == c as real;
  }
}
