/** The column-oriented view of a pandas `DataFrame` the rules work on. */
module Frames {
  import opened Seqs

  /** Column names in `X.columns` order, one sequence of cells per column, and the number of
      rows; rows carry the default positional index 0..height-1. */
  datatype Frame<V> = Frame(names: seq<string>, columns: seq<seq<V>>, height: nat)

  /** One cell sequence per name, each as long as the frame is high. */
  predicate WellFormed<V>(X: Frame<V>) {
    && |X.columns| == |X.names|
    && forall j :: 0 <= j < |X.columns| ==> |X.columns[j]| == X.height
  }

  predicate HasColumn<V>(X: Frame<V>, name: string) {
    name in X.names
  }

  /** `X[name]`: the first column carrying that name. */
  function ColumnNamed<V>(X: Frame<V>, name: string): seq<V>
    requires WellFormed(X) && HasColumn(X, name)
  {
    X.columns[IndexOf(X.names, name)]
  }
}
