/** A pandas DataFrame reduced to named, equally long columns. */
module Frames {
  import opened Outcomes

  /**
   * `names` is the column order, `cols` maps each name to its column and
   * `height` is the number of rows (kept apart so that a table without
   * columns still has rows, as a DataFrame index does).
   */
  datatype Frame<T> = Frame(names: seq<string>, cols: map<string, seq<T>>, height: nat)
  {
    /** Every listed name has a column, every column is listed, all columns have `height` rows. */
    predicate Valid()
    {
      && (forall n :: n in names ==> n in cols)
      && (forall n :: n in cols ==> n in names && |cols[n]| == height)
    }

    /** `check_columns_valid`: every requested name is a column of the table. */
    predicate HasColumns(columns: seq<string>)
    {
      forall c :: c in columns ==> c in cols
    }
  }

  /** The columns an operation acts on: the requested ones, or all of them for `None`. */
  function SelectedColumns<T>(f: Frame<T>, columns: Option<seq<string>>): seq<string>
  {
    if columns.None? then f.names else columns.value
  }

  /** No name occurs twice. */
  predicate Distinct(s: seq<string>)
  {
    forall i, j :: 0 <= i < j < |s| ==> s[i] != s[j]
  }
}
