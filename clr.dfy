/**
 * The centred log-ratio transform as the toolkit implements it: validate the
 * requested columns, reject a table holding a zero, divide each selected cell
 * by the sum of its whole row, and take the natural logarithm.
 */
module Clr {
  import opened Outcomes
  import opened Cells
  import opened Frames

  /** `check_dataframe_contains_nonzero_numbers`, read as the caller uses it: some cell is zero. */
  predicate ContainsZero(df: Frame<real>)
  {
    exists c, i :: c in df.cols && 0 <= i < |df.cols[c]| && df.cols[c][i] == 0.0
  }

  /** Sum of row `i` over the named columns (each name counted as often as it is listed). */
  function SumOver(df: Frame<real>, names: seq<string>, i: nat): real
    requires df.Valid() && i < df.height
    requires forall n :: n in names ==> n in df.cols
  {
    if names == [] then 0.0 else df.cols[names[0]][i] + SumOver(df, names[1..], i)
  }

  /** `df.sum(axis=1)` at row `i`: the sum over every column of the table. */
  function RowSum(df: Frame<real>, i: nat): real
    requires df.Valid() && i < df.height
  {
    SumOver(df, df.names, i)
  }

  /** Floating-point division of a finite `x` by a finite `s`: a zero divisor gives a signed infinity, or NaN for 0/0. */
  function Divide(x: real, s: real): (r: Cell)
    ensures s != 0.0 ==> r == Fin(x / s)
    ensures s == 0.0 ==> (r.PosInf? <==> x > 0.0) && (r.NegInf? <==> x < 0.0) && (r.NaN? <==> x == 0.0)
  {
    if s != 0.0 then Fin(x / s) else if x > 0.0 then PosInf else if x < 0.0 then NegInf else NaN
  }

  /**
   * `np.log` on one cell, with `ln` the logarithm of a positive real: zero
   * gives minus infinity, negatives, minus infinity and NaN give NaN, plus
   * infinity stays.
   */
  function Log(ln: real -> real, c: Cell): (r: Cell)
    ensures c.Fin? && c.v > 0.0 ==> r == Fin(ln(c.v))
    ensures r.Fin? ==> c.Fin? && c.v > 0.0
  {
    match c
    case Fin(v) => if v > 0.0 then Fin(ln(v)) else if v == 0.0 then NegInf else NaN
    case PosInf => PosInf
    case NegInf => NaN
    case NaN => NaN
  }

  /** The closure step for one cell: the cell divided by the sum of its whole row. */
  function Closed(df: Frame<real>, c: string, i: nat): Cell
    requires df.Valid() && c in df.cols && i < df.height
  {
    Divide(df.cols[c][i], RowSum(df, i))
  }

  /**
   * `_CLR_transform(df, columns)`. The column check comes first, then the
   * zero check over the whole table; the result has the input's rows and
   * exactly the selected columns, in the order given.
   */
  function ClrTransform(df: Frame<real>, columns: Option<seq<string>>, ln: real -> real): (r: Result<Frame<Cell>>)
    requires df.Valid()
    ensures r.Err? <==> (columns.Some? && !df.HasColumns(columns.value)) || ContainsZero(df)
    ensures columns.Some? && !df.HasColumns(columns.value) ==> r == Err(InvalidColumn(ColumnsNotFound))
    ensures !(columns.Some? && !df.HasColumns(columns.value)) && ContainsZero(df) ==>
              r == Err(InvalidColumn(ContainsZeros))
    ensures r.Ok? ==> r.value.Valid() && r.value.names == SelectedColumns(df, columns)
                      && r.value.height == df.height
    ensures r.Ok? ==> forall c, i :: c in r.value.cols && 0 <= i < df.height ==>
                        c in df.cols && r.value.cols[c][i] == Log(ln, Closed(df, c, i))
  {
    if columns.Some? && !df.HasColumns(columns.value) then
      Err(InvalidColumn(ColumnsNotFound))
    else if ContainsZero(df) then
      Err(InvalidColumn(ContainsZeros))
    else
      var selected := SelectedColumns(df, columns);
      var out := map c | c in selected ::
        seq(df.height, i requires 0 <= i < df.height => Log(ln, Closed(df, c, i)));
      Ok(Frame(selected, out, df.height))
  }

  /** `_inverse_CLR`: not implemented in the toolkit, it hands its argument back. */
  function InverseClr<T>(df: Frame<T>): (r: Frame<T>)
    ensures r == df
  {
    df
  }

  // ---------------------------------------------------------------------------
  // Row sums
  // ---------------------------------------------------------------------------

  /** A sum of strictly positive cells over at least one column is positive. */
  lemma {:induction false} SumOverPositive(df: Frame<real>, names: seq<string>, i: nat)
    requires df.Valid() && i < df.height
    requires forall n :: n in names ==> n in df.cols && df.cols[n][i] > 0.0
    requires names != []
    ensures SumOver(df, names, i) > 0.0
  {
    if names[1..] != [] {
      SumOverPositive(df, names[1..], i);
    }
  }

  /** Over cells that are all 1, the sum counts the columns. */
  lemma {:induction false} SumOverOnes(df: Frame<real>, names: seq<string>, i: nat)
    requires df.Valid() && i < df.height
    requires forall n :: n in names ==> n in df.cols && df.cols[n][i] == 1.0
    ensures SumOver(df, names, i) == |names| as real
  {
    if names != [] {
      SumOverOnes(df, names[1..], i);
    }
  }

  /** Sums over concatenated name lists add up. */
  lemma {:induction false} SumOverAppend(df: Frame<real>, a: seq<string>, b: seq<string>, i: nat)
    requires df.Valid() && i < df.height
    requires forall n :: n in a + b ==> n in df.cols
    ensures SumOver(df, a + b, i) == SumOver(df, a, i) + SumOver(df, b, i)
  {
    if a == [] {
      assert a + b == b;
    } else {
      assert (a + b)[1..] == a[1..] + b;
      SumOverAppend(df, a[1..], b, i);
    }
  }

  /** Taking one name out of a list takes its cell out of the sum. */
  lemma SumOverRemove(df: Frame<real>, s: seq<string>, j: nat, i: nat)
    requires df.Valid() && i < df.height
    requires forall n :: n in s ==> n in df.cols
    requires j < |s|
    ensures forall n :: n in s[..j] + s[j + 1..] ==> n in s
    ensures SumOver(df, s, i) == SumOver(df, s[..j] + s[j + 1..], i) + df.cols[s[j]][i]
  {
    assert s == s[..j] + [s[j]] + s[j + 1..];
    SumOverAppend(df, s[..j] + [s[j]], s[j + 1..], i);
    SumOverAppend(df, s[..j], [s[j]], i);
    SumOverAppend(df, s[..j], s[j + 1..], i);
    assert SumOver(df, [s[j]], i) == df.cols[s[j]][i] + SumOver(df, [], i);
  }

  /** Removing one entry of a list without repeats leaves a list without repeats. */
  lemma DistinctRemove(s: seq<string>, j: nat)
    requires Distinct(s) && j < |s|
    ensures Distinct(s[..j] + s[j + 1..])
    ensures forall n :: n in s[..j] + s[j + 1..] ==> n in s && n != s[j]
  {
  }

  /**
   * What a list of distinct names drawn from `t` still draws from once
   * `t[0]`, which it does not contain, is gone.
   */
  lemma SubsetOfTail(s: seq<string>, t: seq<string>)
    requires t != [] && t[0] !in s
    requires forall n :: n in s ==> n in t
    ensures forall n :: n in s ==> n in t[1..]
  {
  }

  /**
   * Over a row of positive cells, a list of distinct columns drawn from
   * another list of distinct columns sums to no more than that list.
   */
  lemma {:induction false} SumOverSubset(df: Frame<real>, s: seq<string>, t: seq<string>, i: nat)
    requires df.Valid() && i < df.height
    requires forall n :: n in t ==> n in df.cols && df.cols[n][i] > 0.0
    requires Distinct(s) && Distinct(t)
    requires forall n :: n in s ==> n in t
    ensures SumOver(df, s, i) <= SumOver(df, t, i)
    decreases |t|
  {
    if s == [] {
      if t != [] {
        SumOverPositive(df, t, i);
      }
    } else {
      assert s[0] in t;
      var t0 := t[0];
      var tail := t[1..];
      assert Distinct(tail) by {
        forall p, q | 0 <= p < q < |tail|
          ensures tail[p] != tail[q]
        {
          assert tail[p] == t[p + 1] && tail[q] == t[q + 1];
        }
      }
      if t0 in s {
        var j :| 0 <= j < |s| && s[j] == t0;
        var rest := s[..j] + s[j + 1..];
        DistinctRemove(s, j);
        SumOverRemove(df, s, j, i);
        SubsetOfTail(rest, t);
        SumOverSubset(df, rest, tail, i);
      } else {
        SubsetOfTail(s, t);
        SumOverSubset(df, s, tail, i);
        if tail != [] {
          SumOverPositive(df, tail, i);
        }
      }
    }
  }

  // ---------------------------------------------------------------------------
  // Closure
  // ---------------------------------------------------------------------------

  /** Sum of the closed values of row `i` over the named columns. */
  function ClosedSum(df: Frame<real>, names: seq<string>, i: nat): real
    requires df.Valid() && i < df.height && RowSum(df, i) != 0.0
    requires forall n :: n in names ==> n in df.cols
  {
    if names == [] then 0.0 else Closed(df, names[0], i).v + ClosedSum(df, names[1..], i)
  }

  /** Dividing a sum is summing the divided terms. */
  lemma DivideSum(x: real, y: real, s: real)
    requires s != 0.0
    ensures x / s + y / s == (x + y) / s
  {
  }

  /** Closing each cell of a list divides the list's sum by the whole row sum. */
  lemma {:induction false} ClosedSumIsScaledSum(df: Frame<real>, names: seq<string>, i: nat)
    requires df.Valid() && i < df.height && RowSum(df, i) != 0.0
    requires forall n :: n in names ==> n in df.cols
    ensures ClosedSum(df, names, i) == SumOver(df, names, i) / RowSum(df, i)
  {
    if names != [] {
      var s := RowSum(df, i);
      var x := df.cols[names[0]][i];
      var y := SumOver(df, names[1..], i);
      ClosedSumIsScaledSum(df, names[1..], i);
      assert ClosedSum(df, names, i) == x / s + ClosedSum(df, names[1..], i);
      DivideSum(x, y, s);
    }
  }

  /** When the row sum is not zero, the closed values of the whole row sum to 1. */
  lemma ClosedRowSumsToOne(df: Frame<real>, i: nat)
    requires df.Valid() && i < df.height && RowSum(df, i) != 0.0
    ensures forall c :: c in df.cols ==> Closed(df, c, i) == Fin(df.cols[c][i] / RowSum(df, i))
    ensures ClosedSum(df, df.names, i) == 1.0
  {
    ClosedSumIsScaledSum(df, df.names, i);
    var s := RowSum(df, i);
    assert SumOver(df, df.names, i) == s;
    assert s / s == 1.0;
  }

  /** A part of a positive whole is at most the whole, and so its share at most 1. */
  lemma DivideMonotone(a: real, s: real)
    requires 0.0 < s && a <= s
    ensures a / s <= 1.0
  {
  }

  /**
   * On a row of positive cells of a table without repeated names, the
   * closed values of any distinct selection of columns sum to at most 1.
   */
  lemma ClosedSubsetSumAtMostOne(df: Frame<real>, columns: seq<string>, i: nat)
    requires df.Valid() && i < df.height && Distinct(df.names) && Distinct(columns)
    requires df.HasColumns(columns)
    requires forall c :: c in df.cols ==> df.cols[c][i] > 0.0
    requires df.names != []
    ensures RowSum(df, i) > 0.0
    ensures ClosedSum(df, columns, i) <= 1.0
  {
    SumOverPositive(df, df.names, i);
    ClosedSumIsScaledSum(df, columns, i);
    SumOverSubset(df, columns, df.names, i);
    DivideMonotone(SumOver(df, columns, i), RowSum(df, i));
  }

  // ---------------------------------------------------------------------------
  // Output cells
  // ---------------------------------------------------------------------------

  /**
   * On a row of strictly positive cells, each output cell is the logarithm
   * of the cell over the sum of the whole row, selected columns or not.
   */
  lemma ClrPositiveRowCell(df: Frame<real>, columns: Option<seq<string>>, ln: real -> real, c: string, i: nat)
    requires df.Valid() && i < df.height
    requires forall n :: n in df.cols ==> df.cols[n][i] > 0.0
    requires ClrTransform(df, columns, ln).Ok? && c in ClrTransform(df, columns, ln).value.cols
    ensures c in df.cols && RowSum(df, i) > 0.0
    ensures ClrTransform(df, columns, ln).value.cols[c][i] == Fin(ln(df.cols[c][i] / RowSum(df, i)))
  {
    assert c in df.cols;
    assert df.names != [] by {
      assert c in df.names;
    }
    SumOverPositive(df, df.names, i);
  }

  /** A table of ones with `n` columns maps every cell to `ln(1/n)`. */
  lemma ClrAllOnes(df: Frame<real>, ln: real -> real)
    requires df.Valid() && df.names != []
    requires forall c, i :: c in df.cols && 0 <= i < |df.cols[c]| ==> df.cols[c][i] == 1.0
    ensures ClrTransform(df, None, ln).Ok?
    ensures forall c, i :: c in df.cols && 0 <= i < df.height ==>
              ClrTransform(df, None, ln).value.cols[c][i] == Fin(ln(1.0 / |df.names| as real))
  {
    var r := ClrTransform(df, None, ln);
    assert !ContainsZero(df);
    forall c, i | c in df.cols && 0 <= i < df.height
      ensures r.value.cols[c][i] == Fin(ln(1.0 / |df.names| as real))
    {
      SumOverOnes(df, df.names, i);
      assert c in r.value.cols;
    }
  }

  /** The 4 x 4 table of ones of the toolkit's test suite. */
  function OnesFrame4x4(): (f: Frame<real>)
    ensures f.Valid() && |f.names| == 4 && f.height == 4
  {
    var names := ["c1", "c2", "c3", "c4"];
    Frame(names, map n | n in names :: [1.0, 1.0, 1.0, 1.0], 4)
  }

  /** Every cell of the transformed 4 x 4 table of ones is `ln(0.25)`. */
  lemma ClrOnes4x4(ln: real -> real)
    ensures ClrTransform(OnesFrame4x4(), None, ln).Ok?
    ensures ClrTransform(OnesFrame4x4(), None, ln).value.names == ["c1", "c2", "c3", "c4"]
    ensures forall c, i :: c in ["c1", "c2", "c3", "c4"] && 0 <= i < 4 ==>
              ClrTransform(OnesFrame4x4(), None, ln).value.cols[c][i] == Fin(ln(0.25))
  {
    var df := OnesFrame4x4();
    ClrAllOnes(df, ln);
    assert 1.0 / |df.names| as real == 0.25;
  }

  /** The 4 x 4 table of ones with a zero in its first cell is rejected. */
  lemma ClrRejectsZero(ln: real -> real)
    ensures var df := OnesFrame4x4();
            var withZero := Frame(df.names, df.cols["c1" := [0.0, 1.0, 1.0, 1.0]], df.height);
            ClrTransform(withZero, None, ln) == Err(InvalidColumn(ContainsZeros))
  {
    var df := OnesFrame4x4();
    var withZero := Frame(df.names, df.cols["c1" := [0.0, 1.0, 1.0, 1.0]], df.height);
    assert withZero.cols["c1"][0] == 0.0;
  }

  /**
   * Selecting columns does not change the divisor: in the row (1, 1, 1, 2)
   * the three selected ones each become `ln(1/5)`, not `ln(1/3)`.
   */
  lemma ClrSubsetUsesWholeRow(ln: real -> real)
    ensures var df := Frame(["a", "b", "c", "d"], map["a" := [1.0], "b" := [1.0], "c" := [1.0], "d" := [2.0]], 1);
            var r := ClrTransform(df, Some(["a", "b", "c"]), ln);
            && r.Ok? && r.value.names == ["a", "b", "c"]
            && forall c :: c in ["a", "b", "c"] ==> r.value.cols[c] == [Fin(ln(0.2))]
  {
  }
}
