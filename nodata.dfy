/**
 * Nodata substitution utilities: rewriting raster metadata, replacing nodata
 * values in arrays, per raster band and per table column, and guarding an
 * arbitrary array transform against nodata values.
 */
module Nodata {
  import opened Outcomes
  import opened Cells
  import opened Frames

  /** Default `new_nodata` of `replace_raster_nodata_each_band`. */
  const DefaultRasterNodata: Cell := Fin(-9999.0)

  /** Default `new_nodata` of `replace_values_with_nodata` and `replace_nodata_dataframe`. */
  const DefaultNodata: Cell := NaN

  // ---------------------------------------------------------------------------
  // set_nodata_raster_meta
  // ---------------------------------------------------------------------------

  /**
   * Copies the metadata record and overwrites (or adds) its "nodata" entry.
   * The caller's map is a value and is therefore left as it was.
   */
  method SetNodataRasterMeta<V>(rasterMeta: map<string, V>, nodataValue: V)
    returns (outMeta: map<string, V>)
    ensures "nodata" in outMeta && outMeta["nodata"] == nodataValue
    ensures outMeta.Keys == rasterMeta.Keys + {"nodata"}
    ensures forall k :: k in rasterMeta && k != "nodata" ==> outMeta[k] == rasterMeta[k]
  {
    outMeta := rasterMeta;
    outMeta := outMeta["nodata" := nodataValue];
  }

  // ---------------------------------------------------------------------------
  // replace_values_with_nodata
  // ---------------------------------------------------------------------------

  /** `np.isin(c, values)`: IEEE equality, so NaN is never found, even in a list holding NaN. */
  predicate IsListed(c: Cell, values: seq<Cell>)
  {
    exists k :: 0 <= k < |values| && IeeeEqual(c, values[k])
  }

  /** The condition of the `np.where`: the cell is a listed value or is infinite. */
  predicate IsReplaced(c: Cell, values: seq<Cell>)
  {
    IsListed(c, values) || IsInfinite(c)
  }

  /**
   * Every cell that is listed in `valuesToReplace` or is infinite becomes
   * `newNodata`; every other cell is kept.
   */
  function ReplaceValuesWithNodata(data: seq<Cell>, valuesToReplace: seq<Cell>, newNodata: Cell := DefaultNodata)
    : (r: seq<Cell>)
    ensures |r| == |data|
    ensures forall i :: 0 <= i < |data| && IsReplaced(data[i], valuesToReplace) ==> r[i] == newNodata
    ensures forall i :: 0 <= i < |data| && !IsReplaced(data[i], valuesToReplace) ==> r[i] == data[i]
  {
    seq(|data|, i requires 0 <= i < |data| =>
      if IsReplaced(data[i], valuesToReplace) then newNodata else data[i])
  }

  /** A cell that differs from the input was replaced, and was replaced by `newNodata`. */
  lemma ReplaceValuesChangesOnlyNodata(data: seq<Cell>, valuesToReplace: seq<Cell>, newNodata: Cell, i: nat)
    requires i < |data|
    requires ReplaceValuesWithNodata(data, valuesToReplace, newNodata)[i] != data[i]
    ensures IsReplaced(data[i], valuesToReplace)
    ensures ReplaceValuesWithNodata(data, valuesToReplace, newNodata)[i] == newNodata
  {
  }

  /** Replacing twice with the same arguments is the same as replacing once. */
  lemma ReplaceValuesIdempotent(data: seq<Cell>, valuesToReplace: seq<Cell>, newNodata: Cell)
    ensures var once := ReplaceValuesWithNodata(data, valuesToReplace, newNodata);
            ReplaceValuesWithNodata(once, valuesToReplace, newNodata) == once
  {
  }

  /**
   * When the new nodata value is itself neither listed nor infinite, no cell
   * of the result is a listed value or an infinity.
   */
  lemma ReplacedDataHasNoNodata(data: seq<Cell>, valuesToReplace: seq<Cell>, newNodata: Cell)
    requires !IsReplaced(newNodata, valuesToReplace)
    ensures forall i :: 0 <= i < |data| ==>
              !IsReplaced(ReplaceValuesWithNodata(data, valuesToReplace, newNodata)[i], valuesToReplace)
  {
  }

  // ---------------------------------------------------------------------------
  // replace_raster_nodata_each_band
  // ---------------------------------------------------------------------------

  /** Some key of the band mapping is not a 1-based band number of the raster. */
  predicate HasInvalidBand(rasterData: seq<seq<Cell>>, nodataPerBand: map<int, seq<Cell>>)
  {
    exists band :: band in nodataPerBand && (band > |rasterData| || band < 1)
  }

  /**
   * Checks that every band number of the mapping is in `[1, #bands]`, copies
   * the raster and rewrites each mapped band, band `k` with its own nodata
   * list `nodataPerBand[k]`, computed from the original band.
   */
  method ReplaceRasterNodataEachBand(rasterData: seq<seq<Cell>>, nodataPerBand: map<int, seq<Cell>>,
                                     newNodata: Cell := DefaultRasterNodata)
    returns (r: Result<seq<seq<Cell>>>)
    ensures r.Err? <==> HasInvalidBand(rasterData, nodataPerBand)
    ensures r.Err? ==> r.error == InvalidRasterBand
    ensures r.Ok? ==> |r.value| == |rasterData|
    ensures r.Ok? ==> forall b :: 0 <= b < |rasterData| ==> |r.value[b]| == |rasterData[b]|
    ensures r.Ok? ==> forall b :: 0 <= b < |rasterData| && b + 1 in nodataPerBand ==>
                        r.value[b] == ReplaceValuesWithNodata(rasterData[b], nodataPerBand[b + 1], newNodata)
    ensures r.Ok? ==> forall b :: 0 <= b < |rasterData| && b + 1 !in nodataPerBand ==>
                        r.value[b] == rasterData[b]
  {
    if HasInvalidBand(rasterData, nodataPerBand) {
      return Err(InvalidRasterBand);
    }
    assert forall band :: band in nodataPerBand ==> 1 <= band <= |rasterData|;
    var outRasterData := rasterData;
    var pending := nodataPerBand.Keys;
    while pending != {}
      invariant pending <= nodataPerBand.Keys
      invariant |outRasterData| == |rasterData|
      invariant forall b :: 0 <= b < |rasterData| ==>
                  outRasterData[b] == if b + 1 in nodataPerBand && b + 1 !in pending
                                      then ReplaceValuesWithNodata(rasterData[b], nodataPerBand[b + 1], newNodata)
                                      else rasterData[b]
      decreases pending
    {
      var band :| band in pending;
      var index := band - 1;
      var bandData := rasterData[index];
      var outData := ReplaceValuesWithNodata(bandData, nodataPerBand[band], newNodata);
      outRasterData := outRasterData[index := outData];
      pending := pending - {band};
    }
    r := Ok(outRasterData);
  }

  // ---------------------------------------------------------------------------
  // replace_nodata_dataframe
  // ---------------------------------------------------------------------------

  /**
   * `Series.replace(old, new)`: each cell equal to one of `oldNodata` becomes
   * `newNodata`. Unlike `np.isin`, pandas matches NaN with NaN, and it gives
   * infinities no special treatment.
   */
  function ReplaceInColumn(column: seq<Cell>, oldNodata: seq<Cell>, newNodata: Cell): (r: seq<Cell>)
    ensures |r| == |column|
    ensures forall i :: 0 <= i < |column| && column[i] in oldNodata ==> r[i] == newNodata
    ensures forall i :: 0 <= i < |column| && column[i] !in oldNodata ==> r[i] == column[i]
  {
    seq(|column|, i requires 0 <= i < |column| =>
      if column[i] in oldNodata then newNodata else column[i])
  }

  /** Replacing in a column twice is the same as replacing once. */
  lemma ReplaceInColumnIdempotent(column: seq<Cell>, oldNodata: seq<Cell>, newNodata: Cell)
    ensures var once := ReplaceInColumn(column, oldNodata, newNodata);
            ReplaceInColumn(once, oldNodata, newNodata) == once
  {
  }

  /**
   * `current` is `original` with exactly the columns named in `done`
   * rewritten by `ReplaceInColumn`.
   */
  predicate ColumnsRewritten(original: map<string, seq<Cell>>, current: map<string, seq<Cell>>,
                             done: seq<string>, oldNodata: seq<Cell>, newNodata: Cell)
  {
    && current.Keys == original.Keys
    && forall c :: c in original ==>
         current[c] == if c in done then ReplaceInColumn(original[c], oldNodata, newNodata) else original[c]
  }

  /** Rewriting one more column, possibly one already rewritten, extends `done` by it. */
  lemma ColumnsRewrittenStep(original: map<string, seq<Cell>>, current: map<string, seq<Cell>>,
                             done: seq<string>, col: string, oldNodata: seq<Cell>, newNodata: Cell)
    requires ColumnsRewritten(original, current, done, oldNodata, newNodata)
    requires col in original
    ensures ColumnsRewritten(original, current[col := ReplaceInColumn(current[col], oldNodata, newNodata)],
                             done + [col], oldNodata, newNodata)
  {
    ReplaceInColumnIdempotent(original[col], oldNodata, newNodata);
  }

  /**
   * Rewriting columns keeps a valid table valid, with the same columns:
   * those named in `done` rewritten, the others as they were.
   */
  lemma RewrittenFrame(df: Frame<Cell>, current: map<string, seq<Cell>>, done: seq<string>,
                       oldNodata: seq<Cell>, newNodata: Cell)
    requires df.Valid() && ColumnsRewritten(df.cols, current, done, oldNodata, newNodata)
    ensures Frame(df.names, current, df.height).Valid()
    ensures current.Keys == df.cols.Keys
    ensures forall c :: c in df.cols && c in done ==> current[c] == ReplaceInColumn(df.cols[c], oldNodata, newNodata)
    ensures forall c :: c in df.cols && c !in done ==> current[c] == df.cols[c]
  {
  }

  /**
   * The loop over the selected columns: each one in turn is replaced in the
   * copy, reading the copy's current column.
   */
  method ReplaceInColumns(cols: map<string, seq<Cell>>, selected: seq<string>, oldNodata: seq<Cell>, newNodata: Cell)
    returns (outCols: map<string, seq<Cell>>)
    requires forall c :: c in selected ==> c in cols
    ensures ColumnsRewritten(cols, outCols, selected, oldNodata, newNodata)
  {
    outCols := cols;
    var i := 0;
    assert selected[..0] == [];
    while i < |selected|
      invariant 0 <= i <= |selected|
      invariant ColumnsRewritten(cols, outCols, selected[..i], oldNodata, newNodata)
    {
      var col := selected[i];
      ColumnsRewrittenStep(cols, outCols, selected[..i], col, oldNodata, newNodata);
      outCols := outCols[col := ReplaceInColumn(outCols[col], oldNodata, newNodata)];
      assert selected[..i + 1] == selected[..i] + [col];
      i := i + 1;
    }
    assert selected[..i] == selected;
  }

  /**
   * With `columns == None` acts on every column; otherwise fails when a
   * requested column is missing. Copies the table, then rewrites each
   * selected column in turn (a name listed twice is rewritten twice, which
   * changes nothing more).
   */
  method ReplaceNodataDataframe(df: Frame<Cell>, oldNodata: seq<Cell>, newNodata: Cell := DefaultNodata,
                                columns: Option<seq<string>> := None)
    returns (r: Result<Frame<Cell>>)
    requires df.Valid()
    ensures r.Err? <==> columns.Some? && !df.HasColumns(columns.value)
    ensures r.Err? ==> r.error == InvalidColumn(ColumnsNotFound)
    ensures r.Ok? ==> r.value.Valid() && r.value.names == df.names && r.value.height == df.height
    ensures r.Ok? ==> r.value.cols.Keys == df.cols.Keys
    ensures r.Ok? ==> forall c :: c in df.cols && c in SelectedColumns(df, columns) ==>
                        r.value.cols[c] == ReplaceInColumn(df.cols[c], oldNodata, newNodata)
    ensures r.Ok? ==> forall c :: c in df.cols && c !in SelectedColumns(df, columns) ==>
                        r.value.cols[c] == df.cols[c]
  {
    var selected: seq<string>;
    if columns.None? {
      selected := df.names;
    } else {
      if !df.HasColumns(columns.value) {
        return Err(InvalidColumn(ColumnsNotFound));
      }
      selected := columns.value;
    }
    assert selected == SelectedColumns(df, columns);
    var outCols := ReplaceInColumns(df.cols, selected, oldNodata, newNodata);
    RewrittenFrame(df, outCols, selected, oldNodata, newNodata);
    r := Ok(Frame(df.names, outCols, df.height));
  }

  // ---------------------------------------------------------------------------
  // handle_nodata_as_nan
  // ---------------------------------------------------------------------------

  /**
   * The restore stage as the docstring describes it: every NaN or infinite
   * cell of the transform's result becomes the nodata representative.
   */
  function RestoreNodata(result: seq<Cell>, restoreTo: Cell): (r: seq<Cell>)
    ensures |r| == |result|
    ensures forall i :: 0 <= i < |result| && (result[i].NaN? || IsInfinite(result[i])) ==> r[i] == restoreTo
    ensures forall i :: 0 <= i < |result| && !(result[i].NaN? || IsInfinite(result[i])) ==> r[i] == result[i]
  {
    seq(|result|, i requires 0 <= i < |result| =>
      if result[i].NaN? || IsInfinite(result[i]) then restoreTo else result[i])
  }

  /**
   * `handle_nodata_as_nan(func)(inData, *args, nodata_values=...)`: listed
   * values and infinities become NaN, `func` runs on that array with `args`
   * passed through untouched, and NaN and infinite result cells are then
   * restored to the representative `restoreTo`.
   */
  function HandleNodataAsNan<A>(func: (seq<Cell>, A) -> seq<Cell>, inData: seq<Cell>, args: A,
                                nodataValues: seq<Cell>, restoreTo: Cell): (r: seq<Cell>)
    ensures |r| == |func(ReplaceValuesWithNodata(inData, nodataValues, NaN), args)|
  {
    var replacedData := ReplaceValuesWithNodata(inData, nodataValues, NaN);
    var result := func(replacedData, args);
    RestoreNodata(result, restoreTo)
  }

  /** The array the guarded transform receives holds no listed value and no infinity. */
  lemma GuardedInputHasNoNodata(inData: seq<Cell>, nodataValues: seq<Cell>)
    ensures forall i :: 0 <= i < |inData| ==>
              !IsReplaced(ReplaceValuesWithNodata(inData, nodataValues, NaN)[i], nodataValues)
  {
  }

  /** With a finite representative, the caller never sees NaN or an infinity. */
  lemma GuardedOutputIsFinite<A>(func: (seq<Cell>, A) -> seq<Cell>, inData: seq<Cell>, args: A,
                                 nodataValues: seq<Cell>, restoreTo: Cell)
    requires restoreTo.Fin?
    ensures forall i :: 0 <= i < |HandleNodataAsNan(func, inData, args, nodataValues, restoreTo)| ==>
              HandleNodataAsNan(func, inData, args, nodataValues, restoreTo)[i].Fin?
  {
  }

  /** Applies a cell-by-cell operation to an array. */
  function MapCells(g: Cell -> Cell, data: seq<Cell>): (r: seq<Cell>)
    ensures |r| == |data| && forall i :: 0 <= i < |data| ==> r[i] == g(data[i])
  {
    seq(|data|, i requires 0 <= i < |data| => g(data[i]))
  }

  /**
   * Round trip for a cell-by-cell transform that propagates NaN: a cell that
   * was nodata (listed or infinite) comes back as the representative, and
   * every other cell is `g` of the cell, restored if that is NaN or infinite.
   */
  lemma GuardedElementwise<A>(g: Cell -> Cell, inData: seq<Cell>, args: A,
                              nodataValues: seq<Cell>, restoreTo: Cell, i: nat)
    requires g(NaN) == NaN
    requires i < |inData|
    ensures var out := HandleNodataAsNan((x: seq<Cell>, a: A) => MapCells(g, x), inData, args, nodataValues, restoreTo);
            && |out| == |inData|
            && (IsReplaced(inData[i], nodataValues) ==> out[i] == restoreTo)
            && (!IsReplaced(inData[i], nodataValues) ==>
                  out[i] == RestoreNodata([g(inData[i])], restoreTo)[0])
  {
  }

  /**
   * With the identity transform, the guard sends every nodata cell (and every
   * NaN) to the representative and leaves every other cell as it was.
   */
  lemma GuardedIdentityRestoresNodata<A>(inData: seq<Cell>, args: A, nodataValues: seq<Cell>, restoreTo: Cell)
    ensures var out := HandleNodataAsNan((x: seq<Cell>, a: A) => x, inData, args, nodataValues, restoreTo);
            && |out| == |inData|
            && forall i :: 0 <= i < |inData| ==>
                 out[i] == if IsReplaced(inData[i], nodataValues) || inData[i].NaN? then restoreTo else inData[i]
  {
  }

  /**
   * The wrapper exactly as written, for a scalar `nodata_values` `v`: the
   * restore step is `replace_values_with_nodata(result, np.nan, v)`, whose
   * `np.isin` test never matches NaN.
   */
  function HandleNodataAsNanAsWritten<A>(func: (seq<Cell>, A) -> seq<Cell>, inData: seq<Cell>, args: A,
                                         nodataValue: Cell): (r: seq<Cell>)
    ensures |r| == |func(ReplaceValuesWithNodata(inData, [nodataValue], NaN), args)|
  {
    var replacedData := ReplaceValuesWithNodata(inData, [nodataValue], NaN);
    var result := func(replacedData, args);
    ReplaceValuesWithNodata(result, [NaN], nodataValue)
  }

  /** As written, every NaN the transform returns reaches the caller unrestored. */
  lemma AsWrittenKeepsNan<A>(func: (seq<Cell>, A) -> seq<Cell>, inData: seq<Cell>, args: A,
                             nodataValue: Cell, i: nat)
    requires i < |func(ReplaceValuesWithNodata(inData, [nodataValue], NaN), args)|
    requires func(ReplaceValuesWithNodata(inData, [nodataValue], NaN), args)[i].NaN?
    ensures HandleNodataAsNanAsWritten(func, inData, args, nodataValue)[i].NaN?
  {
  }

  /**
   * The input that shows it: a single -9999 cell through the identity
   * transform comes back as NaN as written, and as -9999 when restored.
   */
  lemma AsWrittenLosesNodataExample()
    ensures HandleNodataAsNanAsWritten((x: seq<Cell>, a: int) => x, [Fin(-9999.0)], 0, Fin(-9999.0)) == [NaN]
    ensures HandleNodataAsNan((x: seq<Cell>, a: int) => x, [Fin(-9999.0)], 0, [Fin(-9999.0)], Fin(-9999.0))
            == [Fin(-9999.0)]
  {
  }
}
