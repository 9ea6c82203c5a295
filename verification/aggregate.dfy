/**
  The span aggregation of Model.py: per sentence, the token vectors of the
  encoder are averaged over the tokens a mask selects (`get_masked_mean`), the
  entity and verb averages are concatenated and zeroed where the entity is
  absent (`get_masked_input`), the verb mask is summed over sentences into a
  per-token indicator (`get_verb_indicator`), and the padded part of the gold
  state sequences is masked out (`NCETModel.forward`).

  Tensors are nested sequences: a paragraph's encoder output is one `Vector`
  per token, a mask holds one `MaskRow` per sentence with one entry per token,
  and a batch is a sequence of paragraphs.  Floating point becomes `real`.
*/
module SpanAggregation {
  import opened PyText

  type Vector = seq<real>

  /** One sentence's row of an entity or verb mask: an integer per token.
      Masks are never negative. */
  type MaskRow = seq<nat>

  /** Every vector has `width` components. */
  predicate IsMatrix(vs: seq<Vector>, width: nat) {
    forall i :: 0 <= i < |vs| ==> |vs[i]| == width
  }

  /** Every mask row has one entry per token. */
  predicate RowsOfLength(rows: seq<MaskRow>, tokens: nat) {
    forall s :: 0 <= s < |rows| ==> |rows[s]| == tokens
  }

  /** A mask row of zeros and ones. */
  predicate IsBinary(row: MaskRow) {
    forall t :: 0 <= t < |row| ==> row[t] <= 1
  }

  /** The rows `find_allzero_rows` reports: the mask selects no token. */
  predicate AllZero(row: MaskRow) {
    forall t :: 0 <= t < |row| ==> row[t] == 0
  }

  // ---------------------------------------------------------------------------
  // Vector arithmetic

  function Zeros(width: nat): (v: Vector)
    ensures |v| == width && forall k :: 0 <= k < width ==> v[k] == 0.0
  {
    seq(width, _ => 0.0)
  }

  function Add(u: Vector, v: Vector): (w: Vector)
    requires |u| == |v|
    ensures |w| == |u| && forall k :: 0 <= k < |u| ==> w[k] == u[k] + v[k]
  {
    seq(|u|, k requires 0 <= k < |u| => u[k] + v[k])
  }

  function Divide(v: Vector, d: real): (w: Vector)
    requires d != 0.0
    ensures |w| == |v| && forall k :: 0 <= k < |v| ==> w[k] * d == v[k]
  {
    seq(|v|, k requires 0 <= k < |v| => v[k] / d)
  }

  /** `torch.sum(vs, dim = -2)`: the component-wise sum of the vectors. */
  function SumRows(vs: seq<Vector>, width: nat): (s: Vector)
    requires IsMatrix(vs, width)
    ensures |s| == width
    decreases |vs|
  {
    if |vs| == 0 then Zeros(width) else Add(SumRows(vs[..|vs| - 1], width), vs[|vs| - 1])
  }

  // ---------------------------------------------------------------------------
  // get_masked_mean

  /** `torch.sum(mask, dim = -1)`: the denominator of the average. */
  function MaskTotal(row: MaskRow): nat
    decreases |row|
  {
    if |row| == 0 then 0 else MaskTotal(row[..|row| - 1]) + row[|row| - 1]
  }

  /** `source.masked_fill(mask == 0, 0)`: unselected tokens become zero vectors. */
  function MaskFill(source: seq<Vector>, row: MaskRow, width: nat): (m: seq<Vector>)
    requires |row| == |source| && IsMatrix(source, width)
    ensures |m| == |source| && IsMatrix(m, width)
    ensures forall t :: 0 <= t < |m| ==> m[t] == (if row[t] == 0 then Zeros(width) else source[t])
  {
    seq(|source|, t requires 0 <= t < |source| => if row[t] == 0 then Zeros(width) else source[t])
  }

  /** Reference definition: component `k` summed over the tokens the row selects. */
  function SelectedSum(source: seq<Vector>, row: MaskRow, k: nat): real
    requires |row| <= |source|
    requires forall t :: 0 <= t < |row| ==> k < |source[t]|
    decreases |row|
  {
    if |row| == 0 then 0.0
    else
      var t := |row| - 1;
      SelectedSum(source, row[..t], k) + (if row[t] != 0 then source[t][k] else 0.0)
  }

  /** The tensor pipeline (fill, then sum) computes the reference sum. */
  lemma {:induction false} SumOfFilledIsSelectedSum(source: seq<Vector>, row: MaskRow, width: nat, n: nat, k: nat)
    requires |row| == |source| && IsMatrix(source, width)
    requires n <= |row| && k < width
    ensures SumRows(MaskFill(source, row, width)[..n], width)[k] == SelectedSum(source, row[..n], k)
    decreases n
  {
    var m := MaskFill(source, row, width);
    if n > 0 {
      SumOfFilledIsSelectedSum(source, row, width, n - 1, k);
      assert m[..n][..n - 1] == m[..n - 1];
      assert row[..n][..n - 1] == row[..n - 1];
    }
  }

  /** With no mass in the row, nothing is selected. */
  lemma {:induction false} NoMassSelectsNothing(source: seq<Vector>, row: MaskRow, k: nat)
    requires |row| <= |source|
    requires forall t :: 0 <= t < |row| ==> k < |source[t]|
    requires MaskTotal(row) == 0
    ensures SelectedSum(source, row, k) == 0.0
    decreases |row|
  {
    if |row| > 0 {
      NoMassSelectsNothing(source, row[..|row| - 1], k);
    }
  }

  /** `get_masked_mean` for one sentence: the sum of the selected token vectors
      divided by the row's total.  With an all-zero row the division is 0/0,
      a NaN that the source replaces by 0. */
  function MaskedMean(source: seq<Vector>, row: MaskRow, width: nat): (v: Vector)
    requires |row| == |source| && IsMatrix(source, width)
    ensures |v| == width
    ensures forall k :: 0 <= k < width ==> v[k] * (MaskTotal(row) as real) == SelectedSum(source, row, k)
    ensures MaskTotal(row) == 0 ==> v == Zeros(width)
  {
    var total := MaskTotal(row);
    var sum := SumRows(MaskFill(source, row, width), width);
    FilledSum(source, row, width);
    if total == 0 then
      NoMassSelectsNothingAt(source, row, width);
      Zeros(width)
    else
      Divide(sum, total as real)
  }

  /** Every component of the filled-and-summed tensor is the reference sum. */
  lemma FilledSum(source: seq<Vector>, row: MaskRow, width: nat)
    requires |row| == |source| && IsMatrix(source, width)
    ensures forall k :: 0 <= k < width ==>
      SumRows(MaskFill(source, row, width), width)[k] == SelectedSum(source, row, k)
  {
    var m := MaskFill(source, row, width);
    forall k | 0 <= k < width ensures SumRows(m, width)[k] == SelectedSum(source, row, k) {
      SumOfFilledIsSelectedSum(source, row, width, |row|, k);
      assert m[..|row|] == m;
      assert row[..|row|] == row;
    }
  }

  lemma NoMassSelectsNothingAt(source: seq<Vector>, row: MaskRow, width: nat)
    requires |row| == |source| && IsMatrix(source, width)
    requires MaskTotal(row) == 0
    ensures forall k :: 0 <= k < width ==> SelectedSum(source, row, k) == 0.0
  {
    forall k | 0 <= k < width ensures SelectedSum(source, row, k) == 0.0 {
      NoMassSelectsNothing(source, row, k);
    }
  }

  /** A row has no mass exactly when it is all zero. */
  lemma {:induction false} AllZeroIffNoMass(row: MaskRow)
    ensures AllZero(row) <==> MaskTotal(row) == 0
    decreases |row|
  {
    if |row| > 0 {
      var p := row[..|row| - 1];
      AllZeroIffNoMass(p);
      if AllZero(row) {
        assert AllZero(p) by {
          forall t | 0 <= t < |p| ensures p[t] == 0 {
            assert p[t] == row[t];
          }
        }
      }
      if MaskTotal(row) == 0 {
        forall t | 0 <= t < |row| ensures row[t] == 0 {
          if t < |p| {
            assert p[t] == row[t];
          }
        }
      }
    }
  }

  /** An all-zero mask row gives the zero vector. */
  lemma AllZeroMeanIsZero(source: seq<Vector>, row: MaskRow, width: nat)
    requires |row| == |source| && IsMatrix(source, width)
    requires AllZero(row)
    ensures MaskedMean(source, row, width) == Zeros(width)
  {
    AllZeroIffNoMass(row);
  }

  /** The number of tokens a row selects. */
  function SelectedCount(row: MaskRow): nat
    decreases |row|
  {
    if |row| == 0 then 0 else SelectedCount(row[..|row| - 1]) + (if row[|row| - 1] != 0 then 1 else 0)
  }

  /** On a 0/1 row the denominator is the number of selected tokens, so the
      masked mean is the arithmetic mean of the selected vectors. */
  lemma {:induction false} BinaryTotalIsCount(row: MaskRow)
    requires IsBinary(row)
    ensures MaskTotal(row) == SelectedCount(row)
    decreases |row|
  {
    if |row| > 0 {
      var p := row[..|row| - 1];
      assert IsBinary(p) by {
        forall t | 0 <= t < |p| ensures p[t] <= 1 {
          assert p[t] == row[t];
        }
      }
      BinaryTotalIsCount(p);
    }
  }

  /** Bounds on the selected components bound their sum. */
  lemma {:induction false} SelectedSumBounded(source: seq<Vector>, row: MaskRow, k: nat, lo: real, hi: real)
    requires |row| <= |source|
    requires forall t :: 0 <= t < |row| ==> k < |source[t]|
    requires forall t :: 0 <= t < |row| && row[t] != 0 ==> lo <= source[t][k] <= hi
    ensures (SelectedCount(row) as real) * lo <= SelectedSum(source, row, k) <= (SelectedCount(row) as real) * hi
    decreases |row|
  {
    if |row| > 0 {
      var t := |row| - 1;
      var p := row[..t];
      assert forall i :: 0 <= i < |p| ==> p[i] == row[i];
      SelectedSumBounded(source, p, k, lo, hi);
      var c := SelectedCount(p) as real;
      var sum := SelectedSum(source, p, k);
      if row[t] != 0 {
        assert SelectedCount(row) as real == c + 1.0;
        assert SelectedSum(source, row, k) == sum + source[t][k];
        AddBounds(c, sum, source[t][k], lo, hi);
      } else {
        assert SelectedCount(row) as real == c;
        assert SelectedSum(source, row, k) == sum;
      }
    }
  }

  lemma AddBounds(c: real, sum: real, x: real, lo: real, hi: real)
    requires c * lo <= sum <= c * hi && lo <= x <= hi
    ensures (c + 1.0) * lo <= sum + x <= (c + 1.0) * hi
  {
  }

  /** On a 0/1 row with at least one selected token, every component of the
      mean lies between the least and the greatest selected component. */
  lemma MeanBounded(source: seq<Vector>, row: MaskRow, width: nat, k: nat, lo: real, hi: real)
    requires |row| == |source| && IsMatrix(source, width)
    requires IsBinary(row) && !AllZero(row) && k < width
    requires forall t :: 0 <= t < |row| && row[t] != 0 ==> lo <= source[t][k] <= hi
    ensures lo <= MaskedMean(source, row, width)[k] <= hi
  {
    MeanOfBounded(MaskedMean(source, row, width), source, row, k, lo, hi);
  }

  /** The bound for any vector that scales to the selected sums. */
  lemma MeanOfBounded(v: Vector, source: seq<Vector>, row: MaskRow, k: nat, lo: real, hi: real)
    requires |row| <= |source| && k < |v|
    requires forall t :: 0 <= t < |row| ==> k < |source[t]|
    requires IsBinary(row) && !AllZero(row)
    requires forall t :: 0 <= t < |row| && row[t] != 0 ==> lo <= source[t][k] <= hi
    requires v[k] * (MaskTotal(row) as real) == SelectedSum(source, row, k)
    ensures lo <= v[k] <= hi
  {
    MassBounds(source, row, k, lo, hi);
    QuotientBounded(v[k], MaskTotal(row) as real, SelectedSum(source, row, k), lo, hi);
  }

  /** On a 0/1 row with a selected token, the total is positive and the sum
      lies between `total * lo` and `total * hi`. */
  lemma MassBounds(source: seq<Vector>, row: MaskRow, k: nat, lo: real, hi: real)
    requires |row| <= |source|
    requires forall t :: 0 <= t < |row| ==> k < |source[t]|
    requires IsBinary(row) && !AllZero(row)
    requires forall t :: 0 <= t < |row| && row[t] != 0 ==> lo <= source[t][k] <= hi
    ensures MaskTotal(row) > 0
    ensures (MaskTotal(row) as real) * lo <= SelectedSum(source, row, k) <= (MaskTotal(row) as real) * hi
  {
    AllZeroIffNoMass(row);
    BinaryTotalIsCount(row);
    SelectedSumBounded(source, row, k, lo, hi);
  }

  lemma QuotientBounded(x: real, n: real, sum: real, lo: real, hi: real)
    requires n > 0.0 && x * n == sum && n * lo <= sum <= n * hi
    ensures lo <= x <= hi
  {
  }

  /** A row selecting token `j` alone, with weight 1, gives that token's vector. */
  lemma SingleTokenMean(source: seq<Vector>, row: MaskRow, width: nat, j: nat)
    requires |row| == |source| && IsMatrix(source, width)
    requires j < |row| && row[j] == 1
    requires forall t :: 0 <= t < |row| && t != j ==> row[t] == 0
    ensures MaskedMean(source, row, width) == source[j]
  {
    var v := MaskedMean(source, row, width);
    assert IsBinary(row);
    BinaryTotalIsCount(row);
    assert !AllZero(row);
    forall k | 0 <= k < width ensures v[k] == source[j][k] {
      SelectedSumBounded(source, row, k, source[j][k], source[j][k]);
      SelectedCountOne(row, j);
    }
  }

  lemma {:induction false} SelectedCountOne(row: MaskRow, j: nat)
    requires j < |row| && row[j] != 0
    requires forall t :: 0 <= t < |row| && t != j ==> row[t] == 0
    ensures SelectedCount(row) == 1
    decreases |row|
  {
    var p := row[..|row| - 1];
    if j < |row| - 1 {
      SelectedCountOne(p, j);
    } else {
      NoneSelected(p);
    }
  }

  lemma {:induction false} NoneSelected(row: MaskRow)
    requires AllZero(row)
    ensures SelectedCount(row) == 0
    decreases |row|
  {
    if |row| > 0 {
      NoneSelected(row[..|row| - 1]);
    }
  }

  /** `get_masked_mean` on one paragraph: one mean per sentence. */
  function SentenceMeans(source: seq<Vector>, rows: seq<MaskRow>, width: nat): (means: seq<Vector>)
    requires IsMatrix(source, width) && RowsOfLength(rows, |source|)
    ensures |means| == |rows| && IsMatrix(means, width)
    ensures forall s :: 0 <= s < |rows| ==> means[s] == MaskedMean(source, rows[s], width)
  {
    seq(|rows|, s requires 0 <= s < |rows| => MaskedMean(source, rows[s], width))
  }

  /** A batch: one encoder output per paragraph, each with `width` components
      per token, and one mask per paragraph over the same tokens. */
  predicate BatchShape(source: seq<seq<Vector>>, mask: seq<seq<MaskRow>>, width: nat) {
    && |source| == |mask|
    && forall b :: 0 <= b < |source| ==> IsMatrix(source[b], width) && RowsOfLength(mask[b], |source[b]|)
  }

  /** `get_masked_mean`: shape (batch, sentences, width). Its closing
      assertion fails unless the batch has the configured `batch_size` and
      the width is `2 * hidden_size`. */
  function GetMaskedMean(source: seq<seq<Vector>>, mask: seq<seq<MaskRow>>, width: nat,
                         batchSize: nat, hiddenSize: nat): (r: Result<seq<seq<Vector>>>)
    requires BatchShape(source, mask, width)
    ensures r.Ok? <==> |mask| == batchSize && width == 2 * hiddenSize
    ensures r.Err? ==> r.failure == AssertionError
    ensures r.Ok? ==> |r.value| == |mask|
    ensures r.Ok? ==> forall b :: 0 <= b < |mask| ==> |r.value[b]| == |mask[b]| && IsMatrix(r.value[b], width)
    ensures r.Ok? ==> forall b, s :: 0 <= b < |mask| && 0 <= s < |mask[b]| ==>
      r.value[b][s] == MaskedMean(source[b], mask[b][s], width)
  {
    if !(|mask| == batchSize && width == 2 * hiddenSize) then Err(AssertionError)
    else Ok(seq(|mask|, b requires 0 <= b < |mask| => SentenceMeans(source[b], mask[b], width)))
  }

  // ---------------------------------------------------------------------------
  // get_masked_input

  /** One sentence of `get_masked_input`: the entity mean followed by the verb
      mean, or zeros of the same width when the entity is absent. */
  function MaskedInputRow(source: seq<Vector>, entityRow: MaskRow, verbRow: MaskRow, width: nat): (r: Vector)
    requires |entityRow| == |source| && |verbRow| == |source| && IsMatrix(source, width)
    ensures |r| == 2 * width
    ensures AllZero(entityRow) ==> r == Zeros(2 * width)
    ensures !AllZero(entityRow) ==>
      r[..width] == MaskedMean(source, entityRow, width) && r[width..] == MaskedMean(source, verbRow, width)
  {
    var concat := MaskedMean(source, entityRow, width) + MaskedMean(source, verbRow, width);
    if AllZero(entityRow) then Zeros(|concat|) else concat
  }

  /** Where the entity is absent its verb plays no part. */
  lemma AbsentEntityIgnoresVerb(source: seq<Vector>, entityRow: MaskRow, verbRow1: MaskRow, verbRow2: MaskRow, width: nat)
    requires |entityRow| == |source| && |verbRow1| == |source| && |verbRow2| == |source| && IsMatrix(source, width)
    requires AllZero(entityRow)
    ensures MaskedInputRow(source, entityRow, verbRow1, width) == MaskedInputRow(source, entityRow, verbRow2, width)
  {
  }

  /** Where the entity is present and no verb is marked, the verb half is zero. */
  lemma NoVerbGivesZeroVerbHalf(source: seq<Vector>, entityRow: MaskRow, verbRow: MaskRow, width: nat)
    requires |entityRow| == |source| && |verbRow| == |source| && IsMatrix(source, width)
    requires !AllZero(entityRow) && AllZero(verbRow)
    ensures MaskedInputRow(source, entityRow, verbRow, width)[width..] == Zeros(width)
  {
    AllZeroMeanIsZero(source, verbRow, width);
  }

  /** A mask of shape (batch, sentences, tokens). */
  predicate HasShape(mask: seq<seq<MaskRow>>, batch: nat, sents: nat, tokens: nat) {
    |mask| == batch && forall b :: 0 <= b < |mask| ==> |mask[b]| == sents && RowsOfLength(mask[b], tokens)
  }

  /** `get_masked_input`: the two assertions on the shapes of the masks fail
      unless the verb mask has the shape of the entity mask and the masks have
      as many tokens as the encoder output; the size assertions of the two
      `get_masked_mean` calls and of the concatenation fail unless the batch
      has the configured `batch_size` and the encoder width is `2 * hidden_size`
      (the rows then have `4 * hidden_size` components). */
  function GetMaskedInput(source: seq<seq<Vector>>, entityMask: seq<seq<MaskRow>>, verbMask: seq<seq<MaskRow>>,
                          width: nat, sents: nat, tokens: nat, batchSize: nat, hiddenSize: nat): (r: Result<seq<seq<Vector>>>)
    requires forall b :: 0 <= b < |source| ==> IsMatrix(source[b], width)
    requires HasShape(entityMask, |source|, sents, tokens)
    ensures r.Ok? <==>
      && HasShape(verbMask, |source|, sents, tokens)
      && (forall b :: 0 <= b < |source| ==> |source[b]| == tokens)
      && |source| == batchSize && width == 2 * hiddenSize
    ensures r.Err? ==> r.failure == AssertionError
    ensures r.Ok? ==> |r.value| == batchSize && forall b :: 0 <= b < |source| ==> |r.value[b]| == sents
    ensures r.Ok? ==> forall b :: 0 <= b < |source| ==> IsMatrix(r.value[b], 4 * hiddenSize)
    ensures r.Ok? ==> forall b, s :: 0 <= b < |source| && 0 <= s < sents ==>
      r.value[b][s] == MaskedInputRow(source[b], entityMask[b][s], verbMask[b][s], width)
  {
    if !HasShape(verbMask, |source|, sents, tokens) then Err(AssertionError)
    else if !(forall b :: 0 <= b < |source| ==> |source[b]| == tokens) then Err(AssertionError)
    else if !(|source| == batchSize && width == 2 * hiddenSize) then Err(AssertionError)
    else Ok(seq(|source|, b requires 0 <= b < |source| => ParagraphInput(source[b], entityMask[b], verbMask[b], width)))
  }

  /** `get_masked_input` on one paragraph: one row per sentence. */
  function ParagraphInput(source: seq<Vector>, entityRows: seq<MaskRow>, verbRows: seq<MaskRow>, width: nat): (rows: seq<Vector>)
    requires IsMatrix(source, width)
    requires RowsOfLength(entityRows, |source|) && RowsOfLength(verbRows, |source|) && |verbRows| == |entityRows|
    ensures |rows| == |entityRows| && IsMatrix(rows, 2 * width)
    ensures forall s :: 0 <= s < |rows| ==> rows[s] == MaskedInputRow(source, entityRows[s], verbRows[s], width)
  {
    seq(|entityRows|, s requires 0 <= s < |entityRows| => MaskedInputRow(source, entityRows[s], verbRows[s], width))
  }

  // ---------------------------------------------------------------------------
  // get_verb_indicator

  /** `torch.sum(verb_mask, dim = 1)` at token `t`: the sum over sentences. */
  function ColumnSum(rows: seq<MaskRow>, t: nat): nat
    requires forall s :: 0 <= s < |rows| ==> t < |rows[s]|
    decreases |rows|
  {
    if |rows| == 0 then 0 else ColumnSum(rows[..|rows| - 1], t) + rows[|rows| - 1][t]
  }

  /** The sentences whose verb mask marks token `t`. */
  function MarkingSentences(rows: seq<MaskRow>, t: nat): set<nat>
    requires forall s :: 0 <= s < |rows| ==> t < |rows[s]|
  {
    set s: nat | s < |rows| && rows[s][t] != 0
  }

  /** With 0/1 masks the indicator counts the sentences in which the token is
      a verb; it is not clipped to 1. */
  lemma {:induction false} ColumnSumCountsSentences(rows: seq<MaskRow>, t: nat)
    requires forall s :: 0 <= s < |rows| ==> t < |rows[s]| && IsBinary(rows[s])
    ensures ColumnSum(rows, t) == |MarkingSentences(rows, t)|
    decreases |rows|
  {
    if |rows| > 0 {
      var n := |rows| - 1;
      var p := rows[..n];
      ColumnSumCountsSentences(p, t);
      assert forall s :: 0 <= s < n ==> p[s] == rows[s];
      if rows[n][t] != 0 {
        assert MarkingSentences(rows, t) == MarkingSentences(p, t) + {n};
      } else {
        assert MarkingSentences(rows, t) == MarkingSentences(p, t);
      }
    }
  }

  /** The indicator is positive exactly where some sentence marks the token. */
  lemma {:induction false} ColumnSumPositiveIff(rows: seq<MaskRow>, t: nat)
    requires forall s :: 0 <= s < |rows| ==> t < |rows[s]|
    ensures ColumnSum(rows, t) > 0 <==> exists s :: 0 <= s < |rows| && rows[s][t] != 0
    decreases |rows|
  {
    if |rows| > 0 {
      var n := |rows| - 1;
      var p := rows[..n];
      ColumnSumPositiveIff(p, t);
      assert forall s :: 0 <= s < n ==> p[s] == rows[s];
      if ColumnSum(rows, t) > 0 && rows[n][t] == 0 {
        var s :| 0 <= s < |p| && p[s][t] != 0;
        assert rows[s][t] != 0;
      }
    }
  }

  /** With 0/1 masks the indicator never exceeds the number of sentences. */
  lemma {:induction false} IndicatorAtMostSentences(rows: seq<MaskRow>, t: nat)
    requires forall s :: 0 <= s < |rows| ==> t < |rows[s]| && IsBinary(rows[s])
    ensures ColumnSum(rows, t) <= |rows|
    decreases |rows|
  {
    if |rows| > 0 {
      var p := rows[..|rows| - 1];
      assert forall s :: 0 <= s < |p| ==> p[s] == rows[s];
      IndicatorAtMostSentences(p, t);
    }
  }

  /** `get_verb_indicator` on one paragraph: a one-component vector per token. */
  function VerbIndicator(rows: seq<MaskRow>, tokens: nat): (ind: seq<Vector>)
    requires RowsOfLength(rows, tokens)
    ensures |ind| == tokens && IsMatrix(ind, 1)
    ensures forall t :: 0 <= t < tokens ==> ind[t][0] == ColumnSum(rows, t) as real
  {
    seq(tokens, t requires 0 <= t < tokens => [ColumnSum(rows, t) as real])
  }

  /** `get_verb_indicator`: shape (batch, tokens, 1). Its assertion fails
      unless the batch has the configured `batch_size` and the masks have
      `max_tokens` tokens. */
  function GetVerbIndicator(verbMask: seq<seq<MaskRow>>, tokens: nat, maxTokens: nat, batchSize: nat)
    : (r: Result<seq<seq<Vector>>>)
    requires forall b :: 0 <= b < |verbMask| ==> RowsOfLength(verbMask[b], tokens)
    ensures r.Ok? <==> |verbMask| == batchSize && tokens == maxTokens
    ensures r.Err? ==> r.failure == AssertionError
    ensures r.Ok? ==> |r.value| == |verbMask|
    ensures r.Ok? ==> forall b :: 0 <= b < |verbMask| ==> r.value[b] == VerbIndicator(verbMask[b], tokens)
  {
    if !(|verbMask| == batchSize && tokens == maxTokens) then Err(AssertionError)
    else Ok(seq(|verbMask|, b requires 0 <= b < |verbMask| => VerbIndicator(verbMask[b], tokens)))
  }

  /** A token that is the verb of two sentences gets indicator 2, not 1. */
  lemma VerbOfTwoSentences()
    ensures VerbIndicator([[1, 0], [1, 0]], 2)[0] == [2.0]
  {
    var rows: seq<MaskRow> := [[1, 0], [1, 0]];
    assert rows[..1][..0] == [];
    assert ColumnSum(rows, 0) == 2;
  }

  // ---------------------------------------------------------------------------
  // The padding mask of NCETModel.forward

  /** `gold_state_seq != PAD_STATE`. */
  function TagMask(gold: seq<seq<int>>, pad: int): (m: seq<seq<bool>>)
    ensures |m| == |gold|
    ensures forall b :: 0 <= b < |gold| ==> |m[b]| == |gold[b]|
    ensures forall b, i :: 0 <= b < |gold| && 0 <= i < |gold[b]| ==> (m[b][i] <==> gold[b][i] != pad)
  {
    seq(|gold|, b requires 0 <= b < |gold| => seq(|gold[b]|, i requires 0 <= i < |gold[b]| => gold[b][i] != pad))
  }

  /** A gold sequence padded at its end is masked as its states followed by
      the padding: the loss sees exactly the real sentences. */
  lemma PaddedSequenceMask(states: seq<int>, padding: nat, pad: int)
    requires pad !in states
    ensures TagMask([states + seq(padding, _ => pad)], pad)[0] == seq(|states|, _ => true) + seq(padding, _ => false)
  {
    var row := states + seq(padding, _ => pad);
    var m := TagMask([row], pad)[0];
    forall i | 0 <= i < |row| ensures m[i] == (i < |states|) {
      if i < |states| {
        assert row[i] == states[i];
      }
    }
  }
}
