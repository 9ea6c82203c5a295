/**
  The bookkeeping of the training loop in train.py: the number of batches
  per epoch, the report accumulators, and the early-stopping state machine
  that keeps the best evaluation score, counts the rounds without
  improvement, decides which checkpoint to save and when to stop.

  The model, the optimiser and the evaluation on the development set are
  not modelled: each training batch enters as its `BatchResult` and each
  evaluation as its score.
*/
module Training {
  import opened PyText

  /** `total_batches`: the batches of `batch_size` instances an epoch needs,
      the last one possibly partial. */
  function TotalBatches(instances: nat, batchSize: nat): (n: nat)
    requires batchSize > 0
    ensures instances <= n * batchSize < instances + batchSize
  {
    if instances % batchSize == 0 then instances / batchSize else instances / batchSize + 1
  }

  /** Exactly as many batches as the instances fill, when they divide evenly. */
  lemma TotalBatchesExact(batches: nat, batchSize: nat)
    requires batchSize > 0
    ensures TotalBatches(batches * batchSize, batchSize) == batches
  {
    var n := TotalBatches(batches * batchSize, batchSize);
    if n < batches {
      MultiplyGap(n, batches, batchSize);
    } else if n > batches {
      MultiplyGap(batches, n, batchSize);
    }
  }

  lemma MultiplyGap(a: nat, b: nat, c: nat)
    requires a < b
    ensures a * c + c <= b * c
  {
    var d := b - a - 1;
    assert b * c == a * c + c + d * c;
  }

  // ---------------------------------------------------------------------------
  // Scores and limits

  /** `best_score`: minus infinity before the first evaluation. */
  datatype ExtReal = NegInf | Finite(value: real)

  /** `eval_score > best_score`. */
  predicate Improves(score: real, best: ExtReal) {
    best.NegInf? || score > best.value
  }

  /** A limit of `opt.epoch` or `opt.impatience`; the option value -1 stands
      for `np.inf`. */
  datatype Limit = Unbounded | Bounded(bound: int)

  function LimitOf(option: int): (l: Limit)
    ensures l.Unbounded? <==> option == -1
    ensures l.Bounded? ==> l.bound == option
  {
    if option == -1 then Unbounded else Bounded(option)
  }

  /** `count >= limit`. */
  predicate Reached(count: int, limit: Limit) {
    limit.Bounded? && count >= limit.bound
  }

  /** Reference definition: the best score of a sequence of evaluations. */
  function BestOf(scores: seq<real>): (best: ExtReal)
    ensures best.NegInf? <==> |scores| == 0
    decreases |scores|
  {
    if |scores| == 0 then NegInf
    else
      var last := scores[|scores| - 1];
      var before := BestOf(scores[..|scores| - 1]);
      if Improves(last, before) then Finite(last) else before
  }

  /** Reference definition: the evaluations since the last strict improvement. */
  function ImpatienceOf(scores: seq<real>): nat
    decreases |scores|
  {
    if |scores| == 0 then 0
    else if Improves(scores[|scores| - 1], BestOf(scores[..|scores| - 1])) then 0
    else ImpatienceOf(scores[..|scores| - 1]) + 1
  }

  /** The best score is the maximum of the scores, first reached at index
      `|scores| - 1 - ImpatienceOf(scores)`: every earlier score is strictly
      lower and no later score is higher. */
  lemma {:induction false} BestIsFirstMaximum(scores: seq<real>) returns (i: nat)
    requires |scores| > 0
    ensures i == |scores| - 1 - ImpatienceOf(scores)
    ensures BestOf(scores) == Finite(scores[i])
    ensures forall j :: 0 <= j < i ==> scores[j] < scores[i]
    ensures forall j :: i < j < |scores| ==> scores[j] <= scores[i]
    decreases |scores|
  {
    var n := |scores| - 1;
    var p := scores[..n];
    if n == 0 {
      i := 0;
    } else {
      var k := BestIsFirstMaximum(p);
      assert forall j :: 0 <= j < n ==> p[j] == scores[j];
      if Improves(scores[n], BestOf(p)) {
        i := n;
      } else {
        i := k;
      }
    }
  }

  /** The best score never decreases from one evaluation to the next. */
  lemma BestMonotone(scores: seq<real>, score: real)
    ensures BestOf(scores).Finite? ==>
      BestOf(scores + [score]).Finite? && BestOf(scores).value <= BestOf(scores + [score]).value
  {
    assert (scores + [score])[..|scores|] == scores;
  }

  /** Impatience never exceeds the number of evaluations and is below it
      once a score has been recorded. */
  lemma {:induction false} ImpatienceBelowRounds(scores: seq<real>)
    ensures |scores| > 0 ==> ImpatienceOf(scores) < |scores|
  {
    if |scores| > 0 {
      var i := BestIsFirstMaximum(scores);
    }
  }

  // ---------------------------------------------------------------------------
  // Report accumulators

  /** What one training batch reports: the two mean losses and the four counts. */
  datatype BatchResult = BatchResult(stateLoss: real, locLoss: real,
                                     stateCorrect: nat, statePred: nat, locCorrect: nat, locPred: nat)

  /** The six `report_*` accumulators. */
  datatype Report = Report(stateLoss: real, locLoss: real,
                           stateCorrect: nat, statePred: nat, locCorrect: nat, locPred: nat)

  const EmptyReport := Report(0.0, 0.0, 0, 0, 0, 0)

  /** The accumulators after one more batch: losses are weighted by the number
      of predictions they average over. */
  function AddBatch(r: Report, b: BatchResult): (r': Report)
    ensures r'.stateCorrect == r.stateCorrect + b.stateCorrect && r'.statePred == r.statePred + b.statePred
    ensures r'.locCorrect == r.locCorrect + b.locCorrect && r'.locPred == r.locPred + b.locPred
  {
    Report(r.stateLoss + b.stateLoss * (b.statePred as real), r.locLoss + b.locLoss * (b.locPred as real),
           r.stateCorrect + b.stateCorrect, r.statePred + b.statePred,
           r.locCorrect + b.locCorrect, r.locPred + b.locPred)
  }

  /** The accumulators over a window of batches, starting from zero. */
  function Totals(window: seq<BatchResult>): Report
    decreases |window|
  {
    if |window| == 0 then EmptyReport else AddBatch(Totals(window[..|window| - 1]), window[|window| - 1])
  }

  /** Reference definitions: the counts of a window summed batch by batch. */
  function SumStatePred(window: seq<BatchResult>): nat
    decreases |window|
  {
    if |window| == 0 then 0 else window[0].statePred + SumStatePred(window[1..])
  }

  function SumStateCorrect(window: seq<BatchResult>): nat
    decreases |window|
  {
    if |window| == 0 then 0 else window[0].stateCorrect + SumStateCorrect(window[1..])
  }

  function SumLocPred(window: seq<BatchResult>): nat
    decreases |window|
  {
    if |window| == 0 then 0 else window[0].locPred + SumLocPred(window[1..])
  }

  function SumLocCorrect(window: seq<BatchResult>): nat
    decreases |window|
  {
    if |window| == 0 then 0 else window[0].locCorrect + SumLocCorrect(window[1..])
  }

  /** Between two resets the accumulated counts are the sums of the counts of
      the batches since the last reset. */
  lemma {:induction false} TotalsAreSums(window: seq<BatchResult>)
    ensures Totals(window).statePred == SumStatePred(window)
    ensures Totals(window).stateCorrect == SumStateCorrect(window)
    ensures Totals(window).locPred == SumLocPred(window)
    ensures Totals(window).locCorrect == SumLocCorrect(window)
    decreases |window|
  {
    if |window| > 0 {
      var n := |window| - 1;
      TotalsAreSums(window[..n]);
      SumsSplit(window[..n], window[n]);
      assert window[..n] + [window[n]] == window;
    }
  }

  lemma {:induction false} SumsSplit(window: seq<BatchResult>, b: BatchResult)
    ensures SumStatePred(window + [b]) == SumStatePred(window) + b.statePred
    ensures SumStateCorrect(window + [b]) == SumStateCorrect(window) + b.stateCorrect
    ensures SumLocPred(window + [b]) == SumLocPred(window) + b.locPred
    ensures SumLocCorrect(window + [b]) == SumLocCorrect(window) + b.locCorrect
    decreases |window|
  {
    if |window| > 0 {
      SumsSplit(window[1..], b);
      assert (window + [b])[1..] == window[1..] + [b];
    } else {
      assert ([] + [b])[1..] == [];
    }
  }

  /** A correct prediction is a prediction: the correct counts never exceed
      the prediction counts when no batch claims more correct than predicted. */
  lemma {:induction false} CorrectAtMostPredicted(window: seq<BatchResult>)
    requires forall i :: 0 <= i < |window| ==>
      window[i].stateCorrect <= window[i].statePred && window[i].locCorrect <= window[i].locPred
    ensures Totals(window).stateCorrect <= Totals(window).statePred
    ensures Totals(window).locCorrect <= Totals(window).locPred
    decreases |window|
  {
    if |window| > 0 {
      CorrectAtMostPredicted(window[..|window| - 1]);
    }
  }

  // ---------------------------------------------------------------------------
  // The early-stopping state machine

  /** The checkpoint an evaluation round saves, tagged with the score in its name. */
  datatype Checkpoint = NoCheckpoint | BestCheckpoint(score: real) | OtherCheckpoint(score: real)

  /** What an evaluation round decides: which checkpoint to save and whether
      training stops (`quit()`). */
  datatype Decision = Decision(checkpoint: Checkpoint, stop: bool)

  /** `opt.save_mode == 'all'`: every non-improving round saves a checkpoint. */
  predicate SavesEveryRound(saveMode: string) {
    saveMode == "all"
  }

  /** The decision of the evaluation round that scores `score` after the
      evaluations `scores`. */
  function Decide(scores: seq<real>, score: real, saveMode: string, impatienceLimit: Limit): (d: Decision)
    ensures Improves(score, BestOf(scores)) ==> d == Decision(BestCheckpoint(score), false)
    ensures !Improves(score, BestOf(scores)) ==>
      && (d.checkpoint == if SavesEveryRound(saveMode) then OtherCheckpoint(score) else NoCheckpoint)
      && (d.stop <==> Reached(ImpatienceOf(scores + [score]), impatienceLimit))
  {
    assert (scores + [score])[..|scores|] == scores;
    if Improves(score, BestOf(scores)) then Decision(BestCheckpoint(score), false)
    else
      var impatience := ImpatienceOf(scores) + 1;
      Decision(if SavesEveryRound(saveMode) then OtherCheckpoint(score) else NoCheckpoint,
               Reached(impatience, impatienceLimit))
  }

  /** An improving round never stops training, and a stopping round has seen
      at least `limit` rounds without improvement. */
  lemma StopNeedsPatienceExhausted(scores: seq<real>, score: real, saveMode: string, limit: int)
    requires Decide(scores, score, saveMode, LimitOf(limit)).stop
    ensures !Improves(score, BestOf(scores))
    ensures ImpatienceOf(scores + [score]) >= limit && limit != -1
  {
  }

  /** With the unbounded limit (-1) training never stops early. */
  lemma UnboundedNeverStops(scores: seq<real>, score: real, saveMode: string)
    ensures !Decide(scores, score, saveMode, LimitOf(-1)).stop
  {
  }

  /** The number of report points among the batch counts 1..n: how many
      evaluations an epoch of n batches makes when nothing stops it. At most
      one evaluation per batch. */
  function ReportCount(reportBatch: set<nat>, n: nat): (c: nat)
    ensures c <= n
    ensures (forall j :: 1 <= j <= n ==> j !in reportBatch) ==> c == 0
    decreases n
  {
    if n == 0 then 0 else ReportCount(reportBatch, n - 1) + (if n in reportBatch then 1 else 0)
  }

  /** The evaluation scores the epochs consumed: the first `used[e]` scores
      of epoch `e`, epoch after epoch. */
  function Consumed(evalScores: seq<seq<real>>, used: seq<nat>): (s: seq<real>)
    requires |used| <= |evalScores|
    requires forall e :: 0 <= e < |used| ==> used[e] <= |evalScores[e]|
    decreases |used|
  {
    if |used| == 0 then []
    else
      var n := |used| - 1;
      Consumed(evalScores, used[..n]) + evalScores[n][..used[n]]
  }

  lemma ConsumedAppend(evalScores: seq<seq<real>>, used: seq<nat>, n: nat)
    requires |used| < |evalScores|
    requires forall e :: 0 <= e < |used| ==> used[e] <= |evalScores[e]|
    requires n <= |evalScores[|used|]|
    ensures Consumed(evalScores, used + [n]) == Consumed(evalScores, used) + evalScores[|used|][..n]
  {
    assert (used + [n])[..|used|] == used;
  }

  /** The scores after one more epoch are those consumed by all the epochs. */
  lemma ScoresAfterEpoch(scores0: seq<real>, before: seq<real>, after: seq<real>,
                         evalScores: seq<seq<real>>, used: seq<nat>, n: nat)
    requires |used| < |evalScores|
    requires forall e :: 0 <= e < |used| ==> used[e] <= |evalScores[e]|
    requires n <= |evalScores[|used|]|
    requires before == scores0 + Consumed(evalScores, used)
    requires after == before + evalScores[|used|][..n]
    ensures after == scores0 + Consumed(evalScores, used + [n])
  {
    ConsumedAppend(evalScores, used, n);
  }

  /** Each decision is the one `Decide` takes on its score after the
      scores before it. */
  ghost predicate DecisionsFollow(decisions: seq<Decision>, scores: seq<real>, evalScores: seq<real>,
                                  saveMode: string, impatienceLimit: Limit)
  {
    && |decisions| <= |evalScores|
    && forall i :: 0 <= i < |decisions| ==>
      decisions[i] == Decide(scores + evalScores[..i], evalScores[i], saveMode, impatienceLimit)
  }

  lemma DecisionsFollowAppend(decisions: seq<Decision>, scores: seq<real>, evalScores: seq<real>,
                              saveMode: string, impatienceLimit: Limit, d: Decision)
    requires DecisionsFollow(decisions, scores, evalScores, saveMode, impatienceLimit)
    requires |decisions| < |evalScores|
    requires d == Decide(scores + evalScores[..|decisions|], evalScores[|decisions|], saveMode, impatienceLimit)
    ensures DecisionsFollow(decisions + [d], scores, evalScores, saveMode, impatienceLimit)
  {
    var ds := decisions + [d];
    forall i | 0 <= i < |ds|
      ensures ds[i] == Decide(scores + evalScores[..i], evalScores[i], saveMode, impatienceLimit)
    {
      if i < |decisions| {
        assert ds[i] == decisions[i];
      }
    }
  }

  /** Only the last decision may stop training. */
  ghost predicate OnlyLastStops(decisions: seq<Decision>) {
    forall i :: 0 <= i < |decisions| - 1 ==> !decisions[i].stop
  }

  lemma OnlyLastStopsAppend(decisions: seq<Decision>, d: Decision)
    requires OnlyLastStops(decisions)
    requires |decisions| == 0 || !decisions[|decisions| - 1].stop
    ensures OnlyLastStops(decisions + [d])
  {
    var ds := decisions + [d];
    forall i | 0 <= i < |ds| - 1 ensures !ds[i].stop {
      assert ds[i] == decisions[i];
    }
  }

  /** The next decision of an epoch, taken on the scores so far and the next
      unused score, keeps the decisions following `Decide`. */
  lemma DecisionsStep(decisions: seq<Decision>, scores0: seq<real>, evalScores: seq<real>,
                      saveMode: string, impatienceLimit: Limit, before: seq<real>, d: Decision)
    requires DecisionsFollow(decisions, scores0, evalScores, saveMode, impatienceLimit)
    requires OnlyLastStops(decisions) && (|decisions| == 0 || !decisions[|decisions| - 1].stop)
    requires |decisions| < |evalScores| && before == scores0 + evalScores[..|decisions|]
    requires d == Decide(before, evalScores[|decisions|], saveMode, impatienceLimit)
    ensures DecisionsFollow(decisions + [d], scores0, evalScores, saveMode, impatienceLimit)
    ensures OnlyLastStops(decisions + [d])
    ensures before + [evalScores[|decisions|]] == scores0 + evalScores[..|decisions| + 1]
  {
    var k := |decisions|;
    assert evalScores[..k + 1] == evalScores[..k] + [evalScores[k]];
    DecisionsFollowAppend(decisions, scores0, evalScores, saveMode, impatienceLimit, d);
    OnlyLastStopsAppend(decisions, d);
  }

  /** The stop rule of lines 206-218 over the scores from position `from` on:
      training has stopped exactly when the decision on the last of them
      stops, and before that the scores had not stopped it. */
  ghost predicate StopRule(scores: seq<real>, from: nat, stopped: bool, saveMode: string, impatienceLimit: Limit)
    decreases |scores|
  {
    && from <= |scores|
    && if |scores| == from then !stopped
       else
         var last := |scores| - 1;
         && stopped == Decide(scores[..last], scores[last], saveMode, impatienceLimit).stop
         && StopRule(scores[..last], from, false, saveMode, impatienceLimit)
  }

  /** The stop rule, stated score by score: training has stopped exactly
      when the decision on the last score stops, and no decision on an
      earlier score after `from` stopped. */
  lemma StopRuleMeaning(scores: seq<real>, from: nat, stopped: bool, saveMode: string, impatienceLimit: Limit)
    requires from <= |scores|
    ensures StopRule(scores, from, stopped, saveMode, impatienceLimit) <==>
      && (stopped <==> |scores| > from && Decide(scores[..|scores| - 1], scores[|scores| - 1], saveMode, impatienceLimit).stop)
      && forall j :: from <= j < |scores| - 1 ==> !Decide(scores[..j], scores[j], saveMode, impatienceLimit).stop
  {
    if StopRule(scores, from, stopped, saveMode, impatienceLimit) {
      StopRuleSound(scores, from, stopped, saveMode, impatienceLimit);
    }
    if && (stopped <==> |scores| > from && Decide(scores[..|scores| - 1], scores[|scores| - 1], saveMode, impatienceLimit).stop)
       && forall j :: from <= j < |scores| - 1 ==> !Decide(scores[..j], scores[j], saveMode, impatienceLimit).stop
    {
      StopRuleComplete(scores, from, stopped, saveMode, impatienceLimit);
    }
  }

  /** The stop rule gives the two clauses of `StopRuleMeaning`. */
  lemma {:induction false} StopRuleSound(scores: seq<real>, from: nat, stopped: bool,
                                         saveMode: string, impatienceLimit: Limit)
    requires StopRule(scores, from, stopped, saveMode, impatienceLimit)
    ensures stopped <==> |scores| > from && Decide(scores[..|scores| - 1], scores[|scores| - 1], saveMode, impatienceLimit).stop
    ensures forall j :: from <= j < |scores| - 1 ==> !Decide(scores[..j], scores[j], saveMode, impatienceLimit).stop
    decreases |scores|
  {
    if |scores| > from {
      var prefix := scores[..|scores| - 1];
      StopRuleSound(prefix, from, false, saveMode, impatienceLimit);
      forall j | from <= j < |scores| - 1
        ensures !Decide(scores[..j], scores[j], saveMode, impatienceLimit).stop
      {
        assert prefix[..j] == scores[..j] && prefix[j] == scores[j];
      }
    }
  }

  /** The two clauses of `StopRuleMeaning` give the stop rule. */
  lemma {:induction false} StopRuleComplete(scores: seq<real>, from: nat, stopped: bool,
                                            saveMode: string, impatienceLimit: Limit)
    requires from <= |scores|
    requires stopped <==> |scores| > from && Decide(scores[..|scores| - 1], scores[|scores| - 1], saveMode, impatienceLimit).stop
    requires forall j :: from <= j < |scores| - 1 ==> !Decide(scores[..j], scores[j], saveMode, impatienceLimit).stop
    ensures StopRule(scores, from, stopped, saveMode, impatienceLimit)
    decreases |scores|
  {
    if |scores| > from {
      var prefix := scores[..|scores| - 1];
      forall j | from <= j < |prefix|
        ensures !Decide(prefix[..j], prefix[j], saveMode, impatienceLimit).stop
      {
        assert prefix[..j] == scores[..j] && prefix[j] == scores[j];
      }
      StopRuleComplete(prefix, from, false, saveMode, impatienceLimit);
    }
  }

  /** The decisions of one epoch, each taken on its score after the earlier
      ones, with only the last stopping, obey the stop rule. */
  lemma DecisionsStopRule(decisions: seq<Decision>, scores0: seq<real>, evalScores: seq<real>,
                          saveMode: string, impatienceLimit: Limit, stopped: bool)
    requires DecisionsFollow(decisions, scores0, evalScores, saveMode, impatienceLimit)
    requires OnlyLastStops(decisions)
    requires stopped <==> |decisions| > 0 && decisions[|decisions| - 1].stop
    ensures StopRule(scores0 + evalScores[..|decisions|], |scores0|, stopped, saveMode, impatienceLimit)
  {
    DecisionsStopRuleUpTo(decisions, scores0, evalScores, saveMode, impatienceLimit, |decisions|, stopped);
  }

  /** The stop rule over the scores of the first `k` decisions of an epoch. */
  lemma {:induction false} DecisionsStopRuleUpTo(decisions: seq<Decision>, scores0: seq<real>, evalScores: seq<real>,
                                                 saveMode: string, impatienceLimit: Limit, k: nat, stopped: bool)
    requires DecisionsFollow(decisions, scores0, evalScores, saveMode, impatienceLimit)
    requires k <= |decisions|
    requires forall i :: 0 <= i < k - 1 ==> !decisions[i].stop
    requires stopped <==> k > 0 && decisions[k - 1].stop
    ensures StopRule(scores0 + evalScores[..k], |scores0|, stopped, saveMode, impatienceLimit)
    decreases k
  {
    var scores := scores0 + evalScores[..k];
    if k == 0 {
      assert scores == scores0;
    } else {
      var prefix := scores0 + evalScores[..k - 1];
      assert scores[..|scores| - 1] == prefix;
      assert scores[|scores| - 1] == evalScores[k - 1];
      DecisionsStopRuleUpTo(decisions, scores0, evalScores, saveMode, impatienceLimit, k - 1, false);
    }
  }

  /** The stop rule of scores that have not stopped training, followed by
      the stop rule of the scores added after them, is the stop rule of
      them all. */
  lemma {:induction false} StopRuleChain(before: seq<real>, added: seq<real>, from: nat, stopped: bool,
                                         saveMode: string, impatienceLimit: Limit)
    requires StopRule(before, from, false, saveMode, impatienceLimit)
    requires StopRule(before + added, |before|, stopped, saveMode, impatienceLimit)
    ensures StopRule(before + added, from, stopped, saveMode, impatienceLimit)
    decreases |added|
  {
    var scores := before + added;
    if |added| == 0 {
      assert scores == before;
    } else {
      var last := |scores| - 1;
      var shorter := added[..|added| - 1];
      assert scores[..last] == before + shorter;
      StopRuleChain(before, shorter, from, false, saveMode, impatienceLimit);
    }
  }

  /** An epoch of `batches` batches stopped at a report point after
      consuming `used` scores: one per report point up to it. */
  ghost predicate StoppedAtReport(reportBatch: set<nat>, batches: nat, used: nat) {
    exists j :: 1 <= j <= batches && j in reportBatch && used == ReportCount(reportBatch, j)
  }

  /** The tracker of `train`: the fields the loop updates, with the scores
      and batches seen so far as ghost history. */
  class Trainer {
    var bestScore: ExtReal
    var impatience: nat
    var epoch: nat
    var batchCnt: nat
    var report: Report
    var stopped: bool
    const epochLimit: Limit
    const impatienceLimit: Limit
    const saveMode: string

    /** Every evaluation score so far, and the batches since the last reset. */
    ghost var scores: seq<real>
    ghost var window: seq<BatchResult>

    ghost predicate Valid()
      reads this
    {
      && bestScore == BestOf(scores)
      && impatience == ImpatienceOf(scores)
      && report == Totals(window)
    }

    /** Lines 109-117: no score yet, no impatience, epoch 0; -1 options become unbounded. */
    constructor (epochOption: int, impatienceOption: int, saveMode: string)
      ensures Valid() && !stopped
      ensures scores == [] && window == [] && epoch == 0 && batchCnt == 0
      ensures bestScore == NegInf && impatience == 0
      ensures epochLimit == LimitOf(epochOption) && impatienceLimit == LimitOf(impatienceOption)
      ensures this.saveMode == saveMode
    {
      bestScore := NegInf;
      impatience := 0;
      epoch := 0;
      batchCnt := 0;
      report := EmptyReport;
      stopped := false;
      epochLimit := LimitOf(epochOption);
      impatienceLimit := LimitOf(impatienceOption);
      this.saveMode := saveMode;
      scores := [];
      window := [];
    }

    /** `while epoch_i < opt.epoch`. */
    predicate MoreEpochs()
      reads this
    {
      !stopped && !Reached(epoch, epochLimit)
    }

    /** Lines 127-130: a new epoch starts with empty accumulators and no batches. */
    method StartEpoch()
      requires Valid() && !stopped
      modifies this
      ensures Valid() && !stopped
      ensures report == EmptyReport && window == [] && batchCnt == 0
      ensures scores == old(scores) && epoch == old(epoch)
      ensures bestScore == old(bestScore) && impatience == old(impatience)
    {
      report := EmptyReport;
      window := [];
      batchCnt := 0;
    }

    /** Lines 174-183: accumulate one batch; the result says whether the
        batch count is one of the report points. */
    method RecordBatch(b: BatchResult, reportBatch: set<nat>) returns (reportNow: bool)
      requires Valid() && !stopped
      modifies this
      ensures Valid() && !stopped
      ensures window == old(window) + [b] && batchCnt == old(batchCnt) + 1
      ensures reportNow <==> batchCnt in reportBatch
      ensures scores == old(scores) && epoch == old(epoch)
      ensures bestScore == old(bestScore) && impatience == old(impatience)
    {
      report := AddBatch(report, b);
      window := window + [b];
      assert window[..|window| - 1] == old(window);
      batchCnt := batchCnt + 1;
      reportNow := batchCnt in reportBatch;
    }

    /** Lines 206-222: take in the evaluation score of a report point. */
    method Evaluate(score: real) returns (d: Decision)
      requires Valid() && !stopped
      modifies this
      ensures Valid()
      ensures scores == old(scores) + [score]
      ensures d == Decide(old(scores), score, saveMode, impatienceLimit)
      ensures stopped == d.stop
      ensures Improves(score, old(bestScore)) ==> bestScore == Finite(score) && impatience == 0
      ensures !Improves(score, old(bestScore)) ==> bestScore == old(bestScore) && impatience == old(impatience) + 1
      ensures !d.stop ==> report == EmptyReport && window == []
      ensures d.stop ==> report == old(report) && window == old(window)
      ensures epoch == old(epoch) && batchCnt == old(batchCnt)
    {
      ghost var before := scores;
      scores := scores + [score];
      assert scores[..|scores| - 1] == before;
      if Improves(score, bestScore) {
        bestScore := Finite(score);
        impatience := 0;
        d := Decision(BestCheckpoint(score), false);
      } else {
        impatience := impatience + 1;
        var checkpoint := if SavesEveryRound(saveMode) then OtherCheckpoint(score) else NoCheckpoint;
        d := Decision(checkpoint, Reached(impatience, impatienceLimit));
      }
      assert d == Decide(before, score, saveMode, impatienceLimit);
      stopped := d.stop;
      if !d.stop {
        report := EmptyReport;
        window := [];
      }
    }

    /** Line 225: the epoch ends. */
    method EndEpoch()
      requires Valid() && !stopped
      modifies this
      ensures Valid() && !stopped
      ensures epoch == old(epoch) + 1
      ensures scores == old(scores) && window == old(window) && report == old(report)
      ensures bestScore == old(bestScore) && impatience == old(impatience) && batchCnt == old(batchCnt)
    {
      epoch := epoch + 1;
    }

    /** One batch of the epoch loop (lines 174-222): accumulate it and, at a
        report point, evaluate `score`. */
    method ProcessBatch(b: BatchResult, reportBatch: set<nat>, score: real) returns (d: Option<Decision>)
      requires Valid() && !stopped
      modifies this
      ensures Valid() && epoch == old(epoch) && batchCnt == old(batchCnt) + 1
      ensures d.Some? <==> batchCnt in reportBatch
      ensures d.None? ==> !stopped && scores == old(scores) && window == old(window) + [b]
      ensures d.Some? ==> d.value == Decide(old(scores), score, saveMode, impatienceLimit)
      ensures d.Some? ==> scores == old(scores) + [score] && stopped == d.value.stop
      ensures d.Some? && !d.value.stop ==> window == []
      ensures d.Some? && d.value.stop ==> window == old(window) + [b]
    {
      var reportNow := RecordBatch(b, reportBatch);
      if reportNow {
        var decision := Evaluate(score);
        d := Some(decision);
      } else {
        d := None;
      }
    }

    /** The state of an epoch after `batchCnt` batches: each report point so
        far consumed the next score of `evalScores`, the decisions are those of
        `Decide`, and only the last of them may have stopped training. */
    ghost predicate InEpoch(scores0: seq<real>, evalScores: seq<real>, reportBatch: set<nat>, decisions: seq<Decision>)
      reads this
    {
      && Valid()
      && |decisions| == ReportCount(reportBatch, batchCnt)
      && (stopped ==> batchCnt in reportBatch)
      && |decisions| <= |evalScores|
      && scores == scores0 + evalScores[..|decisions|]
      && DecisionsFollow(decisions, scores0, evalScores, saveMode, impatienceLimit)
      && (stopped <==> |decisions| > 0 && decisions[|decisions| - 1].stop)
      && OnlyLastStops(decisions)
    }

    /** One step of the epoch loop: the next batch, evaluated with the next
        unused score when its count is a report point. */
    method EpochStep(b: BatchResult, reportBatch: set<nat>, evalScores: seq<real>,
                     ghost scores0: seq<real>, decisions: seq<Decision>) returns (next: seq<Decision>)
      requires InEpoch(scores0, evalScores, reportBatch, decisions) && !stopped
      requires batchCnt < |evalScores|
      modifies this
      ensures InEpoch(scores0, evalScores, reportBatch, next)
      ensures batchCnt == old(batchCnt) + 1 && epoch == old(epoch)
    {
      var d := ProcessBatch(b, reportBatch, evalScores[|decisions|]);
      InEpochStep(scores0, evalScores, reportBatch, decisions, old(scores), d);
      next := if d.Some? then decisions + [d.value] else decisions;
    }

    /** The epoch state after one more batch, from the state before it and
        what the batch did. */
    lemma InEpochStep(scores0: seq<real>, evalScores: seq<real>, reportBatch: set<nat>,
                      decisions: seq<Decision>, before: seq<real>, d: Option<Decision>)
      requires Valid() && 0 < batchCnt <= |evalScores|
      requires |decisions| == ReportCount(reportBatch, batchCnt - 1) && before == scores0 + evalScores[..|decisions|]
      requires DecisionsFollow(decisions, scores0, evalScores, saveMode, impatienceLimit)
      requires OnlyLastStops(decisions) && (|decisions| == 0 || !decisions[|decisions| - 1].stop)
      requires d.Some? <==> batchCnt in reportBatch
      requires d.None? ==> !stopped && scores == before
      requires d.Some? ==> d.value == Decide(before, evalScores[|decisions|], saveMode, impatienceLimit)
      requires d.Some? ==> scores == before + [evalScores[|decisions|]] && stopped == d.value.stop
      ensures InEpoch(scores0, evalScores, reportBatch, if d.Some? then decisions + [d.value] else decisions)
    {
      if d.Some? {
        DecisionsStep(decisions, scores0, evalScores, saveMode, impatienceLimit, before, d.value);
      }
    }

    /** One epoch of `train`: the batches are accumulated one by one, each
        report point evaluates the next score of `evalScores`, and the epoch
        ends early when a decision stops training. */
    method RunEpoch(batches: seq<BatchResult>, reportBatch: set<nat>, evalScores: seq<real>)
      returns (decisions: seq<Decision>)
      requires Valid() && !stopped
      requires |evalScores| >= |batches|
      modifies this
      ensures Valid()
      ensures batchCnt <= |batches| && (stopped || batchCnt == |batches|)
      ensures |decisions| == ReportCount(reportBatch, batchCnt) && |decisions| <= |batches|
      ensures stopped ==> batchCnt in reportBatch
      ensures scores == old(scores) + evalScores[..|decisions|]
      ensures DecisionsFollow(decisions, old(scores), evalScores, saveMode, impatienceLimit)
      ensures stopped <==> |decisions| > 0 && decisions[|decisions| - 1].stop
      ensures OnlyLastStops(decisions)
      ensures StopRule(scores, |old(scores)|, stopped, saveMode, impatienceLimit)
      ensures !stopped ==> epoch == old(epoch) + 1
      ensures stopped ==> epoch == old(epoch)
    {
      StartEpoch();
      decisions := EpochLoop(batches, reportBatch, evalScores);
      DecisionsStopRule(decisions, old(scores), evalScores, saveMode, impatienceLimit, stopped);
      if !stopped {
        EndEpoch();
      }
    }

    /** The batch loop of an epoch (lines 138-222), from a fresh batch count. */
    method EpochLoop(batches: seq<BatchResult>, reportBatch: set<nat>, evalScores: seq<real>)
      returns (decisions: seq<Decision>)
      requires Valid() && !stopped && batchCnt == 0
      requires |evalScores| >= |batches|
      modifies this
      ensures InEpoch(old(scores), evalScores, reportBatch, decisions)
      ensures batchCnt <= |batches| && (stopped || batchCnt == |batches|)
      ensures epoch == old(epoch)
    {
      decisions := [];
      var i := 0;
      while i < |batches| && !stopped
        invariant 0 <= i <= |batches| && batchCnt == i
        invariant InEpoch(old(scores), evalScores, reportBatch, decisions)
        invariant epoch == old(epoch)
      {
        decisions := EpochStep(batches[i], reportBatch, evalScores, old(scores), decisions);
        i := i + 1;
      }
    }

    /** The state of `train` after `ran` epochs: none of them started at the
        epoch limit, only the last may have stopped, and epoch `e` consumed
        the first `used[e]` scores of `evalScores[e]`: one per report point,
        up to the report point where it stopped if it did. The scores obey the
        stop rule. */
    ghost predicate Trained(scores0: seq<real>, epochs: seq<seq<BatchResult>>, reportBatch: set<nat>,
                            evalScores: seq<seq<real>>, ran: nat, used: seq<nat>)
      reads this
    {
      && Valid()
      && |evalScores| == |epochs| && ran <= |epochs|
      && epoch + (if stopped then 1 else 0) == ran
      && (stopped ==> ran > 0)
      && (forall e :: 0 <= e < ran ==> !Reached(e, epochLimit))
      && |used| == ran && (forall e :: 0 <= e < ran ==> used[e] <= |evalScores[e]|)
      && scores == scores0 + Consumed(evalScores, used)
      && StopRule(scores, |scores0|, stopped, saveMode, impatienceLimit)
      && (stopped ==> used[ran - 1] > 0 && StoppedAtReport(reportBatch, |epochs[ran - 1]|, used[ran - 1]))
      && forall e :: 0 <= e < ran && (e < ran - 1 || !stopped) ==>
        used[e] == ReportCount(reportBatch, |epochs[e]|)
    }

    /** One iteration of the epoch loop of `train`. */
    method TrainStep(epochs: seq<seq<BatchResult>>, reportBatch: set<nat>, evalScores: seq<seq<real>>,
                     ghost scores0: seq<real>, ran: nat, used: seq<nat>) returns (next: seq<nat>)
      requires Trained(scores0, epochs, reportBatch, evalScores, ran, used)
      requires ran < |epochs| && MoreEpochs()
      requires |evalScores[ran]| >= |epochs[ran]|
      modifies this
      ensures Trained(scores0, epochs, reportBatch, evalScores, ran + 1, next)
    {
      assert !Reached(ran, epochLimit);
      ghost var before := scores;
      var decisions := RunEpoch(epochs[ran], reportBatch, evalScores[ran]);
      var n := |decisions|;
      ScoresAfterEpoch(scores0, before, scores, evalScores, used, n);
      next := used + [n];
      assert forall e :: 0 <= e < ran ==> next[e] == used[e];
      StopRuleChain(before, evalScores[ran][..n], |scores0|, stopped, saveMode, impatienceLimit);
      if stopped {
        assert StoppedAtReport(reportBatch, |epochs[ran]|, n) by {
          assert 1 <= batchCnt <= |epochs[ran]| && batchCnt in reportBatch && n == ReportCount(reportBatch, batchCnt);
        }
      }
    }

    /** What the invariant of the epoch loop says, clause by clause. */
    lemma TrainedMeans(scores0: seq<real>, epochs: seq<seq<BatchResult>>, reportBatch: set<nat>,
                       evalScores: seq<seq<real>>, ran: nat, used: seq<nat>)
      requires Trained(scores0, epochs, reportBatch, evalScores, ran, used)
      ensures stopped <==>
        |scores| > |scores0| && Decide(scores[..|scores| - 1], scores[|scores| - 1], saveMode, impatienceLimit).stop
      ensures forall j :: |scores0| <= j < |scores| - 1 ==>
        !Decide(scores[..j], scores[j], saveMode, impatienceLimit).stop
    {
      StopRuleMeaning(scores, |scores0|, stopped, saveMode, impatienceLimit);
    }

    /** The epoch loop of `train` (line 121): epochs run while the epoch
        limit is not reached and no decision has stopped training; epoch `e`
        consumes the batches `epochs[e]` and the first `used[e]` scores of
        `evalScores[e]`. */
    method Train(epochs: seq<seq<BatchResult>>, reportBatch: set<nat>, evalScores: seq<seq<real>>)
      returns (ran: nat, used: seq<nat>)
      requires Valid() && !stopped && epoch == 0
      requires |evalScores| == |epochs|
      requires forall e :: 0 <= e < |epochs| ==> |evalScores[e]| >= |epochs[e]|
      modifies this
      ensures Valid()
      ensures ran <= |epochs|
      ensures stopped || ran == |epochs| || Reached(epoch, epochLimit)
      ensures epoch + (if stopped then 1 else 0) == ran
      ensures forall e :: 0 <= e < ran ==> !Reached(e, epochLimit)
      ensures |used| == ran && forall e :: 0 <= e < ran ==> used[e] <= |evalScores[e]|
      ensures scores == old(scores) + Consumed(evalScores, used)
      ensures forall e :: 0 <= e < ran && (e < ran - 1 || !stopped) ==>
        used[e] == ReportCount(reportBatch, |epochs[e]|)
      ensures stopped ==> ran > 0 && used[ran - 1] > 0 && StoppedAtReport(reportBatch, |epochs[ran - 1]|, used[ran - 1])
      ensures stopped <==>
        |scores| > |old(scores)| && Decide(scores[..|scores| - 1], scores[|scores| - 1], saveMode, impatienceLimit).stop
      ensures forall j :: |old(scores)| <= j < |scores| - 1 ==>
        !Decide(scores[..j], scores[j], saveMode, impatienceLimit).stop
    {
      ran, used := TrainLoop(epochs, reportBatch, evalScores);
      TrainedMeans(old(scores), epochs, reportBatch, evalScores, ran, used);
    }

    /** The epoch loop of `train` (line 121) and the invariant it keeps. */
    method TrainLoop(epochs: seq<seq<BatchResult>>, reportBatch: set<nat>, evalScores: seq<seq<real>>)
      returns (ran: nat, used: seq<nat>)
      requires Valid() && !stopped && epoch == 0
      requires |evalScores| == |epochs|
      requires forall e :: 0 <= e < |epochs| ==> |evalScores[e]| >= |epochs[e]|
      modifies this
      ensures Trained(old(scores), epochs, reportBatch, evalScores, ran, used)
      ensures stopped || ran == |epochs| || Reached(epoch, epochLimit)
    {
      ran := 0;
      used := [];
      while ran < |epochs| && MoreEpochs()
        invariant Trained(old(scores), epochs, reportBatch, evalScores, ran, used)
      {
        used := TrainStep(epochs, reportBatch, evalScores, old(scores), ran, used);
        ran := ran + 1;
      }
    }
  }
}
