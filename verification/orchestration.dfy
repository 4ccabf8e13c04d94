/** The orchestrator: one learned scorer and one heuristic engine behind two
    switches, combined into a single verdict per frame. */
module Orchestration {
  import opened CanFrame
  import opened Results
  import H = HeuristicRules
  import A = Autoencoder

  datatype AnomalyEngine<W> = AnomalyEngine(useAi: bool, useHeuristic: bool, ai: A.Scorer<W>, heuristic: H.HeuristicEngine)

  /** The verdict for one frame: the learned scorer's flag and the heuristic reasons. */
  datatype Verdict = Verdict(ai: bool, heur: seq<H.Reason>)

  datatype Evaluated<W> = Evaluated(engine: AnomalyEngine<W>, verdict: Verdict)

  /** A new orchestrator owns an untrained scorer and an empty heuristic engine with the default timeout. */
  function NewEngine<W>(initial: W, useAi: bool, useHeuristic: bool): (e: AnomalyEngine<W>)
    ensures e.useAi == useAi && e.useHeuristic == useHeuristic
    ensures !e.ai.trained && e.ai.threshold == A.DefaultThreshold
    ensures H.Valid(e.heuristic) && e.heuristic.lastSeen == map[] && e.heuristic.timeout == H.DefaultTimeout
  {
    AnomalyEngine(useAi, useHeuristic, A.DefaultScorer(initial), H.DefaultEngine())
  }

  /** Both detectors are on unless switched off. */
  function DefaultEngine<W>(initial: W): (e: AnomalyEngine<W>)
    ensures e.useAi && e.useHeuristic && !e.ai.trained
  {
    NewEngine(initial, true, true)
  }

  /** `train_ai`: trains the scorer with the default epochs and learning rate
      when the learned detector is on, and does nothing when it is off. */
  function TrainAi<W>(e: AnomalyEngine<W>, messages: seq<Frame>, fit: A.Fit<W>): (r: Result<AnomalyEngine<W>, A.ScorerError>)
    ensures !e.useAi ==> r == Ok(e)
    ensures e.useAi ==> (r.Err? <==> |messages| == 0)
    ensures r.Ok? ==> r.value.useAi == e.useAi && r.value.useHeuristic == e.useHeuristic && r.value.heuristic == e.heuristic
    ensures r.Ok? && e.useAi ==> r.value.ai.trained && r.value.ai.threshold == e.ai.threshold
    ensures r.Ok? && e.useAi ==>
              r.value.ai.weights == fit(e.ai.weights, A.Batch(messages), A.DefaultEpochs, A.DefaultLearningRate)
  {
    if !e.useAi then Ok(e)
    else
      var ai :- A.Train(e.ai, messages, A.DefaultEpochs, A.DefaultLearningRate, fit);
      Ok(e.(ai := ai))
  }

  /** `evaluate`: a switched-off detector contributes its neutral part (no
      flag, no reasons) and its state is untouched; a switched-on one answers
      as it would alone. The scorer's state never changes here. */
  function Evaluate<W>(e: AnomalyEngine<W>, msg: Frame, loss: A.Loss<W>): (r: Evaluated<W>)
    ensures r.engine.useAi == e.useAi && r.engine.useHeuristic == e.useHeuristic && r.engine.ai == e.ai
    ensures r.verdict.ai <==> e.useAi && A.IsAnomalous(e.ai, msg, loss)
    ensures !e.useHeuristic ==> r.verdict.heur == [] && r.engine.heuristic == e.heuristic
    ensures e.useHeuristic ==>
              r.verdict.heur == H.Check(e.heuristic, msg).reasons && r.engine.heuristic == H.Check(e.heuristic, msg).engine
  {
    var flagged := if e.useAi then A.IsAnomalous(e.ai, msg, loss) else false;
    if e.useHeuristic then
      var c := H.Check(e.heuristic, msg);
      Evaluated(e.(heuristic := c.engine), Verdict(flagged, c.reasons))
    else
      Evaluated(e, Verdict(flagged, []))
  }

  datatype Evaluations<W> = Evaluations(engine: AnomalyEngine<W>, verdicts: seq<Verdict>)

  /** Evaluating a stream of frames in order. */
  function EvaluateAll<W>(e: AnomalyEngine<W>, frames: seq<Frame>, loss: A.Loss<W>): (r: Evaluations<W>)
    ensures |r.verdicts| == |frames|
  {
    if |frames| == 0 then Evaluations(e, [])
    else
      var before := EvaluateAll(e, frames[..|frames| - 1], loss);
      var step := Evaluate(before.engine, frames[|frames| - 1], loss);
      Evaluations(step.engine, before.verdicts + [step.verdict])
  }

  /** Over a stream, the switches and the scorer stay as they were. */
  lemma {:induction false} StreamKeepsScorer<W>(e: AnomalyEngine<W>, frames: seq<Frame>, loss: A.Loss<W>)
    ensures var r := EvaluateAll(e, frames, loss);
            r.engine.useAi == e.useAi && r.engine.useHeuristic == e.useHeuristic && r.engine.ai == e.ai
  {
    if |frames| > 0 {
      StreamKeepsScorer(e, frames[..|frames| - 1], loss);
    }
  }

  /** With the heuristic detector on, its state after a stream is the heuristic engine's own replay of that stream. */
  lemma {:induction false} StreamMatchesReplay<W>(e: AnomalyEngine<W>, frames: seq<Frame>, loss: A.Loss<W>)
    requires e.useHeuristic
    ensures EvaluateAll(e, frames, loss).engine.heuristic == H.Replay(e.heuristic, frames)
  {
    if |frames| > 0 {
      StreamKeepsScorer(e, frames[..|frames| - 1], loss);
      StreamMatchesReplay(e, frames[..|frames| - 1], loss);
    }
  }

  /** Frame `k` of a stream gets the learned flag of the unchanged scorer and,
      with the heuristic detector on, the reasons `check` gives for it after
      the heuristic engine has replayed the frames before it. */
  lemma {:induction false} StreamVerdicts<W>(e: AnomalyEngine<W>, frames: seq<Frame>, loss: A.Loss<W>, k: int)
    requires 0 <= k < |frames|
    ensures var v := EvaluateAll(e, frames, loss).verdicts[k];
            && (v.ai <==> e.useAi && A.IsAnomalous(e.ai, frames[k], loss))
            && (e.useHeuristic ==> v.heur == H.Check(H.Replay(e.heuristic, frames[..k]), frames[k]).reasons)
            && (!e.useHeuristic ==> v.heur == [])
    decreases |frames|
  {
    var init := frames[..|frames| - 1];
    StreamKeepsScorer(e, init, loss);
    if k < |init| {
      assert init[k] == frames[k] && init[..k] == frames[..k];
      StreamVerdicts(e, init, loss, k);
    } else {
      assert init == frames[..k];
      if e.useHeuristic {
        StreamMatchesReplay(e, init, loss);
      }
    }
  }

  /** With the heuristic detector off, no verdict carries a reason and its state never moves. */
  lemma {:induction false} StreamWithoutHeuristic<W>(e: AnomalyEngine<W>, frames: seq<Frame>, loss: A.Loss<W>)
    requires !e.useHeuristic
    ensures var r := EvaluateAll(e, frames, loss);
            r.engine.heuristic == e.heuristic
            && forall k :: 0 <= k < |frames| ==> r.verdicts[k].heur == []
  {
    if |frames| > 0 {
      StreamKeepsScorer(e, frames[..|frames| - 1], loss);
      StreamWithoutHeuristic(e, frames[..|frames| - 1], loss);
    }
  }

  /** An orchestrator whose scorer is untrained, or whose learned detector is
      off, never raises the learned flag over a whole stream. */
  lemma {:induction false} StreamWithoutAiFlag<W>(e: AnomalyEngine<W>, frames: seq<Frame>, loss: A.Loss<W>)
    requires !e.useAi || !e.ai.trained
    ensures var r := EvaluateAll(e, frames, loss);
            forall k :: 0 <= k < |frames| ==> !r.verdicts[k].ai
  {
    if |frames| > 0 {
      StreamKeepsScorer(e, frames[..|frames| - 1], loss);
      StreamWithoutAiFlag(e, frames[..|frames| - 1], loss);
    }
  }
}
