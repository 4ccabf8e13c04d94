/** The learned half of the anomaly detector, kept to what is decidable without
    the network itself: the fixed feature vector, the trained flag and the
    threshold gate. The network's weights are an opaque type parameter `W`;
    the training procedure, the reconstruction loss and the initial weights
    are supplied by the caller. */
module Autoencoder {
  import opened CanFrame
  import opened Results

  /** Threshold of a newly built scorer. */
  const DefaultThreshold: real := 0.1

  /** Threshold taken when a checkpoint stores none. */
  const FallbackThreshold: real := 0.05

  /** Training defaults: passes over the batch and optimiser step size. */
  const DefaultEpochs: int := 10
  const DefaultLearningRate: real := 0.001

  /** Feature vector width and its normalising divisors. */
  const FeatureWidth: nat := 10
  const PayloadSlots: nat := 8
  const IdScale: real := 2048.0
  const DlcScale: real := 8.0
  const ByteScale: real := 255.0

  type Features = seq<real>

  /** Scorer state: network weights, anomaly threshold, and whether the weights were trained or loaded. */
  datatype Scorer<W> = Scorer(weights: W, threshold: real, trained: bool)

  /** What the scorer saves and loads: weights and, possibly, a threshold. */
  datatype Checkpoint<W> = Checkpoint(weights: W, threshold: Option<real>)

  /** Training fails on a negative learning rate (the optimiser refuses it) and
      on an empty batch (there is nothing to stack); an unreadable checkpoint
      fails to load. */
  datatype ScorerError = InvalidLearningRate | EmptyBatch | UnreadableCheckpoint

  /** The training procedure: from the current weights, the batch's feature
      vectors, the number of epochs and the learning rate, the new weights. */
  type Fit<!W> = (W, seq<Features>, int, real) -> W

  /** The reconstruction loss of a feature vector under given weights. */
  type Loss<!W> = (W, Features) -> real

  function NewScorer<W>(initial: W, threshold: real): (s: Scorer<W>)
    ensures !s.trained && s.threshold == threshold
  {
    Scorer(initial, threshold, false)
  }

  function DefaultScorer<W>(initial: W): (s: Scorer<W>)
    ensures !s.trained && s.threshold == 0.1
  {
    NewScorer(initial, DefaultThreshold)
  }

  function ScaledBytes(data: seq<Byte>): seq<real>
  {
    seq(|data|, i requires 0 <= i < |data| => data[i] as real / ByteScale)
  }

  /** Python's `[0.0] * n`, empty when `n` is not positive. */
  function Zeros(n: int): seq<real>
  {
    if n <= 0 then [] else seq(n, _ => 0.0)
  }

  /** The feature vector: identifier over 2048, declared length over 8, then
      eight payload slots, each byte over 255, missing bytes as 0 and bytes
      past the eighth dropped. */
  function Preprocess(msg: Frame): (v: Features)
    ensures |v| == FeatureWidth
    ensures v[0] == msg.id as real / IdScale && v[1] == msg.dlc as real / DlcScale
    ensures forall i :: 0 <= i < PayloadSlots ==>
              v[2 + i] == if i < |msg.data| then msg.data[i] as real / ByteScale else 0.0
  {
    var head := [msg.id as real / IdScale, msg.dlc as real / DlcScale];
    var vec := head + ScaledBytes(msg.data) + Zeros(PayloadSlots - |msg.data|);
    vec[..FeatureWidth]
  }

  /** The batch `train` stacks: one feature vector per message, in order. */
  function Batch(messages: seq<Frame>): (b: seq<Features>)
    ensures |b| == |messages|
    ensures forall i :: 0 <= i < |messages| ==> b[i] == Preprocess(messages[i])
  {
    seq(|messages|, i requires 0 <= i < |messages| => Preprocess(messages[i]))
  }

  /** `train`: fits the weights to the whole batch and marks the scorer
      trained, keeping the threshold. The optimiser is built before the batch
      is stacked, so a negative learning rate fails first, then an empty
      batch; either failure comes before anything changes. */
  function Train<W>(s: Scorer<W>, messages: seq<Frame>, epochs: int, lr: real, fit: Fit<W>): (r: Result<Scorer<W>, ScorerError>)
    ensures r.Err? <==> lr < 0.0 || |messages| == 0
    ensures r.Err? ==> r.error == if lr < 0.0 then InvalidLearningRate else EmptyBatch
    ensures r.Ok? ==> r.value.trained && r.value.threshold == s.threshold
    ensures r.Ok? ==> r.value.weights == fit(s.weights, Batch(messages), epochs, lr)
  {
    if lr < 0.0 then Err(InvalidLearningRate)
    else if |messages| == 0 then Err(EmptyBatch)
    else Ok(Scorer(fit(s.weights, Batch(messages), epochs, lr), s.threshold, true))
  }

  /** `is_anomalous`: false for every frame until the scorer is trained; then
      whether the frame's reconstruction loss strictly exceeds the threshold. */
  function IsAnomalous<W>(s: Scorer<W>, msg: Frame, loss: Loss<W>): (b: bool)
    ensures !s.trained ==> !b
    ensures s.trained ==> (b <==> loss(s.weights, Preprocess(msg)) > s.threshold)
  {
    if !s.trained then false
    else loss(s.weights, Preprocess(msg)) > s.threshold
  }

  /** `save_model`: the checkpoint holds the weights and the threshold. */
  function SaveModel<W>(s: Scorer<W>): (c: Checkpoint<W>)
    ensures c.weights == s.weights && c.threshold == Some(s.threshold)
  {
    Checkpoint(s.weights, Some(s.threshold))
  }

  /** `load_model`: takes weights and threshold (0.05 when none is stored) from
      a checkpoint and marks the scorer trained. `None` stands for a checkpoint
      that fails before the scorer is touched: a file that cannot be read, or
      one without a `model_state` entry. */
  function LoadModel<W>(s: Scorer<W>, stored: Option<Checkpoint<W>>): (r: Result<Scorer<W>, ScorerError>)
    ensures r.Err? <==> stored.None?
    ensures r.Ok? ==> r.value.trained && r.value.weights == stored.value.weights
    ensures r.Ok? && stored.value.threshold.Some? ==> r.value.threshold == stored.value.threshold.value
    ensures r.Ok? && stored.value.threshold.None? ==> r.value.threshold == FallbackThreshold
  {
    match stored
    case None => Err(UnreadableCheckpoint)
    case Some(cp) => Ok(Scorer(cp.weights, cp.threshold.GetOr(FallbackThreshold), true))
  }

  /** Loading what was saved restores weights and threshold exactly, whatever
      the scorer held before, and leaves it trained. */
  lemma SaveLoadRoundTrip<W>(s: Scorer<W>, before: Scorer<W>)
    ensures LoadModel(before, Some(SaveModel(s))) == Ok(Scorer(s.weights, s.threshold, true))
  {
  }

  // ---------------------------------------------------------------------------
  // Lifecycle

  /** The operations that change a scorer; a failed one leaves it unchanged. */
  datatype ScorerOp<W> = TrainOp(messages: seq<Frame>) | LoadOp(stored: Option<Checkpoint<W>>)

  function Apply<W>(s: Scorer<W>, op: ScorerOp<W>, fit: Fit<W>): Scorer<W>
  {
    var r := match op
      case TrainOp(messages) => Train(s, messages, DefaultEpochs, DefaultLearningRate, fit)
      case LoadOp(stored) => LoadModel(s, stored);
    if r.Ok? then r.value else s
  }

  function ApplyAll<W>(s: Scorer<W>, ops: seq<ScorerOp<W>>, fit: Fit<W>): Scorer<W>
    decreases |ops|
  {
    if |ops| == 0 then s else ApplyAll(Apply(s, ops[0], fit), ops[1..], fit)
  }

  /** Untrained to trained is one-way: no sequence of operations untrains a scorer. */
  lemma {:induction false} TrainedIsPermanent<W>(s: Scorer<W>, ops: seq<ScorerOp<W>>, fit: Fit<W>)
    requires s.trained
    ensures ApplyAll(s, ops, fit).trained
    decreases |ops|
  {
    if |ops| > 0 {
      TrainedIsPermanent(Apply(s, ops[0], fit), ops[1..], fit);
    }
  }

  /** Training never moves the threshold: among these operations, only loading a checkpoint does. */
  lemma {:induction false} TrainingKeepsThreshold<W>(s: Scorer<W>, ops: seq<ScorerOp<W>>, fit: Fit<W>)
    requires forall k :: 0 <= k < |ops| ==> ops[k].TrainOp?
    ensures ApplyAll(s, ops, fit).threshold == s.threshold
    decreases |ops|
  {
    if |ops| > 0 {
      TrainingKeepsThreshold(Apply(s, ops[0], fit), ops[1..], fit);
    }
  }

  /** A scorer becomes trained exactly when some operation succeeds. */
  lemma {:induction false} TrainedIffSomeSuccess<W>(s: Scorer<W>, ops: seq<ScorerOp<W>>, fit: Fit<W>)
    requires !s.trained
    ensures ApplyAll(s, ops, fit).trained <==> exists k :: 0 <= k < |ops| && Succeeds(ops[k])
    decreases |ops|
  {
    if |ops| > 0 {
      var next := Apply(s, ops[0], fit);
      if Succeeds(ops[0]) {
        TrainedIsPermanent(next, ops[1..], fit);
      } else {
        assert next == s;
        TrainedIffSomeSuccess(next, ops[1..], fit);
        assert forall k :: 1 <= k < |ops| ==> ops[k] == ops[1..][k - 1];
      }
    }
  }

  /** Whether an operation succeeds: training needs a non-empty batch, loading a readable checkpoint. */
  predicate Succeeds<W>(op: ScorerOp<W>)
  {
    match op
    case TrainOp(messages) => |messages| > 0
    case LoadOp(stored) => stored.Some?
  }
}
