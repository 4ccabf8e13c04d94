# CAN anomaly detection and signal decoding, in Dafny

This project models the deterministic core of a small CAN-bus toolkit written
in Python:

- **The heuristic rule engine** (`HeuristicEngine.check`). It is a
  per-identifier state machine over two maps: the time each identifier was
  last seen and the payload it last carried. For every frame it applies three
  rules in a fixed order:
  - a strict timeout on the gap since the identifier was last seen;
  - a byte-wise detector for bits that went from 0 to 1;
  - a check that a DM1 frame holds an active fault record. DM1 is group
    number 0xFECA of SAE J1939-73. A frame is DM1 when bits 8 to 23 of its
    identifier equal that number. Its fault records are 4 bytes each and
    start at payload byte 8.
- **The signal decoder** of the device imitator (`process_can_message`). It
  reads the payload as one big-endian integer and cuts out a bit field
  counted from the most significant end. It then optionally reinterprets the
  field as two's complement, scales it with `raw * factor + offset`, and
  stores one name-to-value map per known frame identifier.
- **The learned scorer's lifecycle and features** (`CANAutoencoderEngine`):
  - the fixed 10-element feature vector;
  - the untrained-to-trained flag;
  - the strict threshold gate;
  - checkpoint loading with its 0.05 fallback threshold.

  The network is a type parameter `W`. The training procedure and the
  reconstruction loss are functions passed in by the caller.
- **The orchestrator** (`AnomalyEngine`). Two switches route each frame to
  the scorer, the heuristic engine, or both. A switched-off detector
  contributes nothing and its state stays as it was.

Modules, one per file:

- `Results`: the result and option types.
- `BitMath`: powers of two, bit selection and division lemmas.
- `CanFrame`: bytes and frames.
- `SignalDecoding`
- `HeuristicRules`
- `Autoencoder`
- `Orchestration`

Engine state is an immutable record. Every operation returns the new state
with its output. A Python exception is an `Err` result, and an `Err` means
the state is unchanged. The one exception is a mismatched checkpoint, noted
under "## Left out".

The decoder reads bit 0 as the top bit of byte 0, over however many bytes the
payload has. The test suite's encoder, `encode_signal_to_data`
("CAN Test Suite/gui.py:104-127"), numbers bits the other way. It writes bit
`i` of the raw value at absolute bit `start_bit + i`, counting from the least
significant bit of byte 0 (gui.py:120-125). So 1000 as a 16-bit field at bit 0
encodes to `[0xE8, 0x03]`, and the decoder reads those bytes as 59395
(`SignalDecoding.ExampleBigEndianField`). The encoder belongs to the test
suite's user interface and is not modelled. There is no decode-of-encode round
trip to state.

`evaluate` returns a dictionary with exactly two entries,
`ai` and `heur` (anomaly_engine.py:17-20). So `Verdict` has exactly those
two fields and no loss value.

## Model

| member | source | states |
|---|---|---|
| SignalDecoding.ExtractRaw | CAN_Device_Imitation/Template.py:24-26 | Extraction fails exactly when the field does not fit: a negative length, or `start + length` past `8 * len(data)` (a negative shift count). A successful field lies in `[0, 2^length)`. |
| SignalDecoding.BigEndianBit | CAN_Device_Imitation/Template.py:26 | Bit `q` of the big-endian payload integer is payload bit `8n - 1 - q` in most-significant-first numbering. |
| SignalDecoding.BigEndianBound | CAN_Device_Imitation/Template.py:26 | The big-endian value of an `n`-byte payload is below `2^(8n)`. |
| SignalDecoding.ExtractReadsMsbFirst | CAN_Device_Imitation/Template.py:26 | Bit `j` of the extracted field is payload bit `start + length - 1 - j`. Bit 0 of the payload is the top bit of byte 0, and the field's last bit is its least significant. |
| SignalDecoding.FieldBitsBits | CAN_Device_Imitation/Template.py:26 | The reference reading, which takes the field one payload bit at a time, has the same bits at the same places. |
| SignalDecoding.FieldBitsBound | CAN_Device_Imitation/Template.py:26 | The reference reading of `count` bits is below `2^count`. |
| SignalDecoding.RawIsFieldBits | CAN_Device_Imitation/Template.py:26 | The shift-and-mask extraction equals the bit-by-bit reference reading of the field. |
| SignalDecoding.TopBit | CAN_Device_Imitation/Template.py:29 | For a value of `n` bits, the test `raw >= 2^(n-1)` holds exactly when its top bit is set. |
| SignalDecoding.Interpret | CAN_Device_Imitation/Template.py:29-30 | An unsigned field is kept as it is. A signed field lands in `[-2^(length-1), 2^(length-1))` and is congruent to the raw field modulo `2^length`. A signed field of width 0 fails. |
| SignalDecoding.InterpretIsFieldValue | CAN_Device_Imitation/Template.py:26-30 | Extracting and reinterpreting equals the reference two's-complement reading, whose sign is the field's first payload bit. |
| SignalDecoding.Decode | CAN_Device_Imitation/Template.py:24-31 | One signal decodes exactly when its field fits and, if signed, has a sign bit. |
| SignalDecoding.DecodeMatchesBitReading | CAN_Device_Imitation/Template.py:26-31 | A decodable signal decodes, and its physical value is its bit-read integer (`FieldValue`) scaled by `Scale`, that is, times `factor` plus `offset`. |
| SignalDecoding.ExampleBigEndianField | CAN_Device_Imitation/Template.py:26 | Payload `[0xE8, 0x03]` read as an unsigned 16-bit field from bit 0 gives 59395. |
| SignalDecoding.ExampleSignedByte | CAN_Device_Imitation/Template.py:29-31 | Payload `[0xFF]` read as a signed 8-bit field gives -1. |
| SignalDecoding.DecodeSignals | CAN_Device_Imitation/Template.py:20-33 | A frame decodes exactly when every signal does, and the result has exactly one key per signal name. |
| SignalDecoding.DecodeSignalsKeepsLast | CAN_Device_Imitation/Template.py:22-33 | Every signal's name is in the decoded map, and it holds the value of the last signal that carries that name. |
| SignalDecoding.ProcessCanMessage | CAN_Device_Imitation/Template.py:12-36 | An unknown identifier leaves the store unchanged. A known one succeeds exactly when all its signals decode. It then replaces that identifier's entry with a map keyed by the signal names and leaves every other identifier's entry as it was. |
| HeuristicRules.NewEngine | CAN_Anomaly_Detection/heuristic_rules.py:8-11 | A new engine has two empty maps, which trivially share their keys, and the given timeout. |
| HeuristicRules.DefaultEngine | CAN_Anomaly_Detection/heuristic_rules.py:5-11 | A new engine has seen no identifier, keeps its two maps on the same keys, and has a timeout of 0.5 seconds. |
| HeuristicRules.TimeoutRule | CAN_Anomaly_Detection/heuristic_rules.py:19-23 | At most one reason is raised. It is raised exactly when the identifier was seen before and the gap strictly exceeds the timeout, and it carries the identifier and the gap. |
| HeuristicRules.RiseMask | CAN_Anomaly_Detection/heuristic_rules.py:32 | A bit is set in `~prev & cur & 0xFF` exactly when it is 0 in the previous byte and 1 in the current one. |
| HeuristicRules.RiseMaskZeroIffOnlyFalling | CAN_Anomaly_Detection/heuristic_rules.py:32-33 | The rise mask is zero exactly when every bit set in the current byte was already set in the previous one. |
| HeuristicRules.BitRises | CAN_Anomaly_Detection/heuristic_rules.py:31-34 | The result is one reason per byte position with a non-zero rise mask, carrying that mask, in ascending position, and none for other positions. |
| HeuristicRules.IsDm1 | CAN_Anomaly_Detection/heuristic_rules.py:44-48 | An identifier is DM1 exactly when it is 0xFECA shifted up by 8 plus some low byte and some multiple of 2^24: bits 8 to 23 hold 0xFECA and the other bits are free. |
| HeuristicRules.AnyActive | CAN_Anomaly_Detection/heuristic_rules.py:57-62 | The early-exit loop over records finds an active record exactly when one exists in the range. |
| HeuristicRules.HasDm1Fault | CAN_Anomaly_Detection/heuristic_rules.py:50-62 | A payload shorter than 12 bytes holds no fault. Otherwise there is a fault exactly when some complete 4-byte record from byte 8 on has a byte other than 0x00 and 0xFF. A trailing partial record is ignored. |
| HeuristicRules.Dm1Rule | CAN_Anomaly_Detection/heuristic_rules.py:37-40 | The DM1 reason is raised, once, exactly when the identifier is DM1 and the payload holds an active record. |
| HeuristicRules.ConcatInRuleOrder | CAN_Anomaly_Detection/heuristic_rules.py:17-42 | A timeout list, then bit reasons by ascending byte, then a DM1 list, together are in rule order. |
| HeuristicRules.Check | CAN_Anomaly_Detection/heuristic_rules.py:14-42 | The identifier's time and payload are recorded whatever fires, and no other identifier changes. The maps stay on equal keys. Reasons come in rule order. The timeout reason comes first exactly when the identifier timed out. The DM1 reason is present exactly when the frame is DM1 with a fault. |
| HeuristicRules.CheckBitRises | CAN_Anomaly_Detection/heuristic_rules.py:26-35 | A bit reason for byte `i` with mask `m` is present exactly when a previous payload of equal length exists and `m` is byte `i`'s non-zero rise mask. |
| HeuristicRules.FirstSightOnlyDm1 | CAN_Anomaly_Detection/heuristic_rules.py:20-40 | The first frame of an identifier raises neither a timeout nor a bit reason; only the DM1 reason can appear. |
| HeuristicRules.OnlyFallingNoBitRise | CAN_Anomaly_Detection/heuristic_rules.py:27-34 | If every current byte's set bits are a subset of the previous byte's, no bit reason is raised. |
| HeuristicRules.ReplayKeepsLatest | CAN_Anomaly_Detection/heuristic_rules.py:24-35 | After a stream of frames, every identifier in it holds the time and payload of its latest frame. |
| HeuristicRules.ReplayLeavesOthers | CAN_Anomaly_Detection/heuristic_rules.py:14-35 | After a stream, an identifier the stream never carried has the entries it had before, and the timeout is unchanged. |
| Autoencoder.NewScorer | CAN_Anomaly_Detection/autoencoder.py:26-30 | A new scorer is untrained and holds the given threshold. |
| Autoencoder.DefaultScorer | CAN_Anomaly_Detection/autoencoder.py:26-30 | By default the threshold is 0.1. |
| Autoencoder.Preprocess | CAN_Anomaly_Detection/autoencoder.py:32-34 | The feature vector always has 10 elements: the identifier over 2048, the declared length over 8, then eight payload slots holding each byte over 255, with 0 for a missing byte. Bytes past the eighth are dropped. |
| Autoencoder.Batch | CAN_Anomaly_Detection/autoencoder.py:40 | The training batch has one feature vector per message: entry `i` is the feature vector of message `i`. |
| Autoencoder.Train | CAN_Anomaly_Detection/autoencoder.py:36-47 | Training fails exactly when the learning rate is negative, which the optimiser rejects first, or the batch is empty, and the error says which. Otherwise the scorer ends trained, with the fitted weights and the threshold it had. |
| Autoencoder.IsAnomalous | CAN_Anomaly_Detection/autoencoder.py:49-57 | An untrained scorer flags nothing. A trained one flags a frame exactly when the loss of its feature vector strictly exceeds the threshold. |
| Autoencoder.SaveModel | CAN_Anomaly_Detection/autoencoder.py:59-63 | The checkpoint holds the scorer's weights and, always present, its threshold. |
| Autoencoder.LoadModel | CAN_Anomaly_Detection/autoencoder.py:65-69 | An unreadable checkpoint fails. Otherwise the scorer is trained, with the stored weights and the stored threshold, or 0.05 if none is stored. |
| Autoencoder.SaveLoadRoundTrip | CAN_Anomaly_Detection/autoencoder.py:59-69 | Loading a saved checkpoint restores its weights and threshold exactly, whatever the scorer held before. |
| Autoencoder.TrainedIsPermanent | CAN_Anomaly_Detection/autoencoder.py:36-69 | No sequence of training and loading steps makes a trained scorer untrained. |
| Autoencoder.TrainingKeepsThreshold | CAN_Anomaly_Detection/autoencoder.py:36-47 | Any number of training steps leaves the threshold as it was. |
| Autoencoder.TrainedIffSomeSuccess | CAN_Anomaly_Detection/autoencoder.py:30-69 | An untrained scorer becomes trained exactly when some training or loading step succeeds. |
| Orchestration.NewEngine | CAN_Anomaly_Detection/anomaly_engine.py:6-10 | A new orchestrator has the given switches, an untrained scorer with threshold 0.1, and an empty heuristic engine with the default timeout. |
| Orchestration.DefaultEngine | CAN_Anomaly_Detection/anomaly_engine.py:6-8 | Both detectors are on by default. |
| Orchestration.TrainAi | CAN_Anomaly_Detection/anomaly_engine.py:12-14 | With the learned detector off, training changes nothing. With it on, training uses 10 epochs and learning rate 0.001, so it fails exactly on an empty batch. Otherwise the scorer is trained, its weights are the fit of its old weights to the batch, and it keeps its threshold. The switches and the heuristic engine never change. |
| Orchestration.Evaluate | CAN_Anomaly_Detection/anomaly_engine.py:16-28 | The learned flag is raised exactly when that detector is on and the scorer flags the frame. With the heuristic detector off, there are no reasons and its state is unchanged. With it on, the reasons and the new state are exactly those of `check`. The switches and the scorer never change. |
| Orchestration.EvaluateAll | CAN_Anomaly_Detection/anomaly_engine.py:16-28 | A stream of frames gets one verdict per frame. |
| Orchestration.StreamKeepsScorer | CAN_Anomaly_Detection/anomaly_engine.py:16-28 | Over a stream, the switches and the scorer stay as they were. |
| Orchestration.StreamMatchesReplay | CAN_Anomaly_Detection/anomaly_engine.py:25-26 | With the heuristic detector on, its state after a stream equals the heuristic engine's own replay of that stream. |
| Orchestration.StreamVerdicts | CAN_Anomaly_Detection/anomaly_engine.py:16-28 | Frame `k` of a stream gets the learned flag exactly when that detector is on and the unchanged scorer flags the frame. With the heuristic detector on, its reasons are those `check` gives after replaying the frames before it. With it off, there are none. |
| Orchestration.StreamWithoutHeuristic | CAN_Anomaly_Detection/anomaly_engine.py:19-26 | With the heuristic detector off, no verdict in a stream carries a reason, and its state never moves. |
| Orchestration.StreamWithoutAiFlag | CAN_Anomaly_Detection/anomaly_engine.py:17-23 | With the learned detector off, or its scorer untrained, no verdict in a stream raises the learned flag. |

## Left out

- The network itself: `CANAutoencoder`, Adam optimisation, mean-squared-error training and float32 arithmetic. Weights are a type parameter. Training and the reconstruction loss are caller-supplied functions, so the model proves nothing about loss values. Real numbers stand in for floats without rounding, here and in the decoder's `raw * factor + offset`.
- Autoencoder.IsAnomalous: the scorer is an immutable value, so the promise that scoring changes neither `trained` nor `threshold` holds by construction rather than as a stated contract.
- Autoencoder.LoadModel: file I/O is out of scope. A readable checkpoint is passed in as `Some(checkpoint)`, and a file `torch.load` cannot read is `None`, which fails with the scorer untouched. A checkpoint that reads but whose `model_state` does not match the network is not modelled. `load_state_dict` raises on it (autoencoder.py:67) after copying the tensors that do match. The weights may then change while `trained` and `threshold` stay as they were.
- Autoencoder.SaveModel: the file write is out of scope. Saving yields the checkpoint record, and the round-trip lemma covers it.
- Autoencoder.Train: apart from the optimiser's refusal of a negative learning rate, the epochs and the rate are handed to the fitting function unexamined, so `epochs <= 0` behaves however that function decides. The code sets `trained` even when it runs no epoch, and so does the model. A NaN learning rate, which the optimiser also refuses, has no counterpart among reals.
- HeuristicRules.TimeoutRule: timestamps and the timeout are reals, not floats, so the gap is exact. At the strict boundary the two can differ. With last seen 0.6, a frame at 1.1 and timeout 0.5, the float gap is 0.5000000000000001 and the code reports a timeout, while the model's gap is exactly 0.5 and reports none. `Check` inherits this.
- The device and `model.train()` / `model.eval()` mode switches: these are torch settings with no effect on the modelled state.
- `listen_can_bus` and the `print` in the decoder: a blocking receive loop and console output. The frame definitions are a parameter: the module that defines `DEVICE_DEFINITIONS` (star-imported at Template.py:5-6) is not part of this model.
- Signal encoding: the decoder's file has no encoder. The test suite's LSB-first `encode_signal_to_data` ("CAN Test Suite/gui.py:104-127") is outside the core and does not invert this MSB-first decoder: 1000 encodes to `[0xE8, 0x03]`, which decodes to 59395.
- The human-readable reason strings, including the two-decimal formatting of the gap. Reasons are the datatype `Timeout(id, delta)`, `BitRise(index, mask)`, `Dm1Fault`.
- The `anomalies` field of the heuristic engine: it is never read or written after construction.
- The GUI, its worker threads and its `evaluate(msg, return_loss=True)` call. That call does not match the two-field verdict the orchestrator returns.
- The bus and log-file input wrappers, the bus replay tool, the keystroke clicker, the device tester, the fuzzer and the log replay tool: these are I/O plumbing around the core.
