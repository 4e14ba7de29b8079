# gshare branch predictor — a Dafny model

This project models the branch predictor of a branch-prediction simulator
(`src/predictor.c`). The predictor has two entry points. `make_prediction(pc)`
guesses whether the conditional branch at address `pc` is taken.
`train_predictor(pc, outcome)` updates the state with the real outcome. Both
dispatch on the configured predictor type `bpType`:

- **STATIC** always predicts taken and has no state.
- **GSHARE** keeps a table `bhtGlobal` of 2^`ghistoryBits` 2-bit saturating
  counters and a 64-bit global history register `gHistory`. A branch selects
  the counter at `(pc & mask) ^ (gHistory & mask)`, where
  `mask = 2^ghistoryBits - 1`. Training moves that counter one step toward the
  outcome, saturating at both ends. It then shifts the outcome into the
  history register.
- **TOURNAMENT**, **CUSTOM** and any other value have empty `case` labels in
  the code. They predict not taken and train nothing.

The model is functional: the state is an immutable value, and prediction and
training are pure functions over it.

Files:

- `bits.dfy` (`Bits`): `uint32`/`uint64`, and the bit operations as
  arithmetic on naturals.
  - `Low(x, n)` is `x & (2^n - 1)`.
  - `Xor(a, b, n)` is `(a & m) ^ (b & m)` with `m = 2^n - 1`.
  - `ShiftIn(h, b, 64)` is `(h << 1) | b` on a `uint64`.

  Lemmas give each operation its bit-by-bit meaning. `LowIsMod` also shows
  that `Low` is the remainder modulo 2^n.
- `counter.dfy` (`Counters`): the `Counter` enum `SN | WN | WT | ST`, the
  `Outcome` enum, and the counter's prediction and training steps. Both steps
  are checked against a reference order: `Level`, 0..3, with min/max
  saturation.
- `gshare.dfy` (`Gshare`): the gshare state `(bht, ghistory)`, with `Init`,
  `Index`, `Predict` and `Train`.
- `predictor.dfy` (`Predictor`): the configuration (`ghistoryBits`,
  `bpType`), and dispatch for `init_predictor`, `make_prediction` and
  `train_predictor`.
- `trace.dfy` (`Trace`): the driver's predict-then-train loop over a branch
  trace. It is used to state what the history register holds after a run,
  and to derive a worked trace.

Constants: `predictor.h` is not part of this model. The model takes these
values from the simulator's usual header:

- `NOTTAKEN = 0` and `TAKEN = 1`. Line 110 ORs the outcome value itself into
  the history register, so both values are observable: a taken branch shifts
  in a 1 and a not-taken branch a 0 (`Counters.OutcomeBit`).
- The counter order `SN < WN < WT < ST`.

Behaviour of the code worth noting:

- An unknown `bpType` reaches the `default:` label of `make_prediction` and
  predicts **not taken** (lines 128-133). Only STATIC predicts taken.
- The gshare index mixes the history into every prediction. With
  `ghistoryBits = 1` and four branches at address 0 (taken, not taken, taken,
  taken), the predictions are not taken, not taken, taken, not taken
  (`Trace.ExampleTrace`).
- The GSHARE `case` of `train_predictor` has no `break`. It falls through to
  the next `break`, which changes nothing.

## Model

| member | source | states |
|---|---|---|
| `Counters.CounterPredict` | src/predictor.c:75-81 | A counter predicts taken exactly when it is in the upper half of the order (WT or ST). It predicts not taken exactly when it is in the lower half (SN or WN). |
| `Counters.CounterTrain` | src/predictor.c:92-104 | Training on taken moves the counter one position up the order SN<WN<WT<ST, and ST stays ST. Training on not taken moves it one position down, and SN stays SN. The result is the counter at the clamped position min(level+1, 3) or max(level-1, 0). |
| `Counters.TrainMonotone` | src/predictor.c:92-104 | Training never moves a counter away from the outcome. The counter stays put exactly when it is already saturated toward that outcome. |
| `Counters.TrainKeepsAgreement` | src/predictor.c:92-104 | A counter that already predicts the outcome still predicts it after training, and it ends in a strong state. |
| `Counters.Hysteresis` | src/predictor.c:92-104 | A weak counter predicts any outcome after one training on it. A strong counter needs two contrary outcomes to flip its prediction. |
| `Counters.TrainRepeatLevel` | src/predictor.c:92-104 | k trainings with one outcome move the counter k positions toward it, clamped at the end of the order. |
| `Counters.TrainRepeatSaturates` | src/predictor.c:92-104 | After three or more trainings with one outcome, any counter is saturated toward that outcome and predicts it. |
| `Counters.OutcomeBit` | src/predictor.c:110 | The bit an outcome contributes to the history register is 1 exactly for taken. |
| `Bits.Xor` | src/predictor.c:74 | The masked exclusive-or of two values is below 2^n. |
| `Bits.XorBit` | src/predictor.c:74 | Bit i of the masked exclusive-or is set exactly when i < n and the operands differ at bit i. |
| `Bits.LowBit` | src/predictor.c:74 | Masking with `2^n - 1` keeps every bit below n and clears every bit at or above n. |
| `Bits.LowIsMod` | src/predictor.c:74 | Masking with `2^n - 1` gives the remainder modulo 2^n. |
| `Bits.ShiftIn` | src/predictor.c:110 | `(h << 1) \| b` on a 64-bit register is (2h + b) mod 2^64, and it stays below 2^64. |
| `Bits.ShiftInBit` | src/predictor.c:110 | After `(h << 1) \| b` on a 64-bit register, bit 0 is b and bit i is the old bit i-1. The old top bit is lost. |
| `Bits.ShiftInLow` | src/predictor.c:110 | The low n bits of the shifted register are the old low n-1 bits moved up by one, with the new bit at 0. |
| `Gshare.Init` | src/predictor.c:53-59 | A fresh gshare state has exactly 2^ghistoryBits counters, all WN, and history 0. |
| `Gshare.Index` | src/predictor.c:73-74 | The table index is below 2^ghistoryBits for every pc and every history, so the table access is in bounds. |
| `Gshare.Predict` | src/predictor.c:71-86 | The prediction is taken exactly when the selected counter is WT or ST, and not taken exactly when it is WN or SN. |
| `Gshare.IndexBits` | src/predictor.c:74 | Index bit k is set exactly when k < ghistoryBits and the pc and the history differ at bit k. |
| `Gshare.IndexUsesLowHistory` | src/predictor.c:90-91 | Two histories that agree in their low ghistoryBits bits select the same slot, so bits beyond the mask never matter. |
| `Gshare.IndexOfEmptyHistory` | src/predictor.c:74 | With history 0, the index is the low ghistoryBits bits of the pc. |
| `Gshare.Train` | src/predictor.c:88-111 | Training keeps the table size. It trains only the counter at the index of the pre-shift history, and every other entry is unchanged. The new history's low ghistoryBits bits are the old low bits shifted up by one, with the outcome at bit 0. Across all 64 bits, bit 0 is the outcome and bit k is the old bit k-1. |
| `Gshare.PredictReadsOnlySlot` | src/predictor.c:72-75 | Two states with the same history that agree on the slot the pc selects give the same prediction, whatever the other slots hold. |
| `Gshare.InitPredictsNotTaken` | src/predictor.c:55-81 | A freshly initialised gshare table predicts not taken for every pc. |
| `Gshare.CorrectPredictionIsStable` | src/predictor.c:89-104 | Training on a correctly predicted outcome leaves that slot predicting the same outcome. |
| `Predictor.Init` | src/predictor.c:49-68 | Only GSHARE allocates: 2^ghistoryBits entries, all WN. Every other type keeps no table. The history is 0 and the configuration is kept. |
| `Predictor.Predict` | src/predictor.c:117-134 | STATIC predicts taken. TOURNAMENT, CUSTOM and unknown types predict not taken. GSHARE predicts from the counter at the gshare index. |
| `Predictor.Train` | src/predictor.c:140-152 | For every type but GSHARE, the state is unchanged. GSHARE trains the indexed counter and leaves every other entry unchanged. It shifts the outcome into the history register: bit 0 becomes the outcome and bit k the old bit k-1. The configuration and the state invariant are kept. |
| `Predictor.PredictTrainSameSlot` | src/predictor.c:118-145 | Under GSHARE, `make_prediction` at a pc depends on no slot other than the one the pc and history select, and `train_predictor` at that pc leaves every other slot unchanged. |
| `Predictor.NonGshareIgnoresBranch` | src/predictor.c:121-133 | Without gshare, the prediction does not depend on the pc, and it is taken exactly for STATIC. |
| `Trace.Run` | src/predictor.c:117-152 | Running a trace yields one prediction per branch and keeps the configuration and the state invariant. |
| `Trace.RunPredictsBeforeTraining` | src/predictor.c:113-141 | The prediction for branch i is made from the state left by branches 0..i-1, before branch i's own training. |
| `Trace.RunNonGshareIsInert` | src/predictor.c:121-151 | For every type but GSHARE, a whole trace leaves the state unchanged. The predictions are all taken for STATIC and all not taken for the rest. |
| `Trace.RunHistory` | src/predictor.c:110 | After a trace, history bit i is the outcome i branches back, for i below the trace length and 64. Higher bits are the starting history moved up by the trace length. |
| `Trace.FreshHistoryIsZero` | src/predictor.c:53-110 | Starting from initialisation, every history bit not yet written by the trace is 0. |
| `Trace.ExampleTrace` | src/predictor.c:71-111 | With ghistoryBits = 1 and pc 0 (taken, not taken, taken, taken), the predictions are not taken, not taken, taken, not taken. The table ends as [ST, WN]. |

## Left out

- Tournament and custom predictors: the code has only empty `case` labels for them, so they are modelled as the not-taken / no-training fallbacks the code has.
- The `printf` diagnostics for an unknown counter value: a `Counter` is an enum, so the `default:` branches cannot be reached.
- Student information strings, `bpName` and `verbose`: output only.
- `malloc`/`memset`: the table is a `seq<Counter>`. Non-GSHARE types keep the zero-initialised globals, modelled as an empty table and history 0.
- Outcome values other than 0 and 1: `outcome` is a `uint8_t`, but the driver passes only `TAKEN` or `NOTTAKEN`, so the model uses a two-valued `Outcome`.
- `ghistoryBits` above 30: `1 << ghistoryBits` is computed on an `int`, so GSHARE configurations are required to have `ghistoryBits <= 30`.
- Trace file reading, command-line parsing and statistics: these belong to the driver, and `Trace.Run` stands in for its loop.
