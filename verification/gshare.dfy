/**
  The gshare predictor: a table of 2^ghistoryBits saturating counters,
  indexed by the low ghistoryBits bits of the branch address exclusive-or'd
  with the same bits of a 64-bit global history register.
 */
module Gshare {
  import opened Bits
  import opened Counters

  /**
    `1 << ghistoryBits` is computed on a C `int`, so the widths the code can
    handle stop below 31.
   */
  const MaxGhistoryBits: nat := 30

  /** `bhtGlobal` and `gHistory`. */
  datatype GshareState = GshareState(bht: seq<Counter>, ghistory: uint64)

  /** The table has the size initialisation gives it for this width. */
  predicate Valid(s: GshareState, ghistoryBits: nat)
  {
    ghistoryBits <= MaxGhistoryBits && |s.bht| == Pow2(ghistoryBits)
  }

  /**
    `init_predictor`, GSHARE case: a table of 2^ghistoryBits counters all
    weakly not taken, and an empty history.
   */
  function Init(ghistoryBits: nat): (s: GshareState)
    requires ghistoryBits <= MaxGhistoryBits
    ensures Valid(s, ghistoryBits)
    ensures forall i :: 0 <= i < |s.bht| ==> s.bht[i] == WN
    ensures s.ghistory == 0
  {
    GshareState(seq(Pow2(ghistoryBits), _ => WN), 0)
  }

  /** `(pc & (num - 1)) ^ (gHistory & (num - 1))` with `num = 1 << ghistoryBits`. */
  function Index(ghistoryBits: nat, pc: uint32, ghistory: uint64): (i: nat)
    ensures i < Pow2(ghistoryBits)
  {
    Xor(pc, ghistory, ghistoryBits)
  }

  /** `make_prediction_gshare`: the direction of the counter the branch and history select. */
  function Predict(s: GshareState, ghistoryBits: nat, pc: uint32): (o: Outcome)
    requires Valid(s, ghistoryBits)
    ensures var c := s.bht[Index(ghistoryBits, pc, s.ghistory)];
      (o == Taken <==> c == WT || c == ST) && (o == NotTaken <==> c == WN || c == SN)
  {
    CounterPredict(s.bht[Index(ghistoryBits, pc, s.ghistory)])
  }

  /**
    `train_gshare`: train the counter at the index of the history as it was
    before this branch, then shift the outcome into the history register.
   */
  function Train(s: GshareState, ghistoryBits: nat, pc: uint32, o: Outcome): (t: GshareState)
    requires Valid(s, ghistoryBits)
    ensures Valid(t, ghistoryBits)
    ensures var i := Index(ghistoryBits, pc, s.ghistory);
      && t.bht[i] == CounterTrain(s.bht[i], o)
      && forall j :: 0 <= j < |s.bht| && j != i ==> t.bht[j] == s.bht[j]
    ensures Low(t.ghistory, ghistoryBits) ==
      if ghistoryBits == 0 then 0 else 2 * Low(s.ghistory, ghistoryBits - 1) + OutcomeBit(o)
    ensures Bit(t.ghistory, 0) == OutcomeBit(o)
    ensures forall k :: 0 < k < HistoryWidth ==> Bit(t.ghistory, k) == Bit(s.ghistory, k - 1)
  {
    var i := Index(ghistoryBits, pc, s.ghistory);
    Pow2Of64();
    var h := ShiftIn(s.ghistory, OutcomeBit(o), HistoryWidth);
    assert ghistoryBits > 0 ==>
      Low(h, ghistoryBits) == 2 * Low(s.ghistory, ghistoryBits - 1) + OutcomeBit(o) by {
      if ghistoryBits > 0 {
        ShiftInLow(s.ghistory, OutcomeBit(o), HistoryWidth, ghistoryBits);
      }
    }
    assert Bit(h, 0) == OutcomeBit(o) by {
      ShiftInBit(s.ghistory, OutcomeBit(o), HistoryWidth, 0);
    }
    assert forall k :: 0 < k < HistoryWidth ==> Bit(h, k) == Bit(s.ghistory, k - 1) by {
      forall k | 0 < k < HistoryWidth {
        ShiftInBit(s.ghistory, OutcomeBit(o), HistoryWidth, k);
      }
    }
    GshareState(s.bht[i := CounterTrain(s.bht[i], o)], h)
  }

  /**
    The index is the bitwise exclusive or of the two masked operands: bit k
    is set exactly when k is below ghistoryBits and pc and history differ there.
   */
  lemma IndexBits(ghistoryBits: nat, pc: uint32, ghistory: uint64, k: nat)
    ensures Bit(Index(ghistoryBits, pc, ghistory), k) ==
      if k < ghistoryBits && Bit(pc, k) != Bit(ghistory, k) then 1 else 0
  {
    XorBit(pc, ghistory, ghistoryBits, k);
  }

  /** History bits at or above ghistoryBits never reach the index. */
  lemma IndexUsesLowHistory(ghistoryBits: nat, pc: uint32, h1: uint64, h2: uint64)
    requires Low(h1, ghistoryBits) == Low(h2, ghistoryBits)
    ensures Index(ghistoryBits, pc, h1) == Index(ghistoryBits, pc, h2)
  {
    XorOfLow(pc, h1, ghistoryBits);
    XorOfLow(pc, h2, ghistoryBits);
  }

  /** With an empty history the index is just the low bits of the branch address. */
  lemma IndexOfEmptyHistory(ghistoryBits: nat, pc: uint32)
    ensures Index(ghistoryBits, pc, 0) == Low(pc, ghistoryBits)
  {
    XorZero(pc, ghistoryBits);
  }

  /**
    The prediction reads one slot only: two states with the same history that
    agree on the slot the branch selects predict alike, whatever the other
    slots hold. With the frame clause of `Train`, the slot a prediction reads
    is the only one the training at the same address writes.
   */
  lemma PredictReadsOnlySlot(s: GshareState, s': GshareState, ghistoryBits: nat, pc: uint32)
    requires Valid(s, ghistoryBits) && Valid(s', ghistoryBits)
    requires s'.ghistory == s.ghistory
    requires s'.bht[Index(ghistoryBits, pc, s.ghistory)] == s.bht[Index(ghistoryBits, pc, s.ghistory)]
    ensures Predict(s', ghistoryBits, pc) == Predict(s, ghistoryBits, pc)
  {
  }

  /** A fresh table predicts not taken for every branch. */
  lemma InitPredictsNotTaken(ghistoryBits: nat, pc: uint32)
    requires ghistoryBits <= MaxGhistoryBits
    ensures Predict(Init(ghistoryBits), ghistoryBits, pc) == NotTaken
  {
  }

  /**
    A counter trained on the outcome it already predicted still predicts it,
    so a correct prediction never changes what that slot predicts.
   */
  lemma CorrectPredictionIsStable(s: GshareState, ghistoryBits: nat, pc: uint32, o: Outcome)
    requires Valid(s, ghistoryBits)
    requires Predict(s, ghistoryBits, pc) == o
    ensures var t := Train(s, ghistoryBits, pc, o);
      CounterPredict(t.bht[Index(ghistoryBits, pc, s.ghistory)]) == o
  {
    TrainKeepsAgreement(s.bht[Index(ghistoryBits, pc, s.ghistory)], o);
  }
}
