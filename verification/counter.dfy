/**
  The 2-bit saturating counter every entry of the branch history table holds,
  and the branch outcome it predicts and is trained on.
 */
module Counters {

  /** A branch direction: `NOTTAKEN` is 0 and `TAKEN` is 1 in the history register. */
  datatype Outcome = NotTaken | Taken

  /** Strongly/weakly not taken, weakly/strongly taken (`SN`, `WN`, `WT`, `ST`). */
  datatype Counter = SN | WN | WT | ST

  /** The bit an outcome contributes to a history register. */
  function OutcomeBit(o: Outcome): (b: nat)
    ensures b < 2
    ensures b == 1 <==> o == Taken
  {
    if o == Taken then 1 else 0
  }

  /** Position of a counter in the order SN < WN < WT < ST. */
  function Level(c: Counter): (l: nat)
    ensures l <= 3
  {
    match c
    case SN => 0
    case WN => 1
    case WT => 2
    case ST => 3
  }

  /** The counter at a given position of the order. */
  function OfLevel(l: nat): (c: Counter)
    requires l <= 3
    ensures Level(c) == l
  {
    if l == 0 then SN else if l == 1 then WN else if l == 2 then WT else ST
  }

  function Min(a: int, b: int): int { if a <= b then a else b }

  function Max(a: int, b: int): int { if a >= b then a else b }

  /** The counter a run of one outcome drives to. */
  function Saturated(o: Outcome): Counter
  {
    if o == Taken then ST else SN
  }

  /** The direction a counter predicts: taken exactly in the upper half of the order. */
  function CounterPredict(c: Counter): (o: Outcome)
    ensures o == Taken <==> Level(c) >= 2
    ensures o == NotTaken <==> Level(c) <= 1
  {
    match c
    case ST => Taken
    case WT => Taken
    case WN => NotTaken
    case SN => NotTaken
  }

  /**
    One training step: one position toward the real outcome, absorbed (not
    wrapped) at either end of the order.
   */
  function CounterTrain(c: Counter, o: Outcome): (r: Counter)
    ensures o == Taken ==> Level(r) == if Level(c) == 3 then 3 else Level(c) + 1
    ensures o == NotTaken ==> Level(r) == if Level(c) == 0 then 0 else Level(c) - 1
    ensures r == OfLevel(if o == Taken then Min(Level(c) + 1, 3) else Max(Level(c) - 1, 0))
  {
    match c
    case ST => if o == Taken then ST else WT
    case WT => if o == Taken then ST else WN
    case WN => if o == Taken then WT else SN
    case SN => if o == Taken then WN else SN
  }

  /** The counter after k trainings with the same outcome. */
  function TrainRepeat(c: Counter, o: Outcome, k: nat): Counter
    decreases k
  {
    if k == 0 then c else TrainRepeat(CounterTrain(c, o), o, k - 1)
  }

  /** Training never moves a counter away from the outcome it was trained on. */
  lemma TrainMonotone(c: Counter, o: Outcome)
    ensures o == Taken ==> Level(CounterTrain(c, o)) >= Level(c)
    ensures o == NotTaken ==> Level(CounterTrain(c, o)) <= Level(c)
    ensures CounterTrain(c, o) == c <==> c == Saturated(o)
  {
  }

  /** A counter that already predicts the outcome still predicts it after training on it. */
  lemma TrainKeepsAgreement(c: Counter, o: Outcome)
    requires CounterPredict(c) == o
    ensures CounterPredict(CounterTrain(c, o)) == o
    ensures Level(CounterTrain(c, o)) != 1 && Level(CounterTrain(c, o)) != 2
  {
  }

  /**
    A counter in a weak state (WN or WT) predicts any outcome after one
    training on it, while a strong state needs two contrary outcomes to flip.
   */
  lemma Hysteresis(c: Counter, o: Outcome)
    ensures (c == WN || c == WT) ==> CounterPredict(CounterTrain(c, o)) == o
    ensures c == Saturated(o) ==> CounterPredict(CounterTrain(c, Flip(o))) == o
    ensures c == Saturated(o) ==>
      CounterPredict(CounterTrain(CounterTrain(c, Flip(o)), Flip(o))) == Flip(o)
  {
  }

  /** The opposite direction. */
  function Flip(o: Outcome): (f: Outcome)
    ensures f != o
  {
    if o == Taken then NotTaken else Taken
  }

  /**
    k trainings with one outcome move the counter k positions toward it, but
    never past the end: after three the counter is saturated and stays so.
   */
  lemma {:induction false} TrainRepeatLevel(c: Counter, o: Outcome, k: nat)
    ensures o == Taken ==> Level(TrainRepeat(c, o, k)) == if Level(c) + k >= 3 then 3 else Level(c) + k
    ensures o == NotTaken ==> Level(TrainRepeat(c, o, k)) == if Level(c) <= k then 0 else Level(c) - k
    decreases k
  {
    if k > 0 {
      TrainRepeatLevel(CounterTrain(c, o), o, k - 1);
    }
  }

  /** Any counter converges to the saturated state of a repeated outcome after three steps. */
  lemma TrainRepeatSaturates(c: Counter, o: Outcome, k: nat)
    requires k >= 3
    ensures TrainRepeat(c, o, k) == Saturated(o)
    ensures CounterPredict(TrainRepeat(c, o, k)) == o
  {
    TrainRepeatLevel(c, o, k);
  }
}
