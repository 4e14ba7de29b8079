/**
  The predictor's entry points: initialisation, prediction and training,
  each dispatching on the configured predictor type. Only the static and
  gshare schemes have behaviour; the tournament and custom types, and any
  type the code does not know, predict not taken and train nothing.
 */
module Predictor {
  import opened Bits
  import opened Counters
  import Gshare

  /** `bpType`: `STATIC`, `GSHARE`, `TOURNAMENT`, `CUSTOM`, or any other value. */
  datatype BpType = Static | GShare | Tournament | Custom | Unknown

  /** The run parameters the predictor reads (`ghistoryBits`, `bpType`). */
  datatype Config = Config(ghistoryBits: nat, bpType: BpType)

  /**
    The whole predictor: its configuration and the gshare globals. For every
    type but gshare these keep their zero start values (no table, history 0).
   */
  datatype Predictor = Predictor(cfg: Config, gshare: Gshare.GshareState)

  /** The configuration admits `1 << ghistoryBits` where the code computes it. */
  predicate ConfigOk(cfg: Config)
  {
    cfg.bpType == GShare ==> cfg.ghistoryBits <= Gshare.MaxGhistoryBits
  }

  /** The state initialisation produced and training keeps. */
  predicate Valid(p: Predictor)
  {
    p.cfg.bpType == GShare ==> Gshare.Valid(p.gshare, p.cfg.ghistoryBits)
  }

  /** The globals before `init_predictor`: a null table and an empty history. */
  const Unallocated: Gshare.GshareState := Gshare.GshareState([], 0)

  /**
    `init_predictor`: only the gshare type allocates and seeds its table;
    every other type leaves the globals as they start.
   */
  function Init(cfg: Config): (p: Predictor)
    requires ConfigOk(cfg)
    ensures Valid(p) && p.cfg == cfg
    ensures p.gshare.ghistory == 0
    ensures cfg.bpType == GShare ==>
      |p.gshare.bht| == Pow2(cfg.ghistoryBits) &&
      forall i :: 0 <= i < |p.gshare.bht| ==> p.gshare.bht[i] == WN
    ensures cfg.bpType != GShare ==> p.gshare.bht == []
  {
    if cfg.bpType == GShare then Predictor(cfg, Gshare.Init(cfg.ghistoryBits))
    else Predictor(cfg, Unallocated)
  }

  /**
    `make_prediction`: static predicts taken, gshare asks its table, and
    every other type falls through to not taken.
   */
  function Predict(p: Predictor, pc: uint32): (o: Outcome)
    requires Valid(p)
    ensures p.cfg.bpType == Static ==> o == Taken
    ensures p.cfg.bpType in {Tournament, Custom, Unknown} ==> o == NotTaken
    ensures p.cfg.bpType == GShare ==>
      o == CounterPredict(p.gshare.bht[Gshare.Index(p.cfg.ghistoryBits, pc, p.gshare.ghistory)])
  {
    match p.cfg.bpType
    case Static => Taken
    case GShare => Gshare.Predict(p.gshare, p.cfg.ghistoryBits, pc)
    case _ => NotTaken
  }

  /**
    `train_predictor`: only gshare trains; for every other type the state is
    left exactly as it was.
   */
  function Train(p: Predictor, pc: uint32, o: Outcome): (q: Predictor)
    requires Valid(p)
    ensures Valid(q) && q.cfg == p.cfg
    ensures p.cfg.bpType != GShare ==> q == p
    ensures p.cfg.bpType == GShare ==>
      var i := Gshare.Index(p.cfg.ghistoryBits, pc, p.gshare.ghistory);
      && |q.gshare.bht| == |p.gshare.bht|
      && q.gshare.bht[i] == CounterTrain(p.gshare.bht[i], o)
      && forall j :: 0 <= j < |p.gshare.bht| && j != i ==> q.gshare.bht[j] == p.gshare.bht[j]
    ensures p.cfg.bpType == GShare ==>
      && Bit(q.gshare.ghistory, 0) == OutcomeBit(o)
      && forall k :: 0 < k < HistoryWidth ==> Bit(q.gshare.ghistory, k) == Bit(p.gshare.ghistory, k - 1)
  {
    if p.cfg.bpType == GShare then
      p.(gshare := Gshare.Train(p.gshare, p.cfg.ghistoryBits, pc, o))
    else p
  }

  /**
    `make_prediction` and `train_predictor` at one address under gshare use
    one slot: the prediction depends on no other slot, and training leaves
    every other slot as it was.
   */
  lemma PredictTrainSameSlot(p: Predictor, p': Predictor, pc: uint32, o: Outcome)
    requires Valid(p) && Valid(p') && p.cfg.bpType == GShare && p'.cfg == p.cfg
    requires p'.gshare.ghistory == p.gshare.ghistory
    requires var i := Gshare.Index(p.cfg.ghistoryBits, pc, p.gshare.ghistory);
      p'.gshare.bht[i] == p.gshare.bht[i]
    ensures Predict(p', pc) == Predict(p, pc)
    ensures var i := Gshare.Index(p.cfg.ghistoryBits, pc, p.gshare.ghistory);
      forall j :: 0 <= j < |p.gshare.bht| && j != i ==> Train(p, pc, o).gshare.bht[j] == p.gshare.bht[j]
  {
    Gshare.PredictReadsOnlySlot(p.gshare, p'.gshare, p.cfg.ghistoryBits, pc);
  }

  /** Every scheme but gshare ignores its state: the prediction is the same for all branches. */
  lemma NonGshareIgnoresBranch(p: Predictor, pc1: uint32, pc2: uint32)
    requires Valid(p)
    requires p.cfg.bpType != GShare
    ensures Predict(p, pc1) == Predict(p, pc2)
    ensures Predict(p, pc1) == Taken <==> p.cfg.bpType == Static
  {
  }
}
