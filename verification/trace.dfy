/**
  The driver's loop over a branch trace: for each branch, predict at its
  address, then train with its real outcome. Used to state what the
  predictor's state holds after a sequence of branches.
 */
module Trace {
  import opened Bits
  import opened Counters
  import opened Predictor

  /** One conditional branch of the trace: its address and its real direction. */
  datatype Branch = Branch(pc: uint32, outcome: Outcome)

  /** The prediction made for every branch, in order, and the state after the last one. */
  datatype RunResult = RunResult(predictions: seq<Outcome>, final: Predictor)

  /** Predict then train for each branch in turn. */
  function Run(p: Predictor, trace: seq<Branch>): (r: RunResult)
    requires Valid(p)
    ensures |r.predictions| == |trace|
    ensures Valid(r.final) && r.final.cfg == p.cfg
    decreases |trace|
  {
    if trace == [] then RunResult([], p)
    else
      var prev := Run(p, trace[..|trace| - 1]);
      var b := trace[|trace| - 1];
      RunResult(prev.predictions + [Predict(prev.final, b.pc)], Train(prev.final, b.pc, b.outcome))
  }

  /**
    Each prediction is made from the state left by the branches before it,
    before its own training.
   */
  lemma {:induction false} RunPredictsBeforeTraining(p: Predictor, trace: seq<Branch>, i: nat)
    requires Valid(p)
    requires i < |trace|
    ensures Run(p, trace).predictions[i] == Predict(Run(p, trace[..i]).final, trace[i].pc)
    decreases |trace|
  {
    var init := trace[..|trace| - 1];
    if i < |trace| - 1 {
      RunPredictsBeforeTraining(p, init, i);
      assert init[..i] == trace[..i];
    } else {
      assert init == trace[..i];
    }
  }

  /**
    For every type but gshare a whole trace leaves the predictor unchanged,
    and the predictions are all taken (static) or all not taken (the rest).
   */
  lemma {:induction false} RunNonGshareIsInert(p: Predictor, trace: seq<Branch>)
    requires Valid(p)
    requires p.cfg.bpType != GShare
    ensures Run(p, trace).final == p
    ensures forall i :: 0 <= i < |trace| ==>
      Run(p, trace).predictions[i] == if p.cfg.bpType == Static then Taken else NotTaken
    decreases |trace|
  {
    if trace != [] {
      RunNonGshareIsInert(p, trace[..|trace| - 1]);
    }
  }

  /**
    Under gshare the history register records the trace's outcomes newest
    first: bit i is the outcome i branches back, for i below both the trace
    length and the register width; above the trace length the bits are the
    starting history's, moved up by the trace length.
   */
  lemma {:induction false} RunHistory(p: Predictor, trace: seq<Branch>, i: nat)
    requires Valid(p)
    requires p.cfg.bpType == GShare
    requires i < HistoryWidth
    ensures Bit(Run(p, trace).final.gshare.ghistory, i) ==
      if i < |trace| then OutcomeBit(trace[|trace| - 1 - i].outcome)
      else Bit(p.gshare.ghistory, i - |trace|)
    decreases |trace|
  {
    if trace != [] {
      var init := trace[..|trace| - 1];
      var prev := Run(p, init);
      var b := trace[|trace| - 1];
      if i > 0 {
        RunHistory(p, init, i - 1);
      }
    }
  }

  /**
    From a fresh gshare predictor the history bits not yet written by the
    trace are zero.
   */
  lemma FreshHistoryIsZero(cfg: Config, trace: seq<Branch>, i: nat)
    requires cfg.bpType == GShare && ConfigOk(cfg)
    requires |trace| <= i < HistoryWidth
    ensures Bit(Run(Init(cfg), trace).final.gshare.ghistory, i) == 0
  {
    RunHistory(Init(cfg), trace, i);
    ZeroBit(i - |trace|);
  }

  /**
    A worked trace, with one history bit and four branches at address 0
    taken, not taken, taken, taken: the history bit moves the second and
    fourth branches to slot 1, so the predictions are not taken, not taken,
    taken, not taken, and slot 0 ends strongly taken, slot 1 weakly not taken.
   */
  lemma ExampleTrace()
    ensures
      var cfg := Config(1, GShare);
      var trace := [Branch(0, Taken), Branch(0, NotTaken), Branch(0, Taken), Branch(0, Taken)];
      var r := Run(Init(cfg), trace);
      r.predictions == [NotTaken, NotTaken, Taken, NotTaken] &&
      r.final.gshare.bht == [ST, WN]
  {
    var cfg := Config(1, GShare);
    var trace := [Branch(0, Taken), Branch(0, NotTaken), Branch(0, Taken), Branch(0, Taken)];
    var p0 := Init(cfg);
    assert p0.gshare.bht == [WN, WN];
    assert trace[..3][..2][..1][..0] == [];
    Pow2Of64();
    LowOfSmall(1, HistoryWidth);
    LowOfSmall(2, HistoryWidth);
    LowOfSmall(5, HistoryWidth);
    assert trace[..1][..0] == [];
    var r0 := Run(p0, trace[..0]);
    assert r0.final == p0;
    assert Gshare.Index(1, 0, 0) == 0;
    var r1 := Run(p0, trace[..1]);
    assert r1.final.gshare.bht == [WT, WN];
    assert r1.final.gshare.ghistory == 1;
    var r2 := Run(p0, trace[..2]);
    assert trace[..2][..1] == trace[..1];
    assert r2.final.gshare.bht == [WT, SN];
    assert r2.final.gshare.ghistory == 2;
    var r3 := Run(p0, trace[..3]);
    assert trace[..3][..2] == trace[..2];
    assert r3.final.gshare.bht == [ST, SN];
    assert r3.final.gshare.ghistory == 5;
    assert trace[..3] == trace[..|trace| - 1];
  }
}
