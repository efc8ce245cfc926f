/** What a process can ask of the store: the single operations, and dump and load. */
module Calls {
  import opened Basics
  import opened Slabs
  import C = Cache
  import D = DumpFormat
  import R = Reload
  import Runs

  datatype Call = Single(op: C.Op) | Dump | Load(file: Bytes)

  datatype Result = Replied(reply: C.Reply) | Dumped(file: Bytes)

  ghost predicate Defined(cfg: Config, s: C.Cache, call: Call)
    requires C.Inv(cfg, s)
  {
    match call
    case Single(op) => C.Defined(cfg, s, op)
    case Dump => R.LengthsFit(s)
    case Load(file) => R.LoadDefined(cfg, file)
  }

  /** The cache and the result; the invariant is kept. */
  ghost function Apply(cfg: Config, s: C.Cache, call: Call): (r: (C.Cache, Result))
    requires C.Inv(cfg, s) && Defined(cfg, s, call)
    ensures C.Inv(cfg, r.0)
  {
    match call
    case Single(op) => (Runs.After(cfg, s, op), Replied(C.Apply(cfg, s, op).1))
    case Dump => (s, Dumped(D.File(R.Records(cfg, s, 0))))
    case Load(file) => var (t, reply) := R.Load(cfg, s, file); (t, Replied(reply))
  }

  /** The same call; the flags that a growing append or prepend leaves are not the caller's. */
  predicate SameCall(call: Call, done: Call) {
    if call.Single? && call.op.OpGrow? then
      done.Single? && done.op.OpGrow? && done.op == call.op.(stale := done.op.stale)
    else done == call
  }

  predicate SameCalls(calls: seq<Call>, done: seq<Call>) {
    |calls| == |done| && forall i :: 0 <= i < |calls| ==> SameCall(calls[i], done[i])
  }

  // ----- runs

  ghost predicate RunDefined(cfg: Config, s: C.Cache, calls: seq<Call>)
    requires C.Inv(cfg, s)
    decreases |calls|
  {
    calls != [] ==> Defined(cfg, s, calls[0]) && RunDefined(cfg, Apply(cfg, s, calls[0]).0, calls[1..])
  }

  ghost function Run(cfg: Config, s: C.Cache, calls: seq<Call>): (t: C.Cache)
    requires C.Inv(cfg, s) && RunDefined(cfg, s, calls)
    ensures C.Inv(cfg, t)
    decreases |calls|
  {
    if calls == [] then s else Run(cfg, Apply(cfg, s, calls[0]).0, calls[1..])
  }

  ghost function Results(cfg: Config, s: C.Cache, calls: seq<Call>): (r: seq<Result>)
    requires C.Inv(cfg, s) && RunDefined(cfg, s, calls)
    ensures |r| == |calls|
    decreases |calls|
  {
    if calls == [] then [] else [Apply(cfg, s, calls[0]).1] + Results(cfg, Apply(cfg, s, calls[0]).0, calls[1..])
  }

  lemma RunCons(cfg: Config, s: C.Cache, call: Call, rest: seq<Call>)
    requires C.Inv(cfg, s) && Defined(cfg, s, call) && RunDefined(cfg, Apply(cfg, s, call).0, rest)
    ensures RunDefined(cfg, s, [call] + rest)
    ensures Run(cfg, s, [call] + rest) == Run(cfg, Apply(cfg, s, call).0, rest)
    ensures Results(cfg, s, [call] + rest) == [Apply(cfg, s, call).1] + Results(cfg, Apply(cfg, s, call).0, rest)
  {
    hide C.Inv, Defined, Apply;
    assert ([call] + rest)[1..] == rest;
  }

  /** One call more at the end. */
  lemma {:induction false} RunSnoc(cfg: Config, s: C.Cache, calls: seq<Call>, call: Call)
    requires C.Inv(cfg, s) && RunDefined(cfg, s, calls) && Defined(cfg, Run(cfg, s, calls), call)
    ensures RunDefined(cfg, s, calls + [call])
    ensures Run(cfg, s, calls + [call]) == Apply(cfg, Run(cfg, s, calls), call).0
    ensures Results(cfg, s, calls + [call]) == Results(cfg, s, calls) + [Apply(cfg, Run(cfg, s, calls), call).1]
    decreases |calls|
  {
    hide C.Inv, Defined, Apply;
    if calls == [] {
      assert [call][1..] == [] && [] + [call] == [call];
    } else {
      assert (calls + [call])[1..] == calls[1..] + [call];
      RunSnoc(cfg, Apply(cfg, s, calls[0]).0, calls[1..], call);
    }
  }

  function Singles(ops: seq<C.Op>): (r: seq<Call>)
    ensures |r| == |ops|
  {
    if ops == [] then [] else [Single(ops[0])] + Singles(ops[1..])
  }

  /** A run of single operations is a run in the sense of everything proved about those. */
  lemma {:induction false} SinglesRun(cfg: Config, s: C.Cache, ops: seq<C.Op>)
    requires C.Inv(cfg, s)
    ensures RunDefined(cfg, s, Singles(ops)) <==> Runs.RunDefined(cfg, s, ops)
    ensures Runs.RunDefined(cfg, s, ops) ==> Run(cfg, s, Singles(ops)) == Runs.Run(cfg, s, ops)
    decreases |ops|
  {
    hide C.Inv, C.Apply;
    if ops != [] {
      assert Singles(ops)[1..] == Singles(ops[1..]);
      if Defined(cfg, s, Single(ops[0])) {
        hide C.Defined;
        SinglesRun(cfg, Runs.After(cfg, s, ops[0]), ops[1..]);
      }
    }
  }
}
