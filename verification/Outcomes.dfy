/** What an operation tells its caller, and what the caller finds afterwards, in terms of the state before and
    of plain numbers and bytes. */
module Outcomes {
  import opened Basics
  import opened Slabs
  import opened Cache
  import Conservation
  import Counter
  import opened Runs

  // ----- replies

  /** A new item of n bytes under k is refused for its size, is out of memory, or is stored. */
  ghost predicate Written(cfg: Config, s: Cache, op: Op, n: nat, reply: Reply)
    requires Shape(cfg, s)
  {
    && (reply == Done(ESize) <==> ItemSize(op.k, n) >= cfg.itemSizeMax)
    && (reply == Done(NoMemory) <==> OutOfMemory(cfg, s, op))
    && (reply == Done(OK) <==> ItemSize(op.k, n) < cfg.itemSizeMax && !OutOfMemory(cfg, s, op))
  }

  /** The same for an operation that keeps the chunk where it can. */
  ghost predicate Rewritten(cfg: Config, s: Cache, op: Op, n: nat, reply: Reply)
    requires Shape(cfg, s)
  {
    && (reply == Done(ESize) <==> ItemSize(op.k, n) >= cfg.itemSizeMax && !StaysPut(cfg, s, op.k, n))
    && (reply == Done(NoMemory) <==> OutOfMemory(cfg, s, op))
    && (reply == Done(OK) <==>
          StaysPut(cfg, s, op.k, n) || (ItemSize(op.k, n) < cfg.itemSizeMax && !OutOfMemory(cfg, s, op)))
  }

  /** The reply to every operation, from the state before it. */
  ghost predicate Told(cfg: Config, s: Cache, op: Op, reply: Reply)
    requires Shape(cfg, s)
  {
    match op
    case OpGet(k, mallocOk) =>
      && (reply == Done(NotFound) <==> k !in s.items)
      && (reply == Done(System) <==> k in s.items && !mallocOk)
      && (k in s.items && mallocOk ==> reply == Value(s.items[k].val, s.items[k].flags))
    case OpGetf(k, room) =>
      && (reply == Done(NotFound) <==> k !in s.items)
      && (reply == Done(ESpace) <==> k in s.items && room < |s.items[k].val|)
      && (k in s.items && room >= |s.items[k].val| ==> reply == Value(s.items[k].val, s.items[k].flags))
    case OpDel(k) =>
      (reply == Done(NotFound) <==> k !in s.items) && (reply == Done(OK) <==> k in s.items)
    case OpSet(k, v, _) => Written(cfg, s, op, |v|, reply)
    case OpAdd(k, v, _) =>
      (reply == Done(Exist) <==> k in s.items) && (k !in s.items ==> Written(cfg, s, op, |v|, reply))
    case OpReplace(k, v, _) =>
      && (reply == Done(NotFound) <==> k !in s.items)
      && (k in s.items ==> Rewritten(cfg, s, op, |v|, reply))
    case OpGrow(k, v, _, _, _) =>
      && (reply == Done(NotFound) <==> k !in s.items)
      && (k in s.items ==> Rewritten(cfg, s, op, |v| + |s.items[k].val|, reply))
    case OpArith(k, _, _, _) =>
      && (reply == Done(NotFound) <==> k !in s.items && !cfg.defaultCounter)
      && (reply == Done(NoMemory) <==> OutOfMemory(cfg, s, op))
      && (reply.Number? <==> (k in s.items || cfg.defaultCounter) && !OutOfMemory(cfg, s, op))
  }

  /** Every operation is answered so: with each status exactly under its condition. */
  lemma Replies(cfg: Config, s: Cache, op: Op)
    requires Inv(cfg, s) && Defined(cfg, s, op)
    ensures Shape(cfg, s) && Told(cfg, s, op, Apply(cfg, s, op).1)
  {
    InvWf(cfg, s);
    hide Inv, Wf, OutOfMemory, Starved, StaysPut, Apply, Defined, Written, Rewritten, Config.Valid;
    match op
    case OpSet(k, v, _) => SetTold(cfg, s, op);
    case OpAdd(k, v, _) => SetTold(cfg, s, op);
    case OpReplace(_, _, _) => ReplaceTold(cfg, s, op);
    case OpGrow(_, _, _, _, _) => GrowTold(cfg, s, op);
    case OpArith(_, _, _, _) => ArithTold(cfg, s, op);
    case _ => ReadTold(cfg, s, op);
  }

  lemma ReadTold(cfg: Config, s: Cache, op: Op)
    requires Wf(cfg, s) && Defined(cfg, s, op) && (op.OpGet? || op.OpGetf? || op.OpDel?)
    ensures Told(cfg, s, op, Apply(cfg, s, op).1)
  {
    hide Recency, Shape, Touch, Discard;
  }

  lemma SetTold(cfg: Config, s: Cache, op: Op)
    requires Inv(cfg, s) && Defined(cfg, s, op) && (op.OpSet? || op.OpAdd?)
    ensures Told(cfg, s, op, Apply(cfg, s, op).1)
  {
    NoMemoryIff(cfg, s, op);
    hide Recency, Shape, Conserved, Set, OutOfMemory, Config.Valid;
    if op.OpSet? || op.k !in s.items {
      SetReplies(cfg, s, op.k, op.v, op.f);
    }
  }

  lemma ReplaceTold(cfg: Config, s: Cache, op: Op)
    requires Inv(cfg, s) && Defined(cfg, s, op) && op.OpReplace?
    ensures Told(cfg, s, op, Apply(cfg, s, op).1)
  {
    NoMemoryIff(cfg, s, op);
    hide Recency, Shape, Conserved, Set, Discard, Refresh, Class, OutOfMemory, Config.Valid;
  }

  lemma GrowTold(cfg: Config, s: Cache, op: Op)
    requires Inv(cfg, s) && Defined(cfg, s, op) && op.OpGrow?
    ensures Told(cfg, s, op, Apply(cfg, s, op).1)
  {
    NoMemoryIff(cfg, s, op);
  }

  lemma ArithTold(cfg: Config, s: Cache, op: Op)
    requires Inv(cfg, s) && Defined(cfg, s, op) && op.OpArith?
    ensures Told(cfg, s, op, Apply(cfg, s, op).1)
  {
    NoMemoryIff(cfg, s, op);
    ArithReplies(cfg, s, op.k, op.delta, op.incr, op.fo);
    hide Recency, Shape, Conserved, Arith, OutOfMemory, Config.Valid;
  }

  // ----- what is stored

  /** Whatever is stored under k afterwards is v with the flags f. */
  ghost predicate Holds(s: Cache, k: Bytes, v: Bytes, f: Flags) {
    k in s.items && s.items[k] == Entry(v, f)
  }

  /** A set, add or replace that succeeds has stored its value and its flags; an add that is refused has left the old
      ones. */
  lemma Stores(cfg: Config, s: Cache, op: Op)
    requires Wf(cfg, s) && Defined(cfg, s, op) && (op.OpSet? || op.OpAdd? || op.OpReplace?)
    ensures var (s', reply) := Apply(cfg, s, op);
            && (reply == Done(OK) ==> Holds(s', op.k, op.v, op.f))
            && (reply == Done(Exist) ==> s' == s)
  {
    OwnKey(cfg, s, op);
    RepliesMatch(cfg, s, op);
    hide Apply, Recency, Shape;
    if op.OpAdd? && op.k in s.items {
      assert Apply(cfg, s, op).0 == s by { AddRefused(cfg, s, op); }
    }
  }

  lemma AddRefused(cfg: Config, s: Cache, op: Op)
    requires Wf(cfg, s) && Defined(cfg, s, op) && op.OpAdd? && op.k in s.items
    ensures Apply(cfg, s, op) == (s, Done(Exist))
  {
    hide Recency, Shape;
  }

  /** A prepend or append that succeeds has put the new bytes in front of the old ones, or behind them. */
  lemma Extended(cfg: Config, s: Cache, op: Op)
    requires Wf(cfg, s) && Defined(cfg, s, op) && op.OpGrow? && Apply(cfg, s, op).1 == Done(OK)
    ensures var s' := Apply(cfg, s, op).0;
            && op.k in s.items && op.k in s'.items
            && var was, val := s.items[op.k].val, s'.items[op.k].val;
            && |val| == |was| + |op.v|
            && (op.end == Front ==> val[..|op.v|] == op.v && val[|op.v|..] == was)
            && (op.end == Back ==> val[..|was|] == was && val[|was|..] == op.v)
  {
    OkPresent(cfg, s, op);
    OwnGrow(cfg, s, op);
    hide Apply, Defined, Recency, Shape, StaysPut, Joined;
  }

  /** The same for the call itself. */
  lemma GrowExtends(cfg: Config, s: Cache, k: Bytes, v: Bytes, f: Flags, end: End, stale: Flags)
    requires Wf(cfg, s) && GrowDefined(cfg, s, k, |v|) && GrowValue(cfg, s, k, v, f, end, stale).1 == Done(OK)
    ensures var t := GrowValue(cfg, s, k, v, f, end, stale).0;
            k in s.items && k in t.items && Extends(s.items[k].val, v, end, t.items[k].val)
  {
    Extended(cfg, s, OpGrow(k, v, f, end, stale));
    hide Wf, GrowValue;
  }

  // ----- counting

  /** The number a counter update reports: old and new add up, modulo 2^64 for incr, and stop at zero for decr. */
  lemma Counts(cfg: Config, s: Cache, op: Op)
    requires Wf(cfg, s) && Defined(cfg, s, op) && op.OpArith? && Apply(cfg, s, op).1.Number?
    ensures var was, n := if op.k in s.items then Readable(s.items[op.k].val) else 0, Apply(cfg, s, op).1.n;
            && n < U64
            && (op.incr ==> (n - was - op.delta) % U64 == 0)
            && (!op.incr && was >= op.delta ==> n + op.delta == was)
            && (!op.incr && was < op.delta ==> n == 0)
  {
    ArithReplies(cfg, s, op.k, op.delta, op.incr, op.fo);
    hide Wf, Arith, Readable, Counter.Step;
  }

  /** The same for the call itself. */
  lemma ArithCounts(cfg: Config, s: Cache, k: Bytes, delta: nat, incr: bool, f: Option<Flags>)
    requires Wf(cfg, s) && ArithDefined(cfg, s, k) && delta < U64
    ensures var reply := Arith(cfg, s, k, delta, incr, f).1;
            reply.Number? ==>
              Counter.Counted(if k in s.items then Readable(s.items[k].val) else 0, delta, incr, reply.n)
  {
    ArithReplies(cfg, s, k, delta, incr, f);
    hide Wf, Arith, Readable, Counter.Counted;
  }

  /** The flags of a counter: those of an item that was a cell already stay, any other gets the caller's, if there are
      any.  They are reported as they are afterwards. */
  lemma CounterFlags(cfg: Config, s: Cache, op: Op)
    requires Wf(cfg, s) && Defined(cfg, s, op) && op.OpArith? && Apply(cfg, s, op).1.Number?
    requires op.k in Apply(cfg, s, op).0.items
    ensures var (s', reply) := Apply(cfg, s, op);
            var flags := s'.items[op.k].flags;
            && (op.k in s.items && |s.items[op.k].val| == CELL ==> flags == s.items[op.k].flags)
            && (op.k in s.items && |s.items[op.k].val| != CELL && op.fo.None? ==> flags == s.items[op.k].flags)
            && (op.k !in s.items && op.fo.None? ==> flags == 0)
            && (!(op.k in s.items && |s.items[op.k].val| == CELL) && op.fo.Some? ==> flags == op.fo.value)
            && reply.flagsOut == if op.fo.Some? then Some(flags) else None
  {
    Conservation.ClassRange(cfg, s);
    hide Recency, Shape, Class, Discard, Alloc, AllocSource, Counter.Read, Counter.Cell, Counter.Step, Config.Valid;
  }

  /** What the updates of k in a run add up to. */
  function Sum(k: Bytes, ops: seq<Op>): nat {
    if ops == [] then 0 else (if ops[0].OpArith? && ops[0].k == k then ops[0].delta else 0) + Sum(k, ops[1..])
  }

  ghost predicate All(k: Bytes, ops: seq<Op>, incr: bool) {
    forall op :: op in ops && op.OpArith? && op.k == k ==> op.incr == incr
  }

  lemma {:induction false} FoldUp(k: Bytes, ops: seq<Op>, n: nat)
    requires n < U64 && (forall op :: op in ops && op.OpArith? ==> op.delta < U64) && All(k, ops, true)
    ensures Fold(k, ops, n) == (n + Sum(k, ops)) % U64
    decreases |ops|
  {
    if ops != [] {
      assert ops[0] in ops;
      if ops[0].OpArith? && ops[0].k == k {
        var m := Counter.Step(n, ops[0].delta, true);
        FoldUp(k, ops[1..], m);
        ModAdd(n + ops[0].delta, m, Sum(k, ops[1..]));
      } else {
        FoldUp(k, ops[1..], n);
      }
    }
  }

  lemma ModAdd(x: nat, m: nat, y: nat)
    requires m == x % U64
    ensures (m + y) % U64 == (x + y) % U64
  {
  }

  lemma {:induction false} FoldDown(k: Bytes, ops: seq<Op>, n: nat)
    requires n < U64 && (forall op :: op in ops && op.OpArith? ==> op.delta < U64) && All(k, ops, false)
    ensures Fold(k, ops, n) == if n < Sum(k, ops) then 0 else n - Sum(k, ops)
    decreases |ops|
  {
    if ops != [] {
      assert ops[0] in ops;
      FoldDown(k, ops[1..], if ops[0].OpArith? && ops[0].k == k then Counter.Step(n, ops[0].delta, false) else n);
    }
  }

  /** A live counter that is only incremented ends at its start plus the sum of the increments modulo 2^64; one that is
      only decremented at its start less their sum, or at 0. */
  lemma CounterSums(cfg: Config, s: Cache, ops: seq<Op>, k: Bytes)
    requires Inv(cfg, s) && RunDefined(cfg, s, ops) && CountsOnly(cfg, s, ops, k) && |s.items[k].val| == CELL
    requires forall op :: op in ops && op.OpArith? ==> op.delta < U64
    ensures var s', start := Run(cfg, s, ops), Readable(s.items[k].val);
            && k in s'.items
            && (All(k, ops, true) ==> Readable(s'.items[k].val) == (start + Sum(k, ops)) % U64)
            && (All(k, ops, false) ==>
                  Readable(s'.items[k].val) == if start < Sum(k, ops) then 0 else start - Sum(k, ops))
  {
    hide Inv, RunDefined, Run, CountsOnly, Readable, Fold, All, Sum;
    LiveKey(cfg, s, ops, k);
    CounterRun(cfg, s, ops, k);
    FoldSums(k, ops, Readable(s.items[k].val));
  }

  lemma LiveKey(cfg: Config, s: Cache, ops: seq<Op>, k: Bytes)
    requires Inv(cfg, s) && RunDefined(cfg, s, ops) && CountsOnly(cfg, s, ops, k)
    ensures k in s.items
  {
    hide Inv, RunDefined;
  }

  lemma FoldSums(k: Bytes, ops: seq<Op>, n: nat)
    requires n < U64 && forall op :: op in ops && op.OpArith? ==> op.delta < U64
    ensures All(k, ops, true) ==> Fold(k, ops, n) == (n + Sum(k, ops)) % U64
    ensures All(k, ops, false) ==> Fold(k, ops, n) == if n < Sum(k, ops) then 0 else n - Sum(k, ops)
  {
    hide All, Fold, Sum;
    if All(k, ops, true) { FoldUp(k, ops, n); }
    if All(k, ops, false) { FoldDown(k, ops, n); }
  }
}
