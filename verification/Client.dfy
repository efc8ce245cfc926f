/** Any run of calls on a store, against the run of the abstract cache. */
module Client {
  import opened Basics
  import opened Calls
  import opened Image
  import opened Slabs
  import opened Store
  import Backup
  import C = Cache
  import Conservation
  import opened Heap
  import opened Lists
  import Readers
  import Runs

  /** Every call meets what the source asks of its caller, whatever flags the growing ones leave. */
  ghost predicate RunAllowed(cfg: Config, s: C.Cache, calls: seq<Call>)
    requires C.Inv(cfg, s)
  {
    forall done :: SameCalls(calls, done) ==> RunDefined(cfg, s, done)
  }

  /** One single operation. */
  method PerformSingle(m: Shmc, op: C.Op) returns (reply: C.Reply, ghost done: C.Op)
    requires C.Wf(m.cfg, m.abs) && C.Defined(m.cfg, m.abs, op) && m.Valid()
    modifies m.hnext, m.buckets, m.next, m.prev, m.heads, m.tails, m.slabs, m.meta, m.raw
    modifies m`memUsed, m`nitems, m`g, m`abs
    ensures m.Valid() && SameCall(Single(op), Single(done))
    ensures C.Defined(m.cfg, old(m.abs), done) && (m.abs, reply) == C.Apply(m.cfg, old(m.abs), done)
  {
    hide Shmc.Valid, C.Shape, C.Recency, C.Get, C.Getf, C.Set, C.AddNew, C.Replace, C.GrowValue, C.Arith, C.Del,
         C.SetDefined, C.AddDefined, C.ReplaceDefined, C.GrowDefined, C.ArithDefined, Config.Valid, Shmc.ChunkFor,
         FromHeader,
         OnlyHeader;
    done := op;
    match op
    case OpGet(k, mallocOk) => reply := m.Get(k, mallocOk);
    case OpGetf(k, room) => reply := m.Getf(k, room);
    case OpSet(k, v, f) => reply := m.Set(k, v, f);
    case OpAdd(k, v, f) => reply := m.Add(k, v, f);
    case OpReplace(k, v, f) => reply := m.Replace(k, v, f);
    case OpGrow(k, v, f, end, _) =>
      ghost var stale: C.Flags;
      reply, stale := m.Grow(k, v, f, end);
      done := op.(stale := stale);
    case OpArith(k, delta, incr, fo) => reply := m.Arith(k, delta, incr, fo);
    case OpDel(k) => reply := m.Del(k);
  }

  /** One call. */
  method Perform(m: Shmc, call: Call) returns (result: Result, ghost done: Call)
    requires C.Inv(m.cfg, m.abs) && Defined(m.cfg, m.abs, call) && m.Valid()
    modifies m.hnext, m.buckets, m.next, m.prev, m.heads, m.tails, m.slabs, m.meta, m.raw
    modifies m`memUsed, m`nitems, m`g, m`abs
    ensures m.Valid() && SameCall(call, done)
    ensures Defined(m.cfg, old(m.abs), done) && (m.abs, result) == Apply(m.cfg, old(m.abs), done)
  {
    hide Shmc.Good, C.Inv, C.Defined, C.Apply;
    done := call;
    WfOf(m.cfg, m.abs);
    match call
    case Single(op) =>
      var reply: C.Reply;
      ghost var one: C.Op;
      reply, one := PerformSingle(m, op);
      done, result := Single(one), Replied(reply);
    case Dump =>
      var file := Backup.Dump(m);
      result := Dumped(file);
    case Load(file) =>
      var reply := Backup.Load(m, file);
      result := Replied(reply);
  }

  lemma AllowedFirst(cfg: Config, s: C.Cache, calls: seq<Call>)
    requires C.Inv(cfg, s) && RunAllowed(cfg, s, calls)
    ensures calls != [] ==> Defined(cfg, s, calls[0])
  {
    hide C.Inv, Defined, Apply;
    assert SameCalls(calls, calls);
    assert RunDefined(cfg, s, calls);
  }

  lemma AllowedRest(cfg: Config, s: C.Cache, calls: seq<Call>, done: Call)
    requires C.Inv(cfg, s) && RunAllowed(cfg, s, calls)
    requires calls != [] && SameCall(calls[0], done) && Defined(cfg, s, done)
    ensures RunAllowed(cfg, Apply(cfg, s, done).0, calls[1..])
  {
    hide C.Inv, Defined, Apply, SameCall;
    forall rest | SameCalls(calls[1..], rest) ensures RunDefined(cfg, Apply(cfg, s, done).0, rest) {
      var all := [done] + rest;
      forall i | 0 <= i < |calls| ensures SameCall(calls[i], all[i]) {
        if i > 0 { assert calls[i] == calls[1..][i - 1] && all[i] == rest[i - 1]; }
      }
      assert RunDefined(cfg, s, all);
      assert all[1..] == rest;
    }
  }

  lemma SameCons(call: Call, calls: seq<Call>, done: Call, rest: seq<Call>)
    requires SameCall(call, done) && SameCalls(calls, rest)
    ensures SameCalls([call] + calls, [done] + rest)
  {
    hide SameCall;
    var a, b := [call] + calls, [done] + rest;
    forall i | 0 <= i < |a| ensures SameCall(a[i], b[i]) {
      if i > 0 { assert a[i] == calls[i - 1] && b[i] == rest[i - 1]; }
    }
  }

  /** Any run of calls on the arrays, dumps and loads among them, is the run of the abstract cache, and leaves
      every list in order. */
  method Execute(m: Shmc, calls: seq<Call>) returns (results: seq<Result>, ghost done: seq<Call>)
    requires C.Inv(m.cfg, m.abs) && RunAllowed(m.cfg, m.abs, calls) && m.Valid()
    modifies m.hnext, m.buckets, m.next, m.prev, m.heads, m.tails, m.slabs, m.meta, m.raw
    modifies m`memUsed, m`nitems, m`g, m`abs
    ensures m.Valid() && SameCalls(calls, done)
    ensures RunDefined(m.cfg, old(m.abs), done) && m.abs == Run(m.cfg, old(m.abs), done)
    ensures results == Results(m.cfg, old(m.abs), done)
    decreases |calls|
  {
    hide Shmc.Good, C.Inv, Defined, Apply, RunAllowed, RunDefined, Run, Results, SameCall, SameCalls;
    AllowedFirst(m.cfg, m.abs, calls);
    ghost var s := m.abs;
    if calls == [] {
      NoCalls(m.cfg, s, calls);
      return [], [];
    }
    var result: Result;
    ghost var first: Call;
    result, first := Perform(m, calls[0]);
    AllowedRest(m.cfg, s, calls, first);
    results, done := Execute(m, calls[1..]);
    RunCons(m.cfg, s, first, done);
    SameCons(calls[0], calls[1..], first, done);
    assert [calls[0]] + calls[1..] == calls;
    results, done := [result] + results, [first] + done;
  }

  lemma WfOf(cfg: Config, s: C.Cache)
    requires C.Inv(cfg, s)
    ensures C.Wf(cfg, s)
  {
  }

  lemma NoCalls(cfg: Config, s: C.Cache, calls: seq<Call>)
    requires C.Inv(cfg, s) && calls == []
    ensures SameCalls(calls, []) && RunDefined(cfg, s, []) && Run(cfg, s, []) == s && Results(cfg, s, []) == []
  {
    hide C.Inv;
  }

  // ----- a writer's commit

  /** A writer that performs its call on the arrays can commit: what the call leaves in them is the image that
      the concurrent model's step asks for. */
  method Write(m: Shmc, call: Call, ghost s: Readers.State, ghost t: Readers.Tid)
    returns (result: Result, ghost done: Call, ghost s': Readers.State)
    requires t < |s.threads| && s.threads[t].Writing? && s.threads[t].call == call && s.abs == m.abs
    requires C.Inv(m.cfg, m.abs) && Defined(m.cfg, m.abs, call) && m.Valid()
    modifies m.hnext, m.buckets, m.next, m.prev, m.heads, m.tails, m.slabs, m.meta, m.raw
    modifies m`memUsed, m`nitems, m`g, m`abs
    ensures m.Valid() && m.cfg.nbuckets > 0
    ensures Readers.Step(m.cfg, m.base, s, t, Readers.Commit(done, Snapshot(m), m.g, m.abs, result), s')
    ensures s'.mem == Snapshot(m) && s'.abs == m.abs
  {
    hide Shmc.Valid, Snapshot, Rep, C.Inv, Defined, Apply, SameCall;
    result, done := Perform(m, call);
    ValidIsRep(m);
    Readers.RepBuckets(m.cfg, m.base, Snapshot(m), m.g, m.abs);
    var th := s.threads[t];
    s' := Readers.Now(s, t, Readers.Wrote(done, th.start, |s.log|, result))
            .(mem := Snapshot(m), g := m.g, abs := m.abs, log := s.log + [Readers.Entry(t, done, result)]);
  }

  /** In any execution in which a thread has just taken the write lock for a call that the source allows, the call can
      be performed on the memory as it is then, and the execution goes on with its commit. */
  method WriteOn(cfg: Config, base: Addr, mem: Mem, call: Call, ghost states: seq<Readers.State>, ghost t: Readers.Tid)
    returns (result: Result, ghost done: Call, ghost s': Readers.State)
    requires Readers.Execution(cfg, base, states) && |states| > 1
    requires Readers.Step(cfg, base, states[|states| - 2], t, Readers.WrLock, states[|states| - 1])
    requires var s := states[|states| - 1];
             && mem == s.mem && t < |s.threads| && s.threads[t].Writing? && s.threads[t].call == call
             && C.Inv(cfg, s.abs) && Defined(cfg, s.abs, call)
    ensures SameCall(call, done) && Defined(cfg, states[|states| - 1].abs, done)
    ensures (s'.abs, result) == Apply(cfg, states[|states| - 1].abs, done)
    ensures Readers.Execution(cfg, base, states + [s'])
  {
    hide Shmc.Valid, Snapshot, Rep, C.Inv, Defined, Apply, SameCall, Readers.Execution;
    ghost var s := states[|states| - 1];
    Readers.WriterStarts(cfg, base, states, |states| - 2, t);
    var m := Attached(cfg, base, mem, s.g, s.abs);
    result, done, s' := Write(m, call, s, t);
    Readers.ExecutionOn(cfg, base, states, t, Readers.Commit(done, Snapshot(m), m.g, m.abs, result), s');
  }

  // ----- an append that loses its flags

  const KEY: Bytes := [107]
  const VAL: Bytes := [97]

  function Forty(): (r: Bytes)
    ensures |r| == 40
  {
    seq(40, i => 98)
  }

  /** A store with chunks of 72 and of 144 bytes. */
  function TwoClasses(): (cfg: Config)
    ensures cfg.Valid() && cfg.Last() == 144 && |cfg.sizes| == 2 && cfg.itemSizeMax == 152
    ensures cfg.ClassOf(66) == 0 && cfg.ClassOf(106) == 1
  {
    Config([72, 144], [2, 1], 152, 1000, 1, true, true)
  }

  /** The attributes that give such a store. */
  lemma TwoClassesMade()
    ensures FactorOk(SmallAttr()) && ConfigOf(SmallAttr()) == TwoClasses()
  {
    assert Sizes(SmallAttr()) == [72] + Schedule(SmallAttr(), 144) == [72, 144];
  }

  function SmallAttr(): Attr {
    Attr(1000, 1, 8, 152, 2, 1, true, true)
  }

  lemma TwoClassesFresh()
    ensures Conservation.FirstPagesFit(TwoClasses())
    ensures Conservation.Fresh(TwoClasses()) == C.Cache(map[], [[], []], [2, 1], [1, 1], 288)
  {
    var cfg := TwoClasses();
    var ones := Conservation.Ones(2);
    assert C.PoolBytes(cfg, ones, 2) == 0;
    assert C.PoolBytes(cfg, ones, 1) == 144;
    assert C.PoolBytes(cfg, ones, 0) == 288;
    Conservation.FormattingFacts(cfg, 2);
    var s := Conservation.Fresh(cfg);
    assert s.pages == ones && s.pages == [1, 1] && s.free == [2, 1] && s.lru == [[], []];
  }

  /** The store with "a" under "k". */
  function Small(): C.Cache {
    C.Cache(map[KEY := C.Entry(VAL, 5)], [[KEY], []], [1, 1], [1, 1], 288)
  }

  lemma SmallWf()
    ensures C.Wf(TwoClasses(), Small()) && C.ClassIn(TwoClasses(), Small(), KEY) == 0
  {
    var cfg, s := TwoClasses(), Small();
    assert C.Shape(cfg, s);
    assert C.Recency(cfg, s);
  }

  lemma SetSmall()
    ensures var cfg, s := TwoClasses(), C.Cache(map[], [[], []], [2, 1], [1, 1], 288);
            && C.Wf(cfg, s) && C.SetDefined(cfg, KEY, 1)
            && C.Set(cfg, s, KEY, VAL, 5) == (Small(), C.Done(C.OK))
  {
    var cfg, s := TwoClasses(), C.Cache(map[], [[], []], [2, 1], [1, 1], 288);
    assert C.Wf(cfg, s);
    assert C.AllocSource(cfg, s, 0) == C.FromFree;
    var a := C.Alloc(cfg, s, 0);
    assert a == C.Cache(map[], [[], []], [1, 1], [1, 1], 288);
    assert C.Class(cfg, KEY, 1) == 0;
    var t := C.Insert(cfg, a, KEY, C.Entry(VAL, 5));
    assert [KEY] + [] == [KEY];
    assert t.lru == [[KEY], []] && t.items == Small().items;
  }

  lemma GetSmall()
    ensures C.Wf(TwoClasses(), Small())
    ensures C.Get(TwoClasses(), Small(), KEY, true) == (Small(), C.Value(VAL, 5))
  {
    SmallWf();
    assert Small().lru[0] == [KEY];
    assert [KEY][1..] == [] && [KEY] + [] == [KEY];
    assert Small().lru[0 := [KEY]] == Small().lru;
  }

  lemma GrowSmall(stale: C.Flags)
    ensures C.Wf(TwoClasses(), Small()) && C.GrowDefined(TwoClasses(), Small(), KEY, 40)
    ensures !Runs.StaysPut(TwoClasses(), Small(), KEY, 41)
    ensures var (t, reply) := C.GrowValue(TwoClasses(), Small(), KEY, Forty(), 7, C.Back, stale);
            reply == C.Done(C.OK) && KEY in t.items && t.items[KEY] == C.Entry(VAL + Forty(), stale)
  {
    var cfg, s := TwoClasses(), Small();
    SmallWf();
    hide Forty;
    assert C.Class(cfg, KEY, 41) == 1;
    assert C.AllocSource(cfg, s, 1) == C.FromFree;
    hide C.Recency, C.Shape, C.GrowMove, C.Alloc, C.Class;
  }

  /** The flags are lost: "k" holds "a" with flags 5, forty letters are appended with flags 7, and the item is
      found with flags 0, those of the header that nobody had written before. */
  method AppendLosesFlags() returns (before: C.Reply, rc: C.Reply, after: C.Reply)
    ensures before == C.Value(VAL, 5) && rc == C.Done(C.OK) && after == C.Value(VAL + Forty(), 0)
  {
    hide Shmc.Valid, C.Set, C.Get, C.GrowValue, C.Wf, Small, TwoClasses, Forty, Conservation.Fresh, OnlyHeader,
         NoHeaders, FromHeader, ConfigOf, Shmc.ChunkFor, Runs.StaysPut, Config.Valid;
    TwoClassesMade();
    TwoClassesFresh();
    SetSmall();
    GetSmall();
    GrowSmall(0);
    var m := new Shmc(ConfigOf(SmallAttr()), 8);
    ghost var m0 := m.meta[..];
    var _ := m.Set(KEY, VAL, 5);
    before := m.Get(KEY, true);
    ghost var m1, loc := m.meta[..], m.g.loc;
    InSmall(m.abs);
    KeyLocated(m, KEY);
    ghost var stale: C.Flags;
    rc, stale := m.Grow(KEY, Forty(), 7, C.Back);
    GrowSmall(stale);
    HeaderUnwritten(m0, m1, loc[KEY], m.g.loc[KEY], stale, m.cfg, Small());
    KeyLocated(m, KEY);
    GetPresent(m.cfg, m.abs, KEY);
    after := m.Get(KEY, true);
  }

  lemma InSmall(s: C.Cache)
    requires s == Small()
    ensures KEY in s.items && s.items[KEY].val == VAL && |s.lru| == 2
  {
  }

  lemma KeyLocated(m: Shmc, k: Bytes)
    requires m.Valid() && k in m.abs.items
    ensures k in m.g.loc && C.Wf(m.cfg, m.abs)
  {
    m.KeysAgree(k);
    hide Shmc.Good;
  }

  lemma GetPresent(cfg: Config, s: C.Cache, k: Bytes)
    requires C.Wf(cfg, s) && k in s.items
    ensures C.Get(cfg, s, k, true).1 == C.Value(s.items[k].val, s.items[k].flags)
  {
    hide C.Touch, C.Wf;
  }

  lemma HeaderUnwritten(m0: seq<Meta>, m1: seq<Meta>, used: Addr, chunk: Addr, stale: C.Flags,
                        cfg: Config, s: C.Cache)
    requires NoHeaders(m0) && OnlyHeader(m0, m1, used) && chunk != used
    requires C.Wf(cfg, s) && 1 < |s.lru| && FromHeader(cfg, s, 1, chunk, m1, stale)
    ensures stale == 0
  {
    hide C.Wf, C.AllocSource;
  }
}
