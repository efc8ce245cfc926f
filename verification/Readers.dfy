/** Processes sharing one store: readers under the read lock, who still move the items they find to the
    front of the recency lists under a mutex, and writers alone under the write lock.

    A step is one access to shared memory.  A writer's operation is covered by the contracts of the store's
    methods, so it appears as arbitrary disarray followed by an image of the result. */
module Readers {
  import opened Basics
  import opened Lists
  import opened Slabs
  import opened Heap
  import opened Image
  import opened Store
  import opened Calls
  import C = Cache

  type Tid = nat

  /** Where a reader is in get or getf. */
  datatype Pc =
    | Hashing
    | Walking(item: Addr, i: nat)              // i: how far along the chain
    | Found(item: Addr)                        // wants the mutex
    | Relinking(item: Addr, j: nat)            // has the mutex and done j writes
    | Answering(item: Addr, slot: nat)
    | Copying(item: Addr, got: Bytes, slot: nat)
    | Finished(slot: nat, reply: C.Reply)

  datatype Thread =
    | Idle
    | Asked(call: Call, start: nat)
    | Reading(op: C.Op, start: nat, pc: Pc)
    | Writing(call: Call, start: nat)
    | Wrote(call: Call, start: nat, slot: nat, result: Result)

  /** One operation of the serial execution. */
  datatype Entry = Entry(tid: Tid, call: Call, result: Result)

  /** One call that has returned: how long the serial execution was when it was made and when it returned,
      and its own place in it. */
  datatype Event = Event(entry: Entry, start: nat, slot: nat, end: nat)

  /** mem and the locks are the shared state; the rest describes it.  before: the area as it was when the
      mutex was last taken. */
  datatype State = State(mem: Mem, readers: set<Tid>, writer: Option<Tid>, mutex: Option<Tid>, threads: seq<Thread>,
                         g: Links, abs: C.Cache, before: Mem, log: seq<Entry>, events: seq<Event>)

  predicate IsRead(op: C.Op) {
    op.OpGet? || op.OpGetf?
  }

  /** Calls that take the read lock; all others take the write lock. */
  predicate Reads(call: Call) {
    call.Single? && IsRead(call.op)
  }

  /** What get or getf answers for a key that is there. */
  function Answer(op: C.Op, e: C.Entry): C.Reply
    requires IsRead(op)
  {
    match op
    case OpGet(_, mallocOk) => if mallocOk then C.Value(e.val, e.flags) else C.Done(C.System)
    case OpGetf(_, room) => if room >= |e.val| then C.Value(e.val, e.flags) else C.Done(C.ESpace)
  }

  // ----- steps

  datatype Label =
    | Begin(call: Call)
    | RdLock | Hash | WalkMiss | WalkHit | WalkOn | Lock | Rewire | Unlock
    | Refuse | StartCopy | CopyByte | EndCopy
    | WrLock | Scribble(mem: Mem) | Commit(done: Call, mem: Mem, g: Links, abs: C.Cache, result: Result)
    | Return

  function Now(s: State, t: Tid, th: Thread): State
    requires t < |s.threads|
  {
    s.(threads := s.threads[t := th])
  }

  function At1(s: State, t: Tid, pc: Pc): State
    requires t < |s.threads| && s.threads[t].Reading?
  {
    Now(s, t, s.threads[t].(pc := pc))
  }

  /** The log entry of a get or getf. */
  function Answered(t: Tid, op: C.Op, reply: C.Reply): Entry {
    Entry(t, Single(op), Replied(reply))
  }

  predicate SameKey(f: Fixed, item: Addr, key: Bytes) {
    && item < |f.meta| && f.meta[item].nkey == |key| && item + HEADER + |key| <= |f.raw|
    && f.raw[item + HEADER..item + HEADER + |key|] == key
  }

  ghost predicate Step(cfg: Config, base: Addr, s: State, t: Tid, l: Label, s': State)
    requires cfg.nbuckets > 0
  {
    t < |s.threads| &&
    var th := s.threads[t];
    match l
    case Begin(call) => th.Idle? && s' == Now(s, t, Asked(call, |s.log|))
    case Return =>
      (match th
       case Reading(op, start, Finished(slot, reply)) =>
         s' == Now(s, t, Idle).(readers := s.readers - {t},
                                events := s.events + [Event(Answered(t, op, reply), start, slot, |s.log|)])
       case Wrote(call, start, slot, result) =>
         s' == Now(s, t, Idle).(writer := None,
                                events := s.events + [Event(Entry(t, call, result), start, slot, |s.log|)])
       case _ => false)
    case RdLock =>
      && th.Asked? && Reads(th.call) && s.writer.None?
      && s' == Now(s, t, Reading(th.call.op, th.start, Hashing)).(readers := s.readers + {t})
    case WrLock =>
      && th.Asked? && !Reads(th.call) && s.writer.None? && s.readers == {}
      && s' == Now(s, t, Writing(th.call, th.start)).(writer := Some(t))
    case Scribble(mem) => th.Writing? && s' == s.(mem := mem)
    case Commit(done, mem, g, abs, result) =>
      && th.Writing? && SameCall(th.call, done) && C.Inv(cfg, s.abs) && Defined(cfg, s.abs, done)
      && (abs, result) == Calls.Apply(cfg, s.abs, done) && Rep(cfg, base, mem, g, abs)
      && s' == Now(s, t, Wrote(done, th.start, |s.log|, result))
                 .(mem := mem, g := g, abs := abs, log := s.log + [Entry(t, done, result)])
    case _ => th.Reading? && ReadStep(cfg, s, t, th.op, th.pc, l, s')
  }

  /** The steps of get and getf under the read lock. */
  ghost predicate ReadStep(cfg: Config, s: State, t: Tid, op: C.Op, pc: Pc, l: Label, s': State)
    requires cfg.nbuckets > 0 && t < |s.threads| && s.threads[t].Reading?
  {
    var f := s.mem.fixed;
    match l
    case Hash => pc.Hashing? && s' == At1(s, t, Walking(Image.Get(f.buckets, Bucket(op.k, cfg.nbuckets)), 0))
    case WalkMiss =>
      && pc.Walking? && pc.item == 0
      && s' == At1(s, t, Finished(|s.log|, C.Done(C.NotFound))).(log := s.log + [Answered(t, op, C.Done(C.NotFound))])
    case WalkHit => pc.Walking? && pc.item != 0 && SameKey(f, pc.item, op.k) && s' == At1(s, t, Found(pc.item))
    case WalkOn =>
      pc.Walking? && pc.item != 0 && !SameKey(f, pc.item, op.k)
      && s' == At1(s, t, Walking(Image.Get(f.hnext, pc.item), pc.i + 1))
    case Lock =>
      pc.Found? && s.mutex.None? && s' == At1(s, t, Relinking(pc.item, 0)).(mutex := Some(t), before := s.mem)
    case Rewire =>
      && pc.Relinking? && pc.j < WRITES && pc.item < |f.meta|
      && s' == At1(s, t, Relinking(pc.item, pc.j + 1)).(mem := Write(s.mem, pc.item, f.meta[pc.item].clsid, pc.j))
    case Unlock =>
      && pc.Relinking? && pc.j == WRITES && pc.item < |f.meta| && f.meta[pc.item].clsid < |s.g.lru|
      && C.Wf(cfg, s.abs) && C.Defined(cfg, s.abs, op)
      && var (abs, reply) := C.Apply(cfg, s.abs, op);
         s' == At1(s, t, Answering(pc.item, |s.log|))
                 .(mutex := None, g := Relinked(s.g, pc.item, f.meta[pc.item].clsid), abs := abs,
                   log := s.log + [Answered(t, op, reply)])
    case Refuse =>
      && pc.Answering? && pc.item < |f.meta|
      && ((op.OpGet? && !op.mallocOk && s' == At1(s, t, Finished(pc.slot, C.Done(C.System))))
          || (op.OpGetf? && op.room < f.meta[pc.item].nval && s' == At1(s, t, Finished(pc.slot, C.Done(C.ESpace)))))
    case StartCopy =>
      && pc.Answering? && pc.item < |f.meta|
      && ((op.OpGet? && op.mallocOk) || (op.OpGetf? && op.room >= f.meta[pc.item].nval))
      && s' == At1(s, t, Copying(pc.item, [], pc.slot))
    case CopyByte =>
      && pc.Copying? && pc.item < |f.meta| && |pc.got| < f.meta[pc.item].nval
      && var from := pc.item + HEADER + f.meta[pc.item].nkey + |pc.got|;
         from < |f.raw| && s' == At1(s, t, Copying(pc.item, pc.got + [f.raw[from]], pc.slot))
    case EndCopy =>
      && pc.Copying? && pc.item < |f.meta| && |pc.got| == f.meta[pc.item].nval
      && s' == At1(s, t, Finished(pc.slot, C.Value(pc.got, f.meta[pc.item].flags)))
    case _ => false
  }

  // ----- the invariant

  /** The locks are held by exactly those threads that are in the corresponding sections. */
  ghost predicate LocksOk(s: State) {
    && (forall t: Tid :: t in s.readers <==> t < |s.threads| && s.threads[t].Reading?)
    && (forall t: Tid {:trigger s.threads[t]} :: t < |s.threads| ==>
          (s.writer == Some(t) <==> s.threads[t].Writing? || s.threads[t].Wrote?))
    && (forall t: Tid {:trigger s.threads[t]} :: t < |s.threads| ==>
          (s.mutex == Some(t) <==> s.threads[t].Reading? && s.threads[t].pc.Relinking?))
    && (s.writer.Some? ==> s.writer.value < |s.threads| && s.readers == {})
    && (s.mutex.Some? ==> s.mutex.value < |s.threads|)
  }

  ghost predicate AtWork(s: State) {
    s.writer.Some? && s.writer.value < |s.threads| && s.threads[s.writer.value].Writing?
  }

  /** Outside a writer's operation the area holds the abstract cache, up to the writes of the one relink that
      may be under way. */
  ghost predicate MemOk(cfg: Config, base: Addr, s: State) {
    && C.Inv(cfg, s.abs)
    && (!AtWork(s) && s.mutex.None? ==> Rep(cfg, base, s.mem, s.g, s.abs))
    && (s.mutex.Some? ==>
          && Rep(cfg, base, s.before, s.g, s.abs)
          && s.mutex.value < |s.threads|
          && s.threads[s.mutex.value].Reading? && s.threads[s.mutex.value].pc.Relinking?
          && var pc := s.threads[s.mutex.value].pc;
             && pc.item < |s.before.fixed.meta|
             && s.mem == Writes(s.before, pc.item, s.before.fixed.meta[pc.item].clsid, pc.j))
  }

  ghost predicate Logged(log: seq<Entry>, start: nat, slot: nat, entry: Entry) {
    start <= slot < |log| && log[slot] == entry
  }

  ghost predicate AtKey(g: Links, items: map<Bytes, C.Entry>, key: Bytes, item: Addr) {
    key in g.loc && g.loc[key] == item && key in items
  }

  /** What a reader knows at each point. */
  ghost predicate PcOk(nbuckets: nat, g: Links, items: map<Bytes, C.Entry>, log: seq<Entry>, t: Tid, op: C.Op,
                       start: nat, pc: Pc)
    requires nbuckets > 0 && IsRead(op)
  {
    match pc
    case Hashing => true
    case Walking(item, i) =>
      |g.chains| == nbuckets && ChainSeen(g, g.chains[Bucket(op.k, nbuckets)], op.k, item, i)
    case Found(item) => AtKey(g, items, op.k, item)
    case Relinking(item, j) => AtKey(g, items, op.k, item) && j <= WRITES
    case Answering(item, slot) =>
      AtKey(g, items, op.k, item) && Logged(log, start, slot, Answered(t, op, Answer(op, items[op.k])))
    case Copying(item, got, slot) =>
      && AtKey(g, items, op.k, item) && Logged(log, start, slot, Answered(t, op, Answer(op, items[op.k])))
      && Answer(op, items[op.k]) == C.Value(items[op.k].val, items[op.k].flags)
      && got <= items[op.k].val
    case Finished(slot, reply) => Logged(log, start, slot, Answered(t, op, reply))
  }

  ghost predicate ChainSeen(g: Links, chain: seq<Addr>, key: Bytes, item: Addr, i: nat) {
    && i <= |chain| && item == At(chain, i)
    && forall j :: 0 <= j < i ==> chain[j] in g.keyOf && g.keyOf[chain[j]] != key
  }

  ghost predicate ThreadOk(nbuckets: nat, g: Links, items: map<Bytes, C.Entry>, log: seq<Entry>, t: Tid, th: Thread)
    requires nbuckets > 0
  {
    match th
    case Idle => true
    case Asked(_, start) => start <= |log|
    case Writing(call, start) => start <= |log| && !Reads(call)
    case Wrote(call, start, slot, result) => Logged(log, start, slot, Entry(t, call, result))
    case Reading(op, start, pc) => start <= |log| && IsRead(op) && PcOk(nbuckets, g, items, log, t, op, start, pc)
  }

  ghost predicate ThreadsOk(cfg: Config, s: State)
    requires cfg.nbuckets > 0
  {
    forall t {:trigger s.threads[t]} :: 0 <= t < |s.threads| ==>
      ThreadOk(cfg.nbuckets, s.g, s.abs.items, s.log, t, s.threads[t])
  }

  function CallsOf(log: seq<Entry>): (r: seq<Call>)
    ensures |r| == |log| && forall i :: 0 <= i < |log| ==> r[i] == log[i].call
  {
    seq(|log|, i requires 0 <= i < |log| => log[i].call)
  }

  function ResultsOf(log: seq<Entry>): (r: seq<Result>)
    ensures |r| == |log| && forall i :: 0 <= i < |log| ==> r[i] == log[i].result
  {
    seq(|log|, i requires 0 <= i < |log| => log[i].result)
  }

  /** The log is a serial execution from the cache s0 to the cache s, with the results it gives. */
  ghost predicate Serial(cfg: Config, s0: C.Cache, log: seq<Entry>, s: C.Cache) {
    && C.Inv(cfg, s0) && RunDefined(cfg, s0, CallsOf(log))
    && Run(cfg, s0, CallsOf(log)) == s && Results(cfg, s0, CallsOf(log)) == ResultsOf(log)
  }

  /** Every call that returned has its place in the log, between the moments of call and return, and got the
      reply of the serial execution. */
  ghost predicate EventsOk(s: State) {
    forall i {:trigger s.events[i]} :: 0 <= i < |s.events| ==> EventOk(s.log, s.events[i])
  }

  ghost predicate EventOk(log: seq<Entry>, e: Event) {
    e.start <= e.slot < e.end <= |log| && log[e.slot] == e.entry
  }

  ghost predicate Invariant(cfg: Config, base: Addr, s0: C.Cache, s: State) {
    && cfg.nbuckets > 0
    && LocksOk(s) && MemOk(cfg, base, s) && ThreadsOk(cfg, s) && Serial(cfg, s0, s.log, s.abs) && EventsOk(s)
  }

  // ----- the locks

  lemma LocksStep(cfg: Config, base: Addr, s: State, t: Tid, l: Label, s': State)
    requires cfg.nbuckets > 0 && LocksOk(s) && Step(cfg, base, s, t, l, s')
    ensures LocksOk(s')
  {
    hide Rep, ReadStep, LocksOk, C.Wf, C.Defined, C.Apply;
    match l
    case Begin(_) => LocksSame(s, t, s');
    case Scribble(_) =>
      assert s'.threads == s.threads;
      LocksNothing(s, s');
    case Commit(_, _, _, _, _) => LocksSame(s, t, s');
    case Return => LocksReturn(s, t, s');
    case RdLock => LocksTake(s, t, s');
    case WrLock => LocksTake(s, t, s');
    case _ => LocksRead(cfg, s, t, s.threads[t].op, s.threads[t].pc, l, s');
  }

  lemma LocksNothing(s: State, s': State)
    requires LocksOk(s) && s'.threads == s.threads
    requires s'.readers == s.readers && s'.writer == s.writer && s'.mutex == s.mutex
    ensures LocksOk(s')
  {
  }

  /** Nothing changes hands. */
  lemma LocksSame(s: State, t: Tid, s': State)
    requires LocksOk(s) && t < |s.threads| && |s'.threads| == |s.threads| && s'.threads == s.threads[t := s'.threads[t]]
    requires s'.readers == s.readers && s'.writer == s.writer && s'.mutex == s.mutex
    requires var a, b := s.threads[t], s'.threads[t];
             && (a.Reading? <==> b.Reading?) && (a.Writing? || a.Wrote? <==> b.Writing? || b.Wrote?)
             && (a.Reading? && a.pc.Relinking? <==> b.Reading? && b.pc.Relinking?)
    ensures LocksOk(s')
  {
    assert forall u: Tid :: u < |s.threads| && u != t ==> s'.threads[u] == s.threads[u];
  }

  lemma LocksReturn(s: State, t: Tid, s': State)
    requires LocksOk(s) && t < |s.threads| && |s'.threads| == |s.threads| && s'.threads == s.threads[t := Idle]
    requires s'.mutex == s.mutex
    requires var a := s.threads[t];
             || (a.Reading? && a.pc.Finished? && s'.readers == s.readers - {t} && s'.writer == s.writer)
             || (a.Wrote? && s'.readers == s.readers && s'.writer == None)
    ensures LocksOk(s')
  {
    assert forall u: Tid :: u < |s.threads| && u != t ==> s'.threads[u] == s.threads[u];
  }

  lemma LocksTake(s: State, t: Tid, s': State)
    requires LocksOk(s) && t < |s.threads| && |s'.threads| == |s.threads| && s'.threads == s.threads[t := s'.threads[t]]
    requires s.threads[t].Asked? && s.writer.None? && s'.mutex == s.mutex
    requires var b := s'.threads[t];
             || (b.Reading? && b.pc.Hashing? && s'.readers == s.readers + {t} && s'.writer == None)
             || (b.Writing? && s.readers == s'.readers == {} && s'.writer == Some(t))
    ensures LocksOk(s')
  {
    assert forall u: Tid :: u < |s.threads| && u != t ==> s'.threads[u] == s.threads[u];
  }

  lemma LocksRead(cfg: Config, s: State, t: Tid, op: C.Op, pc: Pc, l: Label, s': State)
    requires cfg.nbuckets > 0 && LocksOk(s) && t < |s.threads| && s.threads[t].Reading? && s.threads[t].pc == pc
    requires ReadStep(cfg, s, t, op, pc, l, s')
    ensures LocksOk(s')
  {
    hide Write, SameKey, C.Wf, C.Defined, C.Apply, LocksOk;
    if l.Lock? || l.Unlock? {
      LocksMutex(s, t, s');
    } else {
      LocksSame(s, t, s');
    }
  }

  lemma LocksMutex(s: State, t: Tid, s': State)
    requires LocksOk(s) && t < |s.threads| && |s'.threads| == |s.threads| && s'.threads == s.threads[t := s'.threads[t]]
    requires s'.readers == s.readers && s'.writer == s.writer && s.threads[t].Reading? && s'.threads[t].Reading?
    requires || (s.mutex.None? && s'.mutex == Some(t) && s'.threads[t].pc.Relinking?)
             || (s.threads[t].pc.Relinking? && s'.mutex == None && !s'.threads[t].pc.Relinking?)
    ensures LocksOk(s')
  {
    assert forall u: Tid :: u < |s.threads| && u != t ==> s'.threads[u] == s.threads[u];
  }

  /** A reader never meets a writer's disarray. */
  lemma ReaderSees(cfg: Config, base: Addr, s: State, t: Tid)
    requires LocksOk(s) && MemOk(cfg, base, s) && t < |s.threads| && s.threads[t].Reading?
    ensures !AtWork(s) && FixedPart(cfg, base, s.mem.fixed, s.g, s.abs)
    ensures |s.mem.fixed.meta| == |s.mem.fixed.hnext| == |s.mem.fixed.raw| && |s.mem.fixed.buckets| == cfg.nbuckets
    ensures s.mutex.None? ==> Rep(cfg, base, s.mem, s.g, s.abs)
  {
    hide FixedPart, ListPart, C.Inv, Write;
    assert t in s.readers;
  }

  // ----- memory

  lemma MemStep(cfg: Config, base: Addr, s: State, t: Tid, l: Label, s': State)
    requires cfg.nbuckets > 0 && LocksOk(s) && MemOk(cfg, base, s) && ThreadsOk(cfg, s)
    requires Step(cfg, base, s, t, l, s')
    ensures MemOk(cfg, base, s')
  {
    LocksStep(cfg, base, s, t, l, s');
    hide Rep, ReadStep, Step, C.Wf, C.Inv, C.Defined, C.Apply, MemOk, ThreadsOk, LocksOk;
    StepSort(cfg, base, s, t, l, s');
    if Outside(l) || l.Commit? {
      MemOutside(cfg, base, s, t, l, s');
    } else if l.Lock? {
      MemLock(cfg, base, s, t, s');
    } else if l.Rewire? {
      MemRewire(cfg, base, s, t, s');
    } else if l.Unlock? {
      MemUnlock(cfg, base, s, t, s');
    } else {
      MemSameRead(cfg, base, s, t, l, s');
    }
  }

  lemma MemOutside(cfg: Config, base: Addr, s: State, t: Tid, l: Label, s': State)
    requires cfg.nbuckets > 0 && LocksOk(s) && LocksOk(s') && MemOk(cfg, base, s)
    requires Step(cfg, base, s, t, l, s') && (Outside(l) || l.Commit?)
    ensures MemOk(cfg, base, s')
  {
    hide Rep, ReadStep, Step, C.Wf, C.Inv, C.Defined, C.Apply, MemOk, LocksOk;
    MemInv(cfg, base, s);
    if l.Commit? {
      CommitEffect(cfg, base, s, t, l, s');
      MemCommit(cfg, base, s, t, s');
    } else if l.WrLock? || l.Scribble? {
      WriterEffect(cfg, base, s, t, l, s');
      MemWriter(cfg, base, s, t, s');
    } else {
      PlainEffect(cfg, base, s, t, l, s');
      MemSame(cfg, base, s, t, s');
    }
  }

  lemma CommitEffect(cfg: Config, base: Addr, s: State, t: Tid, l: Label, s': State)
    requires cfg.nbuckets > 0 && Step(cfg, base, s, t, l, s') && l.Commit?
    ensures t < |s'.threads| && s'.threads[t].Wrote? && Rep(cfg, base, s'.mem, s'.g, s'.abs)
  {
    hide Rep, ReadStep, C.Wf, C.Defined, C.Apply;
  }

  lemma WriterEffect(cfg: Config, base: Addr, s: State, t: Tid, l: Label, s': State)
    requires cfg.nbuckets > 0 && Step(cfg, base, s, t, l, s') && (l.WrLock? || l.Scribble?)
    ensures t < |s.threads| == |s'.threads| && s'.threads[t].Writing? && s'.abs == s.abs
  {
    hide Rep, ReadStep, C.Wf, C.Defined, C.Apply;
  }

  lemma PlainEffect(cfg: Config, base: Addr, s: State, t: Tid, l: Label, s': State)
    requires cfg.nbuckets > 0 && Step(cfg, base, s, t, l, s') && (l.Begin? || l.Return? || l.RdLock?)
    ensures t < |s.threads| == |s'.threads| && s'.threads == s.threads[t := s'.threads[t]]
    ensures s'.mem == s.mem && s'.mutex == s.mutex && s'.g == s.g && s'.abs == s.abs && s'.before == s.before
    ensures !s.threads[t].Writing? && !s'.threads[t].Writing?
    ensures s.threads[t].Reading? ==> !s.threads[t].pc.Relinking?
  {
    hide Rep, ReadStep, C.Wf, C.Defined, C.Apply;
  }

  /** A step of a thread that is neither at work as a writer nor relinking, before and after. */
  lemma MemSame(cfg: Config, base: Addr, s: State, t: Tid, s': State)
    requires LocksOk(s) && LocksOk(s') && MemOk(cfg, base, s)
    requires t < |s.threads| && |s'.threads| == |s.threads| && s'.threads == s.threads[t := s'.threads[t]]
    requires s'.mem == s.mem && s'.mutex == s.mutex && s'.g == s.g && s'.abs == s.abs && s'.before == s.before
    requires !s.threads[t].Writing? && !s'.threads[t].Writing?
    requires s.threads[t].Reading? ==> !s.threads[t].pc.Relinking?
    ensures MemOk(cfg, base, s')
  {
    hide Rep, C.Inv, Writes;
    assert forall u: Tid :: u < |s.threads| && u != t ==> s'.threads[u] == s.threads[u];
  }

  lemma MemSameRead(cfg: Config, base: Addr, s: State, t: Tid, l: Label, s': State)
    requires cfg.nbuckets > 0 && LocksOk(s) && LocksOk(s') && MemOk(cfg, base, s)
    requires t < |s.threads| && s.threads[t].Reading? && ReadStep(cfg, s, t, s.threads[t].op, s.threads[t].pc, l, s')
    requires !l.Lock? && !l.Rewire? && !l.Unlock?
    ensures MemOk(cfg, base, s')
  {
    hide Rep, C.Inv, Writes, SameKey, LocksOk, MemOk;
    MemSame(cfg, base, s, t, s');
  }

  /** With a writer at work nobody is in the mutex, and nothing is claimed of the memory. */
  lemma MemWriter(cfg: Config, base: Addr, s: State, t: Tid, s': State)
    requires LocksOk(s) && LocksOk(s') && C.Inv(cfg, s.abs)
    requires t < |s.threads| && |s'.threads| == |s.threads| && s'.threads[t].Writing? && s'.abs == s.abs
    ensures MemOk(cfg, base, s')
  {
    hide Rep, C.Inv, Writes;
    assert s'.writer == Some(t);
    NoMutex(s');
  }

  lemma NoMutex(s: State)
    requires LocksOk(s) && s.writer.Some?
    ensures s.mutex.None?
  {
    forall u: Tid | u < |s.threads| ensures s.mutex != Some(u) {
      assert u !in s.readers;
      assert !s.threads[u].Reading?;
    }
  }

  lemma MemCommit(cfg: Config, base: Addr, s: State, t: Tid, s': State)
    requires LocksOk(s') && t < |s'.threads| && s'.threads[t].Wrote? && Rep(cfg, base, s'.mem, s'.g, s'.abs)
    ensures MemOk(cfg, base, s')
  {
    assert s'.writer == Some(t);
    NoMutex(s');
    hide Dims, SizePart, ListPart, FixedPart, C.Inv, Writes;
  }

  lemma LockEffect(cfg: Config, s: State, t: Tid, op: C.Op, pc: Pc, s': State)
    requires cfg.nbuckets > 0 && t < |s.threads| && s.threads[t].Reading? && ReadStep(cfg, s, t, op, pc, Lock, s')
    ensures pc.Found? && s.mutex.None?
    ensures s' == At1(s, t, Relinking(pc.item, 0)).(mutex := Some(t), before := s.mem)
  {
    hide SameKey, Write, C.Wf, C.Defined, C.Apply;
  }

  lemma RewireEffect(cfg: Config, s: State, t: Tid, op: C.Op, pc: Pc, s': State)
    requires cfg.nbuckets > 0 && t < |s.threads| && s.threads[t].Reading? && ReadStep(cfg, s, t, op, pc, Rewire, s')
    ensures pc.Relinking? && pc.j < WRITES && pc.item < |s.mem.fixed.meta|
    ensures s' == At1(s, t, Relinking(pc.item, pc.j + 1))
                    .(mem := Write(s.mem, pc.item, s.mem.fixed.meta[pc.item].clsid, pc.j))
  {
    hide SameKey, Write, C.Wf, C.Defined, C.Apply;
  }

  lemma UnlockEffect(cfg: Config, s: State, t: Tid, op: C.Op, pc: Pc, s': State)
    requires cfg.nbuckets > 0 && t < |s.threads| && s.threads[t].Reading? && ReadStep(cfg, s, t, op, pc, Unlock, s')
    ensures pc.Relinking? && pc.j == WRITES && pc.item < |s.mem.fixed.meta|
    ensures s.mem.fixed.meta[pc.item].clsid < |s.g.lru| && C.Wf(cfg, s.abs) && C.Defined(cfg, s.abs, op)
    ensures var (abs, reply) := C.Apply(cfg, s.abs, op);
            s' == At1(s, t, Answering(pc.item, |s.log|))
                    .(mutex := None, g := Relinked(s.g, pc.item, s.mem.fixed.meta[pc.item].clsid), abs := abs,
                      log := s.log + [Answered(t, op, reply)])
  {
    hide SameKey, Write, C.Wf, C.Defined, C.Apply;
  }

  lemma MemLock(cfg: Config, base: Addr, s: State, t: Tid, s': State)
    requires cfg.nbuckets > 0 && LocksOk(s) && LocksOk(s') && MemOk(cfg, base, s) && ThreadsOk(cfg, s)
    requires t < |s.threads| && s.threads[t].Reading? && ReadStep(cfg, s, t, s.threads[t].op, s.threads[t].pc, Lock, s')
    ensures MemOk(cfg, base, s')
  {
    hide Rep, FixedPart, C.Inv, ThreadsOk, MemOk, ReadStep, LocksOk, C.Wf;
    var pc := s.threads[t].pc;
    LockEffect(cfg, s, t, s.threads[t].op, pc, s');
    ReaderSees(cfg, base, s, t);
    ReaderItem(cfg, base, s, t);
    assert Writes(s.mem, pc.item, s.mem.fixed.meta[pc.item].clsid, 0) == s.mem;
    hide Writes;
    MemInv(cfg, base, s);
    MemIs(cfg, base, s', t);
  }

  lemma MemInv(cfg: Config, base: Addr, s: State)
    requires MemOk(cfg, base, s)
    ensures C.Inv(cfg, s.abs)
  {
  }

  /** The relink under way, seen from the thread that has the mutex. */
  lemma MemHeld(cfg: Config, base: Addr, s: State, t: Tid)
    requires LocksOk(s) && MemOk(cfg, base, s) && t < |s.threads| && s.threads[t].Reading? && s.threads[t].pc.Relinking?
    ensures C.Inv(cfg, s.abs) && Rep(cfg, base, s.before, s.g, s.abs)
    ensures var pc := s.threads[t].pc;
            pc.item < |s.before.fixed.meta|
            && s.mem == Writes(s.before, pc.item, s.before.fixed.meta[pc.item].clsid, pc.j)
  {
    hide Rep, C.Inv, Writes;
    assert s.mutex == Some(t);
  }

  /** MemOk while the mutex is taken. */
  lemma MemIs(cfg: Config, base: Addr, s: State, t: Tid)
    requires LocksOk(s) && t < |s.threads| && s.threads[t].Reading? && s.threads[t].pc.Relinking? && C.Inv(cfg, s.abs)
    requires Rep(cfg, base, s.before, s.g, s.abs)
    requires var pc := s.threads[t].pc;
             pc.item < |s.before.fixed.meta|
             && s.mem == Writes(s.before, pc.item, s.before.fixed.meta[pc.item].clsid, pc.j)
    ensures MemOk(cfg, base, s)
  {
    hide Rep, C.Inv, Writes;
    assert s.mutex == Some(t);
  }

  /** A reader that has found its item has it at the place the index says. */
  lemma ReaderItem(cfg: Config, base: Addr, s: State, t: Tid)
    requires cfg.nbuckets > 0 && LocksOk(s) && MemOk(cfg, base, s) && ThreadsOk(cfg, s)
    requires t < |s.threads| && s.threads[t].Reading?
    requires var pc := s.threads[t].pc; pc.Found? || pc.Relinking? || pc.Answering? || pc.Copying?
    ensures var k, item, f := s.threads[t].op.k, s.threads[t].pc.item, s.mem.fixed;
            && AtKey(s.g, s.abs.items, k, item) && C.Wf(cfg, s.abs)
            && item < |f.meta| && f.meta[item].nkey == |k| && f.meta[item].nval == |s.abs.items[k].val|
            && f.meta[item].flags == s.abs.items[k].flags
            && item + HEADER + |k| + |s.abs.items[k].val| <= |f.raw|
            && f.raw[item + HEADER + |k|..item + HEADER + |k| + |s.abs.items[k].val|] == s.abs.items[k].val
  {
    hide FixedPart, MemOk, ThreadsOk, LocksOk, AtWork, Rep, C.Wf;
    ReaderSees(cfg, base, s, t);
    ReaderAtKey(cfg, s, t);
    ItemFacts(cfg, base, s.mem.fixed, s.g, s.abs, s.threads[t].op.k);
  }

  lemma ReaderAtKey(cfg: Config, s: State, t: Tid)
    requires cfg.nbuckets > 0 && ThreadsOk(cfg, s) && t < |s.threads| && s.threads[t].Reading?
    requires var pc := s.threads[t].pc; pc.Found? || pc.Relinking? || pc.Answering? || pc.Copying?
    ensures AtKey(s.g, s.abs.items, s.threads[t].op.k, s.threads[t].pc.item) && IsRead(s.threads[t].op)
  {
    assert ThreadOk(cfg.nbuckets, s.g, s.abs.items, s.log, t, s.threads[t]);
    hide AtKey, Logged, Answer, ChainSeen;
  }

  lemma ItemFacts(cfg: Config, base: Addr, f: Fixed, g: Links, s: C.Cache, k: Bytes)
    requires FixedPart(cfg, base, f, g, s) && k in g.loc
    ensures var a := g.loc[k];
            && k in s.items && C.Wf(cfg, s) && a < |f.meta|
            && f.meta[a].nkey == |k| && f.meta[a].nval == |s.items[k].val| && f.meta[a].flags == s.items[k].flags
            && a + HEADER + |k| + |s.items[k].val| <= |f.raw|
            && f.raw[a + HEADER + |k|..a + HEADER + |k| + |s.items[k].val|] == s.items[k].val
  {
    AbstractsWf(cfg, g, f.memUsed, s);
    hide ChainLists, Indexed, Listed, Content, Pool, Abstracts, C.Wf;
    ContentFacts(cfg, f.raw, f.meta, g, s.items, k);
  }

  lemma AbstractsWf(cfg: Config, g: Links, used: nat, s: C.Cache)
    requires Abstracts(cfg, g, used, s)
    ensures C.Wf(cfg, s)
  {
  }

  lemma ContentFacts(cfg: Config, raw: Bytes, meta: seq<Meta>, g: Links, items: map<Bytes, C.Entry>, k: Bytes)
    requires Content(cfg, raw, meta, g, items) && Indexed(cfg.nbuckets, g) && k in g.loc
    ensures var a := g.loc[k];
            && k in items && a < |meta|
            && meta[a].nkey == |k| && meta[a].nval == |items[k].val| && meta[a].flags == items[k].flags
            && a + HEADER + |k| + |items[k].val| <= |raw|
            && raw[a + HEADER + |k|..a + HEADER + |k| + |items[k].val|] == items[k].val
  {
    var a := g.loc[k];
    assert a in g.keyOf && g.keyOf[a] == k;
    hide Indexed;
    assert Holds(cfg, raw, meta, g.cls, a, k, items[k]);
    hide C.Class, C.HasClass, Content, Config.Valid;
  }

  lemma MemRewire(cfg: Config, base: Addr, s: State, t: Tid, s': State)
    requires cfg.nbuckets > 0 && LocksOk(s) && LocksOk(s') && MemOk(cfg, base, s)
    requires t < |s.threads| && s.threads[t].Reading?
    requires ReadStep(cfg, s, t, s.threads[t].op, s.threads[t].pc, Rewire, s')
    ensures MemOk(cfg, base, s')
  {
    hide Rep, C.Inv, Write, LocksOk, MemOk, ReadStep;
    var pc := s.threads[t].pc;
    RewireEffect(cfg, s, t, s.threads[t].op, pc, s');
    MemHeld(cfg, base, s, t);
    assert Writes(s.before, pc.item, s.before.fixed.meta[pc.item].clsid, pc.j + 1) == s'.mem;
    hide Writes;
    MemIs(cfg, base, s', t);
  }

  lemma MemUnlock(cfg: Config, base: Addr, s: State, t: Tid, s': State)
    requires cfg.nbuckets > 0 && LocksOk(s) && LocksOk(s') && MemOk(cfg, base, s) && ThreadsOk(cfg, s)
    requires t < |s.threads| && s.threads[t].Reading?
    requires ReadStep(cfg, s, t, s.threads[t].op, s.threads[t].pc, Unlock, s')
    ensures MemOk(cfg, base, s')
  {
    hide Rep, C.Inv, Writes, LocksOk, ThreadsOk, MemOk, ReadStep, C.Wf, C.Apply, C.Defined, C.Touch;
    UnlockEffect(cfg, s, t, s.threads[t].op, s.threads[t].pc, s');
    MemHeld(cfg, base, s, t);
    ReaderAtKey(cfg, s, t);
    WritesRelink(cfg, base, s.before, s.g, s.abs, s.threads[t].op.k);
    TouchIsApply(cfg, s.abs, s.threads[t].op);
    MemFree(cfg, base, s');
  }

  lemma MemFree(cfg: Config, base: Addr, s: State)
    requires s.mutex.None? && Rep(cfg, base, s.mem, s.g, s.abs)
    ensures MemOk(cfg, base, s)
  {
    hide Dims, SizePart, ListPart, FixedPart, C.Inv, Writes;
  }

  lemma TouchIsApply(cfg: Config, s: C.Cache, op: C.Op)
    requires C.Wf(cfg, s) && IsRead(op) && op.k in s.items && C.Defined(cfg, s, op)
    ensures C.Apply(cfg, s, op) == (C.Touch(cfg, s, op.k), Answer(op, s.items[op.k]))
  {
    hide C.Touch, C.Shape, C.Recency;
  }

  // ----- what each thread knows

  /** Nothing a reader relies on is touched by another thread's step, unless it is a writer's, when there are
      no readers. */
  lemma ThreadFrame(nbuckets: nat, g: Links, g': Links, items: map<Bytes, C.Entry>, items': map<Bytes, C.Entry>,
                    log: seq<Entry>, log': seq<Entry>, t: Tid, th: Thread)
    requires nbuckets > 0 && ThreadOk(nbuckets, g, items, log, t, th) && log <= log'
    requires th.Reading? ==> g'.chains == g.chains && g'.loc == g.loc && g'.keyOf == g.keyOf && items' == items
    ensures ThreadOk(nbuckets, g', items', log', t, th)
  {
    assert forall i :: 0 <= i < |log| ==> log'[i] == log[i];
    hide Answer;
  }

  /** The chain walk of assoc_find under the read lock. */
  lemma WalkStep(cfg: Config, base: Addr, s: State, op: C.Op, item: Addr, i: nat)
    requires FixedPart(cfg, base, s.mem.fixed, s.g, s.abs) && cfg.nbuckets > 0 && |s.g.chains| == cfg.nbuckets
    requires ChainSeen(s.g, s.g.chains[Bucket(op.k, cfg.nbuckets)], op.k, item, i)
    ensures item == 0 ==> op.k !in s.abs.items
    ensures item != 0 ==>
              var chain := s.g.chains[Bucket(op.k, cfg.nbuckets)];
              if SameKey(s.mem.fixed, item, op.k) then AtKey(s.g, s.abs.items, op.k, item)
              else ChainSeen(s.g, chain, op.k, Image.Get(s.mem.fixed.hnext, item), i + 1)
  {
    hide ChainLists, Indexed, Listed, Content, Pool, Abstracts, Bucket, SameKey, ChainSeen;
    var f, b := s.mem.fixed, Bucket(op.k, cfg.nbuckets);
    ContentKeys(cfg, f, s.g, s.abs.items);
    if item == 0 {
      WalkEnd(cfg, f, s.g, op.k, i);
    } else {
      WalkOneOn(cfg, f, s.g, op.k, item, i);
      CompareKey(cfg, f, s.g, s.abs.items, item, op.k);
      FoundAt(cfg.nbuckets, s.g, item);
    }
  }

  lemma ContentKeys(cfg: Config, f: Fixed, g: Links, items: map<Bytes, C.Entry>)
    requires Content(cfg, f.raw, f.meta, g, items)
    ensures forall k :: k in items <==> k in g.loc
  {
    assert items.Keys == g.loc.Keys;
  }

  lemma WalkEnd(cfg: Config, f: Fixed, g: Links, key: Bytes, i: nat)
    requires ChainLists(f.hnext, f.buckets, g.chains) && Indexed(cfg.nbuckets, g) && cfg.nbuckets > 0
    requires |g.chains| == cfg.nbuckets && ChainSeen(g, g.chains[Bucket(key, cfg.nbuckets)], key, 0, i)
    ensures key !in g.loc
  {
    hide ChainLists, Indexed, Bucket;
    ChainEnd(f.hnext, f.buckets, cfg.nbuckets, g, Bucket(key, cfg.nbuckets), i);
    ChainMiss(cfg.nbuckets, g, key);
  }

  lemma WalkOneOn(cfg: Config, f: Fixed, g: Links, key: Bytes, item: Addr, i: nat)
    requires ChainLists(f.hnext, f.buckets, g.chains) && Indexed(cfg.nbuckets, g) && cfg.nbuckets > 0 && item != 0
    requires |g.chains| == cfg.nbuckets && ChainSeen(g, g.chains[Bucket(key, cfg.nbuckets)], key, item, i)
    ensures item in g.keyOf
    ensures g.keyOf[item] != key ==>
              ChainSeen(g, g.chains[Bucket(key, cfg.nbuckets)], key, Image.Get(f.hnext, item), i + 1)
  {
    hide ChainLists, Indexed, Bucket;
    ChainStep(f.hnext, f.buckets, cfg.nbuckets, g, Bucket(key, cfg.nbuckets), i);
  }

  lemma CompareKey(cfg: Config, f: Fixed, g: Links, items: map<Bytes, C.Entry>, item: Addr, key: Bytes)
    requires Content(cfg, f.raw, f.meta, g, items) && item in g.keyOf
    ensures SameKey(f, item, key) <==> g.keyOf[item] == key
  {
    KeyCompare(cfg, f.raw, f.meta, g, items, item, key);
    hide Content;
  }

  lemma FirstOfChain(cfg: Config, f: Fixed, g: Links, key: Bytes)
    requires cfg.nbuckets > 0 && ChainLists(f.hnext, f.buckets, g.chains) && Indexed(cfg.nbuckets, g)
    ensures |g.chains| == cfg.nbuckets
    ensures ChainSeen(g, g.chains[Bucket(key, cfg.nbuckets)], key, Image.Get(f.buckets, Bucket(key, cfg.nbuckets)), 0)
  {
    var b := Bucket(key, cfg.nbuckets);
    assert SList(f.hnext, f.buckets[b], g.chains[b]);
    hide Bucket;
  }

  /** A reader's own step keeps what it knows. */
  lemma OwnStep(cfg: Config, base: Addr, s: State, t: Tid, l: Label, s': State)
    requires cfg.nbuckets > 0 && LocksOk(s) && MemOk(cfg, base, s) && ThreadsOk(cfg, s)
    requires t < |s.threads| && s.threads[t].Reading?
    requires ReadStep(cfg, s, t, s.threads[t].op, s.threads[t].pc, l, s')
    ensures |s'.threads| == |s.threads| && s.log <= s'.log
    ensures ThreadOk(cfg.nbuckets, s'.g, s'.abs.items, s'.log, t, s'.threads[t])
  {
    hide LocksOk, MemOk, AtWork, FixedPart, Rep, SameKey, ChainSeen, Image.Get, Bucket, Write, C.Wf, C.Apply,
         C.Defined, AtKey,
         ThreadsOk;
    ReaderSees(cfg, base, s, t);
    var op, pc, f := s.threads[t].op, s.threads[t].pc, s.mem.fixed;
    OwnOk(cfg, s, t);
    if l.Unlock? {
      OwnUnlock(cfg, s, t, s');
    } else if pc.Walking? || pc.Hashing? {
      OwnWalk(cfg, base, s, t, l, s');
    } else if pc.Answering? {
      ReaderItem(cfg, base, s, t);
    } else if pc.Copying? {
      OwnCopy(cfg, base, s, t);
    }
  }

  lemma OwnWalk(cfg: Config, base: Addr, s: State, t: Tid, l: Label, s': State)
    requires cfg.nbuckets > 0 && FixedPart(cfg, base, s.mem.fixed, s.g, s.abs) && t < |s.threads|
    requires ThreadOk(cfg.nbuckets, s.g, s.abs.items, s.log, t, s.threads[t])
    requires s.threads[t].Reading? && (s.threads[t].pc.Walking? || s.threads[t].pc.Hashing?)
    requires ReadStep(cfg, s, t, s.threads[t].op, s.threads[t].pc, l, s')
    ensures |s'.threads| == |s.threads| && s.log <= s'.log
    ensures ThreadOk(cfg.nbuckets, s'.g, s'.abs.items, s'.log, t, s'.threads[t])
  {
    hide FixedPart, SameKey, ChainSeen, Image.Get, Bucket, Write, C.Wf, C.Apply, C.Defined, AtKey;
    var op, pc := s.threads[t].op, s.threads[t].pc;
    if pc.Hashing? {
      OwnHash(cfg, base, s, op);
    } else {
      WalkStep(cfg, base, s, op, pc.item, pc.i);
    }
  }

  lemma OwnOk(cfg: Config, s: State, t: Tid)
    requires cfg.nbuckets > 0 && ThreadsOk(cfg, s) && t < |s.threads|
    ensures ThreadOk(cfg.nbuckets, s.g, s.abs.items, s.log, t, s.threads[t])
  {
  }

  lemma OwnHash(cfg: Config, base: Addr, s: State, op: C.Op)
    requires FixedPart(cfg, base, s.mem.fixed, s.g, s.abs) && cfg.nbuckets > 0
    ensures |s.g.chains| == cfg.nbuckets
    ensures ChainSeen(s.g, s.g.chains[Bucket(op.k, cfg.nbuckets)], op.k,
                      Image.Get(s.mem.fixed.buckets, Bucket(op.k, cfg.nbuckets)), 0)
  {
    hide ChainLists, Indexed, Listed, Content, Pool, Abstracts, Bucket, ChainSeen;
    FirstOfChain(cfg, s.mem.fixed, s.g, op.k);
  }

  /** The relink is where the operation takes effect. */
  lemma OwnUnlock(cfg: Config, s: State, t: Tid, s': State)
    requires cfg.nbuckets > 0 && ThreadsOk(cfg, s) && t < |s.threads| && s.threads[t].Reading?
    requires ReadStep(cfg, s, t, s.threads[t].op, s.threads[t].pc, Unlock, s')
    ensures s.log <= s'.log && ThreadOk(cfg.nbuckets, s'.g, s'.abs.items, s'.log, t, s'.threads[t])
  {
    hide ReadStep, ThreadsOk, C.Wf, C.Apply, C.Defined, C.Touch;
    var op := s.threads[t].op;
    UnlockEffect(cfg, s, t, op, s.threads[t].pc, s');
    ReaderAtKey(cfg, s, t);
    OwnOk(cfg, s, t);
    TouchIsApply(cfg, s.abs, op);
    TouchItems(cfg, s.abs, op.k);
  }

  lemma TouchItems(cfg: Config, s: C.Cache, k: Bytes)
    requires C.Wf(cfg, s) && k in s.items
    ensures C.Touch(cfg, s, k).items == s.items
  {
    hide C.Shape, C.Recency;
  }

  /** One byte more is still a prefix; all of them are the value. */
  lemma OwnCopy(cfg: Config, base: Addr, s: State, t: Tid)
    requires cfg.nbuckets > 0 && LocksOk(s) && MemOk(cfg, base, s) && ThreadsOk(cfg, s)
    requires t < |s.threads| && s.threads[t].Reading? && s.threads[t].pc.Copying?
    ensures var pc, f, k := s.threads[t].pc, s.mem.fixed, s.threads[t].op.k;
            && k in s.abs.items && pc.item < |f.meta| && |pc.got| <= f.meta[pc.item].nval
            && f.meta[pc.item].nval == |s.abs.items[k].val| && f.meta[pc.item].flags == s.abs.items[k].flags
            && (|pc.got| == f.meta[pc.item].nval ==> pc.got == s.abs.items[k].val)
            && (|pc.got| < f.meta[pc.item].nval ==>
                  var from := pc.item + HEADER + f.meta[pc.item].nkey + |pc.got|;
                  from < |f.raw| && pc.got + [f.raw[from]] <= s.abs.items[k].val)
  {
    hide MemOk, LocksOk, AtWork, FixedPart, C.Wf, Answer, Logged;
    ReaderItem(cfg, base, s, t);
    OwnOk(cfg, s, t);
    hide ThreadsOk;
    var pc, f, k := s.threads[t].pc, s.mem.fixed, s.threads[t].op.k;
    PrefixMore(f.raw, pc.item + HEADER + |k|, s.abs.items[k].val, pc.got);
  }

  lemma PrefixMore(raw: Bytes, from: nat, val: Bytes, got: Bytes)
    requires from + |val| <= |raw| && raw[from..from + |val|] == val && got <= val
    ensures |got| == |val| ==> got == val
    ensures |got| < |val| ==> got + [raw[from + |got|]] <= val
  {
    if |got| < |val| {
      assert raw[from..from + |val|][|got|] == raw[from + |got|];
    }
  }

  // ----- every step keeps the invariant

  /** What the steps of a reader leave alone. */
  lemma ReadKeeps(cfg: Config, s: State, t: Tid, l: Label, s': State)
    requires cfg.nbuckets > 0 && ThreadsOk(cfg, s) && t < |s.threads| && s.threads[t].Reading?
    requires ReadStep(cfg, s, t, s.threads[t].op, s.threads[t].pc, l, s')
    ensures s'.mem.fixed == s.mem.fixed && s'.abs.items == s.abs.items
    ensures s'.g == s.g.(lru := s'.g.lru, held := s'.g.held)
    ensures |s'.threads| == |s.threads| && s'.threads == s.threads[t := s'.threads[t]]
    ensures s.log <= s'.log && s'.events == s.events && s'.readers == s.readers && s'.writer == s.writer
  {
    hide ThreadsOk, SameKey, Bucket, Image.Get, Write, C.Wf, C.Apply, C.Defined;
    if l.Unlock? {
      hide ReadStep;
      UnlockEffect(cfg, s, t, s.threads[t].op, s.threads[t].pc, s');
      ReaderAtKey(cfg, s, t);
      TouchIsApply(cfg, s.abs, s.threads[t].op);
      TouchItems(cfg, s.abs, s.threads[t].op.k);
    }
  }

  lemma ThreadsStep(cfg: Config, base: Addr, s: State, t: Tid, l: Label, s': State)
    requires cfg.nbuckets > 0 && LocksOk(s) && MemOk(cfg, base, s) && ThreadsOk(cfg, s)
    requires Step(cfg, base, s, t, l, s')
    ensures ThreadsOk(cfg, s')
  {
    hide Rep, ReadStep, C.Wf, C.Inv, C.Defined, C.Apply, MemOk, ThreadsOk, LocksOk, ThreadOk;
    match l
    case Begin(_) => ThreadsPlain(cfg, s, t, s');
    case Return => ThreadsPlain(cfg, s, t, s');
    case RdLock => ThreadsPlain(cfg, s, t, s');
    case WrLock => ThreadsPlain(cfg, s, t, s');
    case Scribble(_) => ThreadsPlain(cfg, s, t, s');
    case Commit(_, _, _, _, _) => ThreadsCommit(cfg, s, t, s');
    case _ => ThreadsRead(cfg, base, s, t, l, s');
  }

  lemma ThreadsPlain(cfg: Config, s: State, t: Tid, s': State)
    requires cfg.nbuckets > 0 && ThreadsOk(cfg, s) && t < |s.threads|
    requires |s'.threads| == |s.threads| && s'.threads == s.threads[t := s'.threads[t]]
    requires s'.g == s.g && s'.abs == s.abs && s'.log == s.log
    requires var a, b := s.threads[t], s'.threads[t];
             || b == a || b.Idle? || (b.Asked? && b.start <= |s.log|)
             || (a.Asked? && Reads(a.call) && b == Reading(a.call.op, a.start, Hashing))
             || (a.Asked? && !Reads(a.call) && b == Writing(a.call, a.start))
    ensures ThreadsOk(cfg, s')
  {
    OwnOk(cfg, s, t);
    forall u: Tid | u < |s'.threads| ensures ThreadOk(cfg.nbuckets, s'.g, s'.abs.items, s'.log, u, s'.threads[u]) {
      if u != t { assert s'.threads[u] == s.threads[u]; }
    }
  }

  lemma ThreadsCommit(cfg: Config, s: State, t: Tid, s': State)
    requires cfg.nbuckets > 0 && LocksOk(s) && ThreadsOk(cfg, s) && t < |s.threads| && s.threads[t].Writing?
    requires |s'.threads| == |s.threads| && s'.threads == s.threads[t := s'.threads[t]]
    requires s'.threads[t].Wrote? && s'.threads[t].slot == |s.log| && s'.threads[t].start == s.threads[t].start
    requires s'.log == s.log + [Entry(t, s'.threads[t].call, s'.threads[t].result)]
    ensures ThreadsOk(cfg, s')
  {
    OwnOk(cfg, s, t);
    assert s.writer == Some(t) && s.readers == {};
    hide ThreadsOk, PcOk;
    forall u: Tid | u < |s'.threads| ensures ThreadOk(cfg.nbuckets, s'.g, s'.abs.items, s'.log, u, s'.threads[u]) {
      if u != t {
        assert s'.threads[u] == s.threads[u] && u !in s.readers;
        OwnOk(cfg, s, u);
        ThreadFrame(cfg.nbuckets, s.g, s'.g, s.abs.items, s'.abs.items, s.log, s'.log, u, s.threads[u]);
      }
    }
  }

  lemma ThreadsRead(cfg: Config, base: Addr, s: State, t: Tid, l: Label, s': State)
    requires cfg.nbuckets > 0 && LocksOk(s) && MemOk(cfg, base, s) && ThreadsOk(cfg, s)
    requires t < |s.threads| && s.threads[t].Reading?
    requires ReadStep(cfg, s, t, s.threads[t].op, s.threads[t].pc, l, s')
    ensures ThreadsOk(cfg, s')
  {
    ReadKeeps(cfg, s, t, l, s');
    OwnStep(cfg, base, s, t, l, s');
    hide LocksOk, MemOk, ReadStep, PcOk, ThreadOk;
    forall u: Tid | u < |s'.threads| ensures ThreadOk(cfg.nbuckets, s'.g, s'.abs.items, s'.log, u, s'.threads[u]) {
      if u != t {
        assert s'.threads[u] == s.threads[u];
        ThreadFrame(cfg.nbuckets, s.g, s'.g, s.abs.items, s'.abs.items, s.log, s'.log, u, s.threads[u]);
      }
    }
  }

  lemma SerialMore(cfg: Config, s0: C.Cache, log: seq<Entry>, s: C.Cache, e: Entry, s': C.Cache)
    requires Serial(cfg, s0, log, s) && C.Inv(cfg, s)
    requires Defined(cfg, s, e.call) && Calls.Apply(cfg, s, e.call) == (s', e.result)
    ensures Serial(cfg, s0, log + [e], s')
  {
    hide C.Inv, Calls.Apply, Defined, RunDefined, Run, Results;
    RunSnoc(cfg, s0, CallsOf(log), e.call);
    assert CallsOf(log + [e]) == CallsOf(log) + [e.call];
    assert ResultsOf(log + [e]) == ResultsOf(log) + [e.result];
  }

  lemma SingleApply(cfg: Config, s: C.Cache, op: C.Op)
    requires C.Inv(cfg, s) && C.Wf(cfg, s) && C.Defined(cfg, s, op)
    ensures Defined(cfg, s, Single(op))
    ensures Calls.Apply(cfg, s, Single(op)) == (C.Apply(cfg, s, op).0, Replied(C.Apply(cfg, s, op).1))
  {
    hide C.Inv, C.Wf, C.Apply, C.Defined;
  }

  lemma SerialStep(cfg: Config, base: Addr, s0: C.Cache, s: State, t: Tid, l: Label, s': State)
    requires cfg.nbuckets > 0 && LocksOk(s) && MemOk(cfg, base, s) && ThreadsOk(cfg, s)
    requires MemOk(cfg, base, s') && Serial(cfg, s0, s.log, s.abs) && Step(cfg, base, s, t, l, s')
    ensures Serial(cfg, s0, s'.log, s'.abs)
  {
    hide Rep, ReadStep, Step, C.Wf, C.Inv, C.Defined, C.Apply, MemOk, ThreadsOk, LocksOk, Serial;
    MemInv(cfg, base, s');
    StepSort(cfg, base, s, t, l, s');
    hide Defined, Calls.Apply;
    if l.WalkMiss? {
      MissEffect(cfg, s, t, s.threads[t].op, s.threads[t].pc, s');
      SerialMiss(cfg, base, s0, s, t);
    } else if l.Unlock? {
      SerialUnlock(cfg, base, s0, s, t, s');
    } else if l.Commit? {
      SerialMore(cfg, s0, s.log, s.abs, Entry(t, l.done, l.result), s'.abs);
    } else if !Outside(l) {
      QuietEffect(cfg, s, t, s.threads[t].op, s.threads[t].pc, l, s');
    }
  }

  lemma SerialUnlock(cfg: Config, base: Addr, s0: C.Cache, s: State, t: Tid, s': State)
    requires cfg.nbuckets > 0 && MemOk(cfg, base, s) && Serial(cfg, s0, s.log, s.abs)
    requires t < |s.threads| && s.threads[t].Reading?
    requires ReadStep(cfg, s, t, s.threads[t].op, s.threads[t].pc, Unlock, s')
    ensures Serial(cfg, s0, s'.log, s'.abs)
  {
    hide ReadStep, C.Wf, C.Inv, C.Defined, C.Apply, MemOk, Serial, Defined, Calls.Apply;
    var op := s.threads[t].op;
    MemInv(cfg, base, s);
    UnlockEffect(cfg, s, t, op, s.threads[t].pc, s');
    SingleApply(cfg, s.abs, op);
    SerialMore(cfg, s0, s.log, s.abs, Answered(t, op, C.Apply(cfg, s.abs, op).1), s'.abs);
  }

  /** Steps outside the read section, other than a writer's last. */
  predicate Outside(l: Label) {
    l.Begin? || l.Return? || l.RdLock? || l.WrLock? || l.Scribble?
  }

  /** The three sorts of steps. */
  lemma StepSort(cfg: Config, base: Addr, s: State, t: Tid, l: Label, s': State)
    requires cfg.nbuckets > 0 && Step(cfg, base, s, t, l, s')
    ensures t < |s.threads|
    ensures Outside(l) ==>
              s'.log == s.log && s'.abs == s.abs && s'.g == s.g && (s'.mem == s.mem || s.threads[t].Writing?)
    ensures l.Commit? ==>
              && s.threads[t].Writing? && C.Inv(cfg, s.abs) && Defined(cfg, s.abs, l.done)
              && Calls.Apply(cfg, s.abs, l.done) == (s'.abs, l.result)
              && s'.log == s.log + [Entry(t, l.done, l.result)]
    ensures !Outside(l) && !l.Commit? ==>
              s.threads[t].Reading? && ReadStep(cfg, s, t, s.threads[t].op, s.threads[t].pc, l, s')
  {
    hide Rep, ReadStep, C.Inv, Defined, Calls.Apply;
  }

  lemma MissEffect(cfg: Config, s: State, t: Tid, op: C.Op, pc: Pc, s': State)
    requires cfg.nbuckets > 0 && t < |s.threads| && s.threads[t].Reading? && ReadStep(cfg, s, t, op, pc, WalkMiss, s')
    ensures pc.Walking? && pc.item == 0 && s'.abs == s.abs
    ensures s'.log == s.log + [Answered(t, op, C.Done(C.NotFound))]
  {
    hide SameKey, Write, C.Wf, C.Defined, C.Apply;
  }

  /** All other steps of a reader leave the log and the cache alone. */
  lemma QuietEffect(cfg: Config, s: State, t: Tid, op: C.Op, pc: Pc, l: Label, s': State)
    requires cfg.nbuckets > 0 && t < |s.threads| && s.threads[t].Reading? && ReadStep(cfg, s, t, op, pc, l, s')
    requires !l.WalkMiss? && !l.Unlock?
    ensures s'.log == s.log && s'.abs == s.abs && s'.mem.fixed == s.mem.fixed && s'.g == s.g
  {
    hide SameKey, Bucket, Image.Get, Write, C.Wf, C.Apply, C.Defined;
  }

  lemma SerialMiss(cfg: Config, base: Addr, s0: C.Cache, s: State, t: Tid)
    requires cfg.nbuckets > 0 && LocksOk(s) && MemOk(cfg, base, s) && ThreadsOk(cfg, s) && Serial(cfg, s0, s.log, s.abs)
    requires t < |s.threads| && s.threads[t].Reading? && s.threads[t].pc.Walking? && s.threads[t].pc.item == 0
    ensures Serial(cfg, s0, s.log + [Answered(t, s.threads[t].op, C.Done(C.NotFound))], s.abs)
  {
    hide Rep, FixedPart, C.Wf, C.Inv, C.Defined, C.Apply, MemOk, ThreadsOk, LocksOk, Serial, AtWork, ChainSeen, Bucket;
    var op := s.threads[t].op;
    ReaderSees(cfg, base, s, t);
    ReaderWalks(cfg, s, t);
    WalkStep(cfg, base, s, op, 0, s.threads[t].pc.i);
    MemInv(cfg, base, s);
    MissIsApply(cfg, s.abs, op);
    SingleApply(cfg, s.abs, op);
    hide Defined, Calls.Apply;
    SerialMore(cfg, s0, s.log, s.abs, Answered(t, op, C.Done(C.NotFound)), s.abs);
  }

  lemma ReaderWalks(cfg: Config, s: State, t: Tid)
    requires cfg.nbuckets > 0 && ThreadsOk(cfg, s) && t < |s.threads| && s.threads[t].Reading?
    requires s.threads[t].pc.Walking?
    ensures var op, pc := s.threads[t].op, s.threads[t].pc;
            IsRead(op) && |s.g.chains| == cfg.nbuckets
            && ChainSeen(s.g, s.g.chains[Bucket(op.k, cfg.nbuckets)], op.k, pc.item, pc.i)
  {
    OwnOk(cfg, s, t);
    hide ThreadsOk, ChainSeen, Bucket;
  }

  lemma MissIsApply(cfg: Config, s: C.Cache, op: C.Op)
    requires C.Inv(cfg, s) && IsRead(op) && op.k !in s.items
    ensures C.Wf(cfg, s) && C.Defined(cfg, s, op) && C.Apply(cfg, s, op) == (s, C.Done(C.NotFound))
  {
    hide C.Shape, C.Recency, C.Conserved;
  }

  lemma EventsStep(cfg: Config, base: Addr, s: State, t: Tid, l: Label, s': State)
    requires cfg.nbuckets > 0 && ThreadsOk(cfg, s) && EventsOk(s) && Step(cfg, base, s, t, l, s')
    ensures EventsOk(s')
  {
    OwnOk(cfg, s, t);
    hide Rep, C.Wf, C.Defined, C.Apply, ThreadsOk, ReadStep, Answer, ChainSeen, AtKey, Bucket;
    match l
    case Return =>
      var e := s'.events[|s.events|];
      assert EventOk(s'.log, e);
    case Commit(_, _, _, _, _) => EventsLater(s, s');
    case _ =>
      if s.threads[t].Reading? && !l.Begin? && !l.RdLock? && !l.WrLock? && !l.Scribble? {
        ReadKeeps(cfg, s, t, l, s');
        EventsLater(s, s');
      }
  }

  lemma EventsLater(s: State, s': State)
    requires EventsOk(s) && s.log <= s'.log && s'.events == s.events
    ensures EventsOk(s')
  {
    assert forall i :: 0 <= i < |s.log| ==> s'.log[i] == s.log[i];
  }

  /** Locks, memory, serial execution and returned replies stay in order at every step of every thread. */
  lemma StepInvariant(cfg: Config, base: Addr, s0: C.Cache, s: State, t: Tid, l: Label, s': State)
    requires Invariant(cfg, base, s0, s) && Step(cfg, base, s, t, l, s')
    ensures Invariant(cfg, base, s0, s')
  {
    hide LocksOk, MemOk, ThreadsOk, Serial, EventsOk, Step;
    LocksStep(cfg, base, s, t, l, s');
    MemStep(cfg, base, s, t, l, s');
    ThreadsStep(cfg, base, s, t, l, s');
    SerialStep(cfg, base, s0, s, t, l, s');
    EventsStep(cfg, base, s, t, l, s');
  }

  // ----- whole runs

  /** Nobody is in a call, and the area holds a cache. */
  ghost predicate Start(cfg: Config, base: Addr, s: State) {
    && (forall t {:trigger s.threads[t]} :: 0 <= t < |s.threads| ==> s.threads[t].Idle?)
    && s.readers == {} && s.writer.None? && s.mutex.None? && s.log == [] && s.events == []
    && Rep(cfg, base, s.mem, s.g, s.abs)
  }

  /** Any store that the operations have left, with nobody in a call, is such a start. */
  lemma StoreStarts(m: Shmc, n: nat) returns (s: State)
    requires m.Valid()
    ensures Start(m.cfg, m.base, s) && m.cfg.nbuckets > 0
    ensures s.abs == m.abs && s.mem == Snapshot(m) && |s.threads| == n
  {
    hide Rep, Shmc.Valid, Snapshot;
    ValidIsRep(m);
    RepBuckets(m.cfg, m.base, Snapshot(m), m.g, m.abs);
    s := State(Snapshot(m), {}, None, None, Idlers(n), m.g, m.abs, Snapshot(m), [], []);
  }

  function Idlers(n: nat): (r: seq<Thread>)
    ensures |r| == n && forall i :: 0 <= i < n ==> r[i].Idle?
  {
    seq(n, i => Idle)
  }

  lemma RepBuckets(cfg: Config, base: Addr, m: Mem, g: Links, s: C.Cache)
    requires Rep(cfg, base, m, g, s)
    ensures cfg.nbuckets > 0
  {
    hide ListPart, FixedPart, SizePart, C.Inv;
  }

  ghost predicate Execution(cfg: Config, base: Addr, states: seq<State>) {
    && states != [] && Start(cfg, base, states[0]) && cfg.nbuckets > 0
    && forall i :: 0 < i < |states| ==> Follows(cfg, base, states, i)
  }

  ghost predicate Follows(cfg: Config, base: Addr, states: seq<State>, i: int)
    requires cfg.nbuckets > 0 && 0 < i < |states|
  {
    Next(cfg, base, states[i - 1], states[i])
  }

  ghost predicate Next(cfg: Config, base: Addr, s: State, s': State)
    requires cfg.nbuckets > 0
  {
    exists t, l :: Step(cfg, base, s, t, l, s')
  }

  /** The invariant holds in every state of every interleaving. */
  lemma {:induction false} ExecutionInvariant(cfg: Config, base: Addr, states: seq<State>, n: nat)
    requires Execution(cfg, base, states) && n < |states|
    ensures Invariant(cfg, base, states[0].abs, states[n])
  {
    hide Invariant, Execution, Start, Next, Step;
    ExecutionParts(cfg, base, states, n);
    if n == 0 {
      StartInvariant(cfg, base, states[0]);
    } else {
      ExecutionInvariant(cfg, base, states, n - 1);
      NextInvariant(cfg, base, states[0].abs, states[n - 1], states[n]);
    }
  }

  lemma ExecutionParts(cfg: Config, base: Addr, states: seq<State>, n: nat)
    requires Execution(cfg, base, states) && n < |states|
    ensures cfg.nbuckets > 0 && Start(cfg, base, states[0])
    ensures n > 0 ==> Next(cfg, base, states[n - 1], states[n])
  {
    hide Start, Next;
    assert n > 0 ==> Follows(cfg, base, states, n);
  }

  lemma NextInvariant(cfg: Config, base: Addr, s0: C.Cache, s: State, s': State)
    requires cfg.nbuckets > 0 && Invariant(cfg, base, s0, s) && Next(cfg, base, s, s')
    ensures Invariant(cfg, base, s0, s')
  {
    hide Invariant, Step;
    var t, l :| Step(cfg, base, s, t, l, s');
    StepInvariant(cfg, base, s0, s, t, l, s');
  }

  lemma StartInvariant(cfg: Config, base: Addr, s: State)
    requires Start(cfg, base, s) && cfg.nbuckets > 0
    ensures Invariant(cfg, base, s.abs, s)
  {
    hide Dims, SizePart, ListPart, FixedPart, C.Inv, Writes;
  }

  /** Writers run alone, and there is never more than one. */
  lemma WritersAlone(cfg: Config, base: Addr, states: seq<State>, n: nat, t: Tid, u: Tid)
    requires Execution(cfg, base, states) && n < |states| && t < |states[n].threads| && u < |states[n].threads|
    requires t != u
    ensures states[n].threads[t].Writing? || states[n].threads[t].Wrote? ==>
              !states[n].threads[u].Reading? && !states[n].threads[u].Writing? && !states[n].threads[u].Wrote?
  {
    ExecutionInvariant(cfg, base, states, n);
    hide MemOk, ThreadsOk, Serial, EventsOk, Execution;
    var s := states[n];
    assert u !in s.readers ==> !s.threads[u].Reading?;
  }

  /** Whenever nobody is relinking or writing, every list is in order and the area holds the cache that the
      serial execution has reached. */
  lemma QuietIsRep(cfg: Config, base: Addr, states: seq<State>, n: nat)
    requires Execution(cfg, base, states) && n < |states|
    ensures var s := states[n]; s.mutex.None? && !AtWork(s) ==> Rep(cfg, base, s.mem, s.g, s.abs)
  {
    ExecutionInvariant(cfg, base, states, n);
    hide Rep, LocksOk, ThreadsOk, Serial, EventsOk, Execution, C.Inv;
  }

  /** When a writer takes the lock, it finds all lists in order. */
  lemma WriterStarts(cfg: Config, base: Addr, states: seq<State>, n: nat, t: Tid)
    requires Execution(cfg, base, states) && n + 1 < |states| && Step(cfg, base, states[n], t, WrLock, states[n + 1])
    ensures var s := states[n + 1];
            && t < |s.threads| && s.threads[t].Writing? && C.Inv(cfg, s.abs) && Rep(cfg, base, s.mem, s.g, s.abs)
  {
    ExecutionInvariant(cfg, base, states, n);
    WrLockEffect(cfg, base, states[n], t, states[n + 1]);
    QuietMem(cfg, base, states[n]);
    hide Rep, LocksOk, MemOk, ThreadsOk, Serial, EventsOk, Execution, Step, C.Inv;
  }

  lemma WrLockEffect(cfg: Config, base: Addr, s: State, t: Tid, s': State)
    requires cfg.nbuckets > 0 && Step(cfg, base, s, t, WrLock, s')
    ensures s.writer.None? && s.readers == {} && s'.mem == s.mem && s'.g == s.g && s'.abs == s.abs
    ensures t < |s'.threads| && s'.threads[t].Writing?
  {
    hide ReadStep, Rep;
  }

  lemma QuietMem(cfg: Config, base: Addr, s: State)
    requires LocksOk(s) && MemOk(cfg, base, s) && s.writer.None? && s.readers == {}
    ensures C.Inv(cfg, s.abs) && Rep(cfg, base, s.mem, s.g, s.abs)
  {
    hide Rep, C.Inv, Writes;
  }

  /** A step more. */
  lemma ExecutionOn(cfg: Config, base: Addr, states: seq<State>, t: Tid, l: Label, s': State)
    requires Execution(cfg, base, states) && Step(cfg, base, states[|states| - 1], t, l, s')
    ensures Execution(cfg, base, states + [s'])
  {
    var all := states + [s'];
    hide Step, Start;
    forall i | 0 < i < |all| ensures Follows(cfg, base, all, i) {
      if i < |states| {
        assert Follows(cfg, base, states, i);
        assert all[i - 1] == states[i - 1] && all[i] == states[i];
      } else {
        assert Next(cfg, base, states[|states| - 1], s');
      }
    }
  }

  /** While anybody is reading, no step changes a chain, a header, a byte of a key or value, or the items; the
      recency sequences are at most permuted. */
  lemma NothingMovesUnderReaders(cfg: Config, base: Addr, s0: C.Cache, s: State, t: Tid, l: Label, s': State)
    requires Invariant(cfg, base, s0, s) && s.readers != {} && Step(cfg, base, s, t, l, s')
    ensures s'.mem.fixed == s.mem.fixed && s'.abs.items == s.abs.items && s'.g.chains == s.g.chains
    ensures |s'.abs.lru| == |s.abs.lru| && s'.abs.free == s.abs.free && s'.abs.pages == s.abs.pages
    ensures forall id :: 0 <= id < |s.abs.lru| ==> multiset(s'.abs.lru[id]) == multiset(s.abs.lru[id])
  {
    hide Rep, ReadStep, Step, C.Wf, C.Inv, C.Defined, C.Apply, MemOk, ThreadsOk, LocksOk, Serial, EventsOk;
    StepSort(cfg, base, s, t, l, s');
    NoWriter(s, t);
    if l.WalkMiss? {
      WalkMissQuiet(cfg, s, t, s');
    } else if l.Unlock? {
      UnlockPermutes(cfg, s, t, s');
    } else if !Outside(l) {
      QuietEffect(cfg, s, t, s.threads[t].op, s.threads[t].pc, l, s');
    }
  }

  lemma NoWriter(s: State, t: Tid)
    requires LocksOk(s) && s.readers != {} && t < |s.threads|
    ensures !s.threads[t].Writing?
  {
    assert s.writer != Some(t);
  }

  lemma WalkMissQuiet(cfg: Config, s: State, t: Tid, s': State)
    requires cfg.nbuckets > 0 && t < |s.threads| && s.threads[t].Reading?
    requires ReadStep(cfg, s, t, s.threads[t].op, s.threads[t].pc, WalkMiss, s')
    ensures s'.abs == s.abs && s'.mem == s.mem && s'.g == s.g
  {
    hide SameKey, Write, C.Wf, C.Defined, C.Apply;
  }

  lemma UnlockPermutes(cfg: Config, s: State, t: Tid, s': State)
    requires cfg.nbuckets > 0 && ThreadsOk(cfg, s) && t < |s.threads| && s.threads[t].Reading?
    requires ReadStep(cfg, s, t, s.threads[t].op, s.threads[t].pc, Unlock, s')
    ensures s'.mem.fixed == s.mem.fixed && s'.abs.items == s.abs.items && s'.g.chains == s.g.chains
    ensures |s'.abs.lru| == |s.abs.lru| && s'.abs.free == s.abs.free && s'.abs.pages == s.abs.pages
    ensures forall id :: 0 <= id < |s.abs.lru| ==> multiset(s'.abs.lru[id]) == multiset(s.abs.lru[id])
  {
    hide ReadStep, ThreadsOk, C.Wf, C.Defined, C.Apply, C.Touch;
    var op := s.threads[t].op;
    UnlockEffect(cfg, s, t, op, s.threads[t].pc, s');
    ReaderAtKey(cfg, s, t);
    TouchIsApply(cfg, s.abs, op);
    TouchItems(cfg, s.abs, op.k);
    TouchPermutes(cfg, s.abs, op.k);
  }

  lemma TouchPermutes(cfg: Config, s: C.Cache, k: Bytes)
    requires C.Wf(cfg, s) && k in s.items
    ensures var t := C.Touch(cfg, s, k);
            && |t.lru| == |s.lru| && t.free == s.free && t.pages == s.pages
            && forall id :: 0 <= id < |s.lru| ==> multiset(t.lru[id]) == multiset(s.lru[id])
  {
    var id := C.ClassIn(cfg, s, k);
    assert k in s.lru[id];
    hide C.Class;
    WithoutMultiset(s.lru[id], k);
  }

  lemma {:induction false} WithoutMultiset(s: seq<Bytes>, x: Bytes)
    requires x in s
    ensures multiset([x] + Without(s, x)) == multiset(s)
  {
    assert s == [s[0]] + s[1..];
    if s[0] != x {
      WithoutMultiset(s[1..], x);
    }
  }

  // ----- the serial execution

  /** Linearizability: every call that has returned got what it would have got in one serial run of all calls
      from the first cache on, and its place in that run lies between its being made and its return. */
  lemma Linearizable(cfg: Config, base: Addr, states: seq<State>, n: nat, i: nat)
    requires Execution(cfg, base, states) && n < |states| && i < |states[n].events|
    ensures var s0, s, e := states[0].abs, states[n], states[n].events[i];
            && C.Inv(cfg, s0) && RunDefined(cfg, s0, CallsOf(s.log))
            && e.start <= e.slot < e.end <= |s.log| && CallsOf(s.log)[e.slot] == e.entry.call
            && Results(cfg, s0, CallsOf(s.log))[e.slot] == e.entry.result
            && Run(cfg, s0, CallsOf(s.log)) == s.abs
  {
    ExecutionInvariant(cfg, base, states, n);
    hide LocksOk, MemOk, ThreadsOk, Execution, C.Inv, RunDefined, Run, Results;
    var s := states[n];
    assert EventOk(s.log, s.events[i]);
  }

  /** A call that returned before another was made comes before it in the serial run. */
  lemma RealTimeOrder(cfg: Config, base: Addr, states: seq<State>, n: nat, i: nat, j: nat)
    requires Execution(cfg, base, states) && n < |states| && i < |states[n].events| && j < |states[n].events|
    requires states[n].events[i].end <= states[n].events[j].start
    ensures states[n].events[i].slot < states[n].events[j].slot
  {
    ExecutionInvariant(cfg, base, states, n);
    hide LocksOk, MemOk, ThreadsOk, Serial, Execution;
    assert EventOk(states[n].log, states[n].events[i]) && EventOk(states[n].log, states[n].events[j]);
  }

  // ----- progress

  /** The step a reader takes next. */
  ghost function NextLabel(f: Fixed, op: C.Op, pc: Pc): Label {
    match pc
    case Hashing => Hash
    case Walking(item, _) => if item == 0 then WalkMiss else if SameKey(f, item, op.k) then WalkHit else WalkOn
    case Found(_) => Lock
    case Relinking(_, j) => if j < WRITES then Rewire else Unlock
    case Answering(item, _) =>
      if item < |f.meta| && ((op.OpGet? && op.mallocOk) || (op.OpGetf? && op.room >= f.meta[item].nval)) then StartCopy
      else Refuse
    case Copying(item, got, _) => if item < |f.meta| && |got| < f.meta[item].nval then CopyByte else EndCopy
    case Finished(_, _) => Return
  }

  /** The guards of a reader's steps never keep it waiting, except for the mutex. */
  lemma ReaderGoesOn(cfg: Config, base: Addr, s0: C.Cache, s: State, t: Tid) returns (s': State)
    requires Invariant(cfg, base, s0, s) && t < |s.threads| && s.threads[t].Reading?
    requires s.threads[t].pc.Found? ==> s.mutex.None?
    ensures Step(cfg, base, s, t, NextLabel(s.mem.fixed, s.threads[t].op, s.threads[t].pc), s')
  {
    hide LocksOk, MemOk, ThreadsOk, Serial, EventsOk, SameKey, Bucket, Image.Get, Write, C.Wf, C.Apply, Rep, FixedPart;
    var op, pc, f := s.threads[t].op, s.threads[t].pc, s.mem.fixed;
    match pc
    case Hashing => s' := At1(s, t, Walking(Image.Get(f.buckets, Bucket(op.k, cfg.nbuckets)), 0));
    case Walking(item, i) =>
      if item == 0 {
        s' := At1(s, t, Finished(|s.log|, C.Done(C.NotFound))).(log := s.log + [Answered(t, op, C.Done(C.NotFound))]);
      } else if SameKey(f, item, op.k) {
        s' := At1(s, t, Found(item));
      } else {
        s' := At1(s, t, Walking(Image.Get(f.hnext, item), i + 1));
      }
    case Found(item) => s' := At1(s, t, Relinking(item, 0)).(mutex := Some(t), before := s.mem);
    case Relinking(item, j) => s' := RelinkGoesOn(cfg, base, s, t);
    case Answering(item, slot) => s' := AnswerGoesOn(cfg, base, s, t);
    case Copying(item, got, slot) => s' := CopyGoesOn(cfg, base, s, t);
    case Finished(slot, reply) =>
      s' := Now(s, t, Idle).(readers := s.readers - {t},
                             events := s.events + [Event(Answered(t, op, reply), s.threads[t].start, slot, |s.log|)]);
  }

  lemma AnswerGoesOn(cfg: Config, base: Addr, s: State, t: Tid) returns (s': State)
    requires cfg.nbuckets > 0 && LocksOk(s) && MemOk(cfg, base, s) && ThreadsOk(cfg, s)
    requires t < |s.threads| && s.threads[t].Reading? && s.threads[t].pc.Answering?
    ensures var op, pc := s.threads[t].op, s.threads[t].pc;
            var l := NextLabel(s.mem.fixed, op, pc); (l.StartCopy? || l.Refuse?) && ReadStep(cfg, s, t, op, pc, l, s')
  {
    hide LocksOk, MemOk, ThreadsOk, SameKey, Write, C.Wf, C.Apply, Rep, FixedPart;
    ReaderAtKey(cfg, s, t);
    ReaderItem(cfg, base, s, t);
    var op, slot, item := s.threads[t].op, s.threads[t].pc.slot, s.threads[t].pc.item;
    if op.OpGet? {
      s' := At1(s, t, if op.mallocOk then Copying(item, [], slot) else Finished(slot, C.Done(C.System)));
    } else {
      s' := At1(s, t, if op.room >= s.mem.fixed.meta[item].nval then Copying(item, [], slot)
                      else Finished(slot, C.Done(C.ESpace)));
    }
  }

  lemma CopyGoesOn(cfg: Config, base: Addr, s: State, t: Tid) returns (s': State)
    requires cfg.nbuckets > 0 && LocksOk(s) && MemOk(cfg, base, s) && ThreadsOk(cfg, s)
    requires t < |s.threads| && s.threads[t].Reading? && s.threads[t].pc.Copying?
    ensures var op, pc := s.threads[t].op, s.threads[t].pc;
            var l := NextLabel(s.mem.fixed, op, pc); (l.CopyByte? || l.EndCopy?) && ReadStep(cfg, s, t, op, pc, l, s')
  {
    hide LocksOk, MemOk, ThreadsOk, SameKey, Write, C.Wf, C.Apply, Rep, FixedPart;
    OwnCopy(cfg, base, s, t);
    var pc, f := s.threads[t].pc, s.mem.fixed;
    if |pc.got| < f.meta[pc.item].nval {
      s' := At1(s, t, Copying(pc.item, pc.got + [f.raw[pc.item + HEADER + f.meta[pc.item].nkey + |pc.got|]], pc.slot));
    } else {
      s' := At1(s, t, Finished(pc.slot, C.Value(pc.got, f.meta[pc.item].flags)));
    }
  }

  lemma RelinkGoesOn(cfg: Config, base: Addr, s: State, t: Tid) returns (s': State)
    requires cfg.nbuckets > 0 && LocksOk(s) && MemOk(cfg, base, s) && ThreadsOk(cfg, s)
    requires t < |s.threads| && s.threads[t].Reading? && s.threads[t].pc.Relinking?
    ensures var op, pc := s.threads[t].op, s.threads[t].pc;
            var l := NextLabel(s.mem.fixed, op, pc); (l.Rewire? || l.Unlock?) && ReadStep(cfg, s, t, op, pc, l, s')
  {
    hide LocksOk, MemOk, ThreadsOk, SameKey, Write, C.Apply, C.Wf, Rep, FixedPart, C.Inv, Writes, C.Touch, C.Shape,
         C.Recency;
    ReaderAtKey(cfg, s, t);
    ReaderItem(cfg, base, s, t);
    var op, pc, f := s.threads[t].op, s.threads[t].pc, s.mem.fixed;
    if pc.j < WRITES {
      s' := At1(s, t, Relinking(pc.item, pc.j + 1)).(mem := Write(s.mem, pc.item, f.meta[pc.item].clsid, pc.j));
    } else {
      RelinkDone(cfg, s, t);
      MemHeld(cfg, base, s, t);
      WritesRelink(cfg, base, s.before, s.g, s.abs, op.k);
      ReadDefined(cfg, s.abs, op);
      var (abs, reply) := C.Apply(cfg, s.abs, op);
      s' := At1(s, t, Answering(pc.item, |s.log|))
              .(mutex := None, g := Relinked(s.g, pc.item, f.meta[pc.item].clsid), abs := abs,
                log := s.log + [Answered(t, op, reply)]);
    }
  }

  lemma RelinkDone(cfg: Config, s: State, t: Tid)
    requires cfg.nbuckets > 0 && ThreadsOk(cfg, s) && t < |s.threads| && s.threads[t].Reading?
    requires s.threads[t].pc.Relinking?
    ensures s.threads[t].pc.j <= WRITES
  {
    OwnOk(cfg, s, t);
  }

  lemma ReadDefined(cfg: Config, s: C.Cache, op: C.Op)
    requires C.Wf(cfg, s) && IsRead(op)
    ensures cfg.Valid() && C.Defined(cfg, s, op)
  {
  }

  /** No deadlock among readers: as long as one of them is under way, one of them can take its next step. */
  lemma NoDeadlock(cfg: Config, base: Addr, states: seq<State>, n: nat)
    requires Execution(cfg, base, states) && n < |states| && states[n].readers != {}
    ensures exists t, s' :: CanGoOn(cfg, base, states[n], t, s')
  {
    ExecutionInvariant(cfg, base, states, n);
    var s := states[n];
    var t :| t in s.readers;
    assert s.threads[t].Reading?;
    if s.mutex.Some? { assert s.threads[s.mutex.value].Reading?; }
    var u := if s.mutex.Some? then s.mutex.value else t;
    hide LocksOk, MemOk, ThreadsOk, Serial, EventsOk, Execution, Step;
    var s' := ReaderGoesOn(cfg, base, states[0].abs, s, u);
    assert CanGoOn(cfg, base, s, u, s');
  }

  /** Thread t holds the read lock and its next step leads to s'. */
  ghost predicate CanGoOn(cfg: Config, base: Addr, s: State, t: Tid, s': State) {
    && cfg.nbuckets > 0 && t in s.readers && t < |s.threads| && s.threads[t].Reading?
    && Step(cfg, base, s, t, NextLabel(s.mem.fixed, s.threads[t].op, s.threads[t].pc), s')
  }
}
