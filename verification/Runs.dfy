/** What holds over whole runs of the abstract cache: it is a map that at most loses its least recently
    used items, its recency sequences are sorted by last touch, and counters count. */
module Runs {
  import opened Basics
  import opened Lists
  import opened Slabs
  import opened Cache
  import Conservation
  import Counter

  // ----- runs

  /** The cache after one operation; the invariant is kept. */
  function After(cfg: Config, s: Cache, op: Op): (r: Cache)
    requires Inv(cfg, s) && Defined(cfg, s, op)
    ensures r == Apply(cfg, s, op).0 && Inv(cfg, r)
  {
    Conservation.ApplyKeeps(cfg, s, op);
    Apply(cfg, s, op).0
  }

  /** Each operation meets, when its turn comes, what the source asks of its caller. */
  ghost predicate RunDefined(cfg: Config, s: Cache, ops: seq<Op>)
    requires Inv(cfg, s)
    decreases |ops|
  {
    ops != [] ==> Defined(cfg, s, ops[0]) && RunDefined(cfg, After(cfg, s, ops[0]), ops[1..])
  }

  function Run(cfg: Config, s: Cache, ops: seq<Op>): Cache
    requires Inv(cfg, s) && RunDefined(cfg, s, ops)
    decreases |ops|
  {
    if ops == [] then s else Run(cfg, After(cfg, s, ops[0]), ops[1..])
  }

  /** The invariant, conservation of chunks and bytes included, holds after every run. */
  lemma {:induction false} RunKeeps(cfg: Config, s: Cache, ops: seq<Op>)
    requires Inv(cfg, s) && RunDefined(cfg, s, ops)
    ensures Inv(cfg, Run(cfg, s, ops))
    decreases |ops|
  {
    hide Inv, Apply, Defined;
    if ops != [] {
      RunKeeps(cfg, After(cfg, s, ops[0]), ops[1..]);
    }
  }

  // ----- other keys

  /** x is what item_alloc would evict for its class: no free chunk, no room for a page, eviction on, and
      x least recently used. */
  ghost predicate Evictable(cfg: Config, s: Cache, x: Bytes)
    requires Shape(cfg, s) && x in s.items
  {
    var id := ClassIn(cfg, s, x);
    && cfg.evictToFree && s.free[id] == 0 && s.used + cfg.PageBytes(id) >= cfg.memLimit
    && s.lru[id] != [] && s.lru[id][|s.lru[id]| - 1] == x
  }

  /** From s to s', nothing changed for keys other than k, except that the key in gone, if any, is lost. */
  ghost predicate OthersKept(s: Cache, s': Cache, k: Bytes, gone: Option<Bytes>) {
    && (forall x :: x in s'.items && x != k ==> x in s.items && s'.items[x] == s.items[x])
    && (forall x :: x in s.items && x != k && x !in s'.items ==> gone == Some(x))
  }

  ghost predicate GoneEvictable(cfg: Config, s: Cache, gone: Option<Bytes>)
    requires Shape(cfg, s)
  {
    gone.Some? ==> gone.value in s.items && Evictable(cfg, s, gone.value)
  }

  function Victim(cfg: Config, s: Cache, id: nat): Option<Bytes>
    requires Wf(cfg, s) && id < |s.lru|
  {
    match AllocSource(cfg, s, id)
    case FromVictim(v) => Some(v)
    case _ => None
  }

  function Minus(m: map<Bytes, Entry>, gone: Option<Bytes>): map<Bytes, Entry> {
    if gone.Some? then m - {gone.value} else m
  }

  lemma AllocItems(cfg: Config, s: Cache, id: nat)
    requires Wf(cfg, s) && id < |s.lru|
    ensures Alloc(cfg, s, id).items == Minus(s.items, Victim(cfg, s, id))
  {
    hide Alloc, Recency, Shape;
  }

  lemma VictimEvictable(cfg: Config, s: Cache, id: nat)
    requires Wf(cfg, s) && id < |s.lru|
    ensures GoneEvictable(cfg, s, Victim(cfg, s, id))
  {
    hide Recency, Class;
  }

  /** Deleting k first does not make another key the victim: if k was in the class, its own chunk is free now. */
  lemma VictimAfterDel(cfg: Config, s: Cache, k: Bytes, id: nat)
    requires Wf(cfg, s) && id < |s.lru|
    ensures GoneEvictable(cfg, s, Victim(cfg, Del(cfg, s, k).0, id))
  {
    var s1 := Del(cfg, s, k).0;
    if k in s.items && ClassIn(cfg, s, k) != id {
      assert s1.lru[id] == s.lru[id] && s1.free[id] == s.free[id];
    }
    VictimEvictable(cfg, s1, id);
  }

  lemma SetKeepsOthers(cfg: Config, s: Cache, k: Bytes, v: Bytes, f: Flags) returns (gone: Option<Bytes>)
    requires Wf(cfg, s) && SetDefined(cfg, k, |v|)
    ensures OthersKept(s, Set(cfg, s, k, v, f).0, k, gone)
    ensures GoneEvictable(cfg, s, gone)
  {
    Conservation.ClassRange(cfg, s);
    gone := None;
    hide Recency, Shape, Evictable, Class, Insert, Discard, Alloc, AllocSource;
    if cfg.SizeOk(ItemSize(k, |v|)) {
      VictimAfterDel(cfg, s, k, Class(cfg, k, |v|));
      gone := Victim(cfg, Del(cfg, s, k).0, Class(cfg, k, |v|));
    }
  }

  lemma ReplaceKeepsOthers(cfg: Config, s: Cache, k: Bytes, v: Bytes, f: Flags) returns (gone: Option<Bytes>)
    requires Wf(cfg, s) && ReplaceDefined(cfg, s, k, |v|)
    ensures OthersKept(s, Replace(cfg, s, k, v, f).0, k, gone)
    ensures GoneEvictable(cfg, s, gone)
  {
    Conservation.ClassRange(cfg, s);
    gone := None;
    hide Recency, Shape, Evictable, Class, Insert, Discard, Alloc, AllocSource, Refresh;
    if k in s.items && ClassIn(cfg, s, k) != Class(cfg, k, |v|) {
      var s1 := Discard(cfg, s, k);
      Conservation.ClassRange(cfg, s1);
      VictimAfterDel(cfg, s, k, Class(cfg, k, |v|));
      gone := Victim(cfg, s1, Class(cfg, k, |v|));
    }
  }

  lemma KeptFrom(s: Cache, s': Cache, k: Bytes, gone: Option<Bytes>)
    requires s'.items - {k} == s.items - {k} || s'.items - {k} == Minus(s.items, gone) - {k}
    ensures OthersKept(s, s', k, gone)
  {
    var m := if gone.Some? then s.items - {gone.value} else s.items;
    forall x | x in s'.items && x != k ensures x in s.items && s'.items[x] == s.items[x] {
      assert x in s'.items - {k} && s'.items[x] == (s'.items - {k})[x];
      assert x in m - {k} || x in s.items - {k};
    }
    forall x | x in s.items && x != k && x !in s'.items ensures gone == Some(x) {
      assert x !in s'.items - {k} && x in s.items - {k};
      assert x !in m - {k};
    }
  }

  lemma SameButKey(m: map<Bytes, Entry>, k: Bytes, e: Entry)
    ensures m[k := e] - {k} == m - {k}
    ensures (m - {k})[k := e] - {k} == m - {k}
    ensures m - {k} - {k} == m - {k}
  {
  }

  lemma GrowItems(cfg: Config, s: Cache, k: Bytes, v: Bytes, f: Flags, end: End, stale: Flags, id: nat, e: Entry)
    requires Wf(cfg, s) && GrowDefined(cfg, s, k, |v|) && k in s.items
    requires e == Entry(Joined(s.items[k].val, v, end), stale) && id == Class(cfg, k, |e.val|)
    ensures id < |s.lru|
    ensures var t := GrowValue(cfg, s, k, v, f, end, stale).0;
            || t.items == s.items
            || t.items == s.items[k := e.(flags := f)]
            || t.items == (Alloc(cfg, s, id).items - {k})[k := e]
  {
    Conservation.ClassRange(cfg, s);
    hide Recency, Shape, Class, HasClass, GrowMove, AllocSource, Alloc, Refresh, Config.Valid, Joined;
    assert |e.val| == |v| + |s.items[k].val|;
  }

  lemma ArithItems(cfg: Config, s: Cache, k: Bytes, delta: nat, incr: bool, f: Option<Flags>)
    requires Wf(cfg, s) && ArithDefined(cfg, s, k) && delta < U64
    ensures var t := Arith(cfg, s, k, delta, incr, f).0;
            || t.items - {k} == s.items - {k}
            || (HasClass(cfg, k, CELL) && Class(cfg, k, CELL) < |s.lru|
                && t.items - {k} == Alloc(cfg, s, Class(cfg, k, CELL)).items - {k})
  {
    Conservation.ClassRange(cfg, s);
    hide Recency, Shape, Class, Insert, Discard, Alloc, AllocSource, Rewrite, Counter.Cell, Counter.Read, Or, Echo,
         Counter.Step;
    if k in s.items {
      Counter.ReadBounded(s.items[k].val);
      var n := Counter.Step(Counter.Read(s.items[k].val), delta, incr);
      if |s.items[k].val| == CELL {
        SameButKey(s.items, k, Entry(Counter.Cell(n, s.items[k].val), s.items[k].flags));
      } else {
        MoveItems(cfg, s, k, n, f);
      }
    } else if cfg.defaultCounter {
      var m := Alloc(cfg, s, Class(cfg, k, CELL)).items;
      SameButKey(m, k, Entry(Counter.Cell(Counter.Step(0, delta, incr), Counter.Blank()), Or(f, 0)));
    }
  }

  lemma MoveItems(cfg: Config, s: Cache, k: Bytes, n: nat, f: Option<Flags>)
    requires Wf(cfg, s) && k in s.items && HasClass(cfg, k, CELL) && n < U64
    ensures Class(cfg, k, CELL) < |s.lru|
    ensures var t := ArithMove(cfg, s, k, n, f).0;
            || t.items - {k} == s.items - {k}
            || t.items - {k} == Alloc(cfg, s, Class(cfg, k, CELL)).items - {k}
  {
    Conservation.ClassRange(cfg, s);
    hide Recency, Shape, Class, Insert, Discard, Alloc, AllocSource, Counter.Cell, Or, Echo;
    var e := Entry(Counter.Cell(n, Counter.Blank()), Or(f, s.items[k].flags));
    SameButKey(s.items, k, e);
    SameButKey(Alloc(cfg, s, Class(cfg, k, CELL)).items, k, e);
  }

  lemma GrowKeepsOthers(cfg: Config, s: Cache, k: Bytes, v: Bytes, f: Flags, end: End, stale: Flags)
    returns (gone: Option<Bytes>)
    requires Wf(cfg, s) && GrowDefined(cfg, s, k, |v|)
    ensures OthersKept(s, GrowValue(cfg, s, k, v, f, end, stale).0, k, gone)
    ensures GoneEvictable(cfg, s, gone)
  {
    Conservation.ClassRange(cfg, s);
    gone := None;
    if k in s.items {
      var id := Class(cfg, k, |Joined(s.items[k].val, v, end)|);
      VictimEvictable(cfg, s, id);
      gone := Victim(cfg, s, id);
      AllocItems(cfg, s, id);
      hide *;
      var e := Entry(Joined(s.items[k].val, v, end), stale);
      GrowItems(cfg, s, k, v, f, end, stale, id, e);
      SameButKey(s.items, k, e.(flags := f));
      SameButKey(Alloc(cfg, s, id).items, k, e);
      KeptFrom(s, GrowValue(cfg, s, k, v, f, end, stale).0, k, gone);
    }
  }

  lemma ArithKeepsOthers(cfg: Config, s: Cache, k: Bytes, delta: nat, incr: bool, f: Option<Flags>)
    returns (gone: Option<Bytes>)
    requires Wf(cfg, s) && ArithDefined(cfg, s, k) && delta < U64
    ensures OthersKept(s, Arith(cfg, s, k, delta, incr, f).0, k, gone)
    ensures GoneEvictable(cfg, s, gone)
  {
    Conservation.ClassRange(cfg, s);
    gone := None;
    if !(k in s.items && |s.items[k].val| == CELL) && (k in s.items || cfg.defaultCounter) {
      var id := Class(cfg, k, CELL);
      VictimEvictable(cfg, s, id);
      gone := Victim(cfg, s, id);
      AllocItems(cfg, s, id);
    }
    hide Recency, Shape, Evictable, Class, Insert, Discard, Alloc, AllocSource, Rewrite, Counter.Cell, Counter.Read,
         Victim, Minus;
    ArithItems(cfg, s, k, delta, incr, f);
    KeptFrom(s, Arith(cfg, s, k, delta, incr, f).0, k, gone);
  }

  /** One operation changes its own key only, except that at most one other item, the least recently used
      of a class that is full, may be evicted. */
  lemma StepKeepsOthers(cfg: Config, s: Cache, op: Op)
    requires Wf(cfg, s) && Defined(cfg, s, op)
    ensures exists gone :: OthersKept(s, Apply(cfg, s, op).0, op.k, gone) && GoneEvictable(cfg, s, gone)
  {
    hide Recency, Shape, Evictable, Touch, Discard, Set, Replace, GrowValue, Arith;
    var gone: Option<Bytes> := None;
    match op {
      case OpSet(k, v, f) => gone := SetKeepsOthers(cfg, s, k, v, f);
      case OpAdd(k, v, f) => if k !in s.items { gone := SetKeepsOthers(cfg, s, k, v, f); }
      case OpReplace(k, v, f) => gone := ReplaceKeepsOthers(cfg, s, k, v, f);
      case OpGrow(k, v, f, end, stale) => gone := GrowKeepsOthers(cfg, s, k, v, f, end, stale);
      case OpArith(k, delta, incr, f) => gone := ArithKeepsOthers(cfg, s, k, delta, incr, f);
      case _ =>
    }
    assert OthersKept(s, Apply(cfg, s, op).0, op.k, gone);
  }

  // ----- the key itself: the cache against a plain dictionary

  function Lookup(m: map<Bytes, Entry>, k: Bytes): Option<Entry> {
    if k in m then Some(m[k]) else None
  }

  /** A value of that length would stay in the chunk of the present one. */
  predicate StaysPut(cfg: Config, s: Cache, k: Bytes, nval: nat)
    requires Shape(cfg, s)
  {
    k in s.items && HasClass(cfg, k, nval) && Class(cfg, k, nval) == ClassIn(cfg, s, k)
  }

  /** A set that is refused for its size leaves the old value; one that finds no memory leaves none. */
  function Stored(was: Option<Entry>, v: Bytes, f: Flags, reply: Reply): Option<Entry> {
    if reply == Done(OK) then Some(Entry(v, f)) else if reply == Done(ESize) then was else None
  }

  /** What a plain dictionary would hold under the operation's own key, given how the operation ended.
      A replace that fails has lost the old value already; a failed append or prepend has not.  An append
      or prepend that moves the item does not store its flags. */
  function Wanted(cfg: Config, s: Cache, op: Op, reply: Reply): Option<Entry>
    requires Shape(cfg, s)
  {
    var was := Lookup(s.items, op.k);
    match op
    case OpGet(_, _) => was
    case OpGetf(_, _) => was
    case OpDel(_) => None
    case OpSet(_, v, f) => Stored(was, v, f, reply)
    case OpAdd(_, v, f) => if was.Some? then was else Stored(was, v, f, reply)
    case OpReplace(_, v, f) => if was.Some? then Stored(None, v, f, reply) else None
    case OpGrow(k, v, f, end, stale) =>
      if reply == Done(OK) && was.Some?
      then var val := Joined(was.value.val, v, end);
           Some(Entry(val, if StaysPut(cfg, s, k, |val|) then f else stale))
      else was
    case OpArith(k, delta, incr, f) =>
      if !reply.Number? || reply.n >= U64 then was
      else if was.Some? && |was.value.val| == CELL then
        Some(Entry(Counter.Cell(reply.n, was.value.val), was.value.flags))
      else Some(Entry(Counter.Cell(reply.n, Counter.Blank()), Or(f, if was.Some? then was.value.flags else 0)))
  }

  /** The allocation for a counter evicts the item being updated: its value is not a cell yet, the cell
      belongs to the same class, and the item is what that class would evict. */
  ghost predicate SelfEvicts(cfg: Config, s: Cache, op: Op)
    requires Wf(cfg, s) && Defined(cfg, s, op)
  {
    && op.OpArith? && op.k in s.items && |s.items[op.k].val| != CELL
    && Class(cfg, op.k, CELL) == ClassIn(cfg, s, op.k) && Evictable(cfg, s, op.k)
  }

  lemma SelfEvictsIff(cfg: Config, s: Cache, k: Bytes)
    requires Wf(cfg, s) && k in s.items && HasClass(cfg, k, CELL)
    ensures Class(cfg, k, CELL) < |s.lru|
    ensures AllocSource(cfg, s, Class(cfg, k, CELL)) == FromVictim(k)
       <==> Class(cfg, k, CELL) == ClassIn(cfg, s, k) && Evictable(cfg, s, k)
  {
    hide Recency, Class;
  }

  /** Under its own key every operation does what it would do to a dictionary, with one exception: a
      counter update that evicts its own item. */
  lemma OwnKey(cfg: Config, s: Cache, op: Op)
    requires Wf(cfg, s) && Defined(cfg, s, op)
    ensures var (s', reply) := Apply(cfg, s, op);
            Lookup(s'.items, op.k) == if SelfEvicts(cfg, s, op) then None else Wanted(cfg, s, op, reply)
  {
    Conservation.ClassRange(cfg, s);
    match op {
      case OpGrow(k, v, f, end, stale) => OwnGrow(cfg, s, op);
      case OpArith(k, delta, incr, f) => OwnArith(cfg, s, op);
      case OpReplace(k, v, f) =>
        hide Recency, Shape, Evictable, Class, Touch, Discard, AllocSource, Alloc, Insert, Refresh, Config.Valid;
      case _ =>
        hide Recency, Shape, Evictable, Class, Touch, Discard, AllocSource, Alloc, Insert, Config.Valid;
    }
  }

  lemma OwnGrow(cfg: Config, s: Cache, op: Op)
    requires Wf(cfg, s) && op.OpGrow? && Defined(cfg, s, op)
    ensures var (s', reply) := Apply(cfg, s, op); Lookup(s'.items, op.k) == Wanted(cfg, s, op, reply)
  {
    Conservation.ClassRange(cfg, s);
    hide Recency, Shape, Evictable, Class, Refresh, GrowMove, Alloc, AllocSource, Config.Valid, Joined;
  }

  lemma OwnArith(cfg: Config, s: Cache, op: Op)
    requires Wf(cfg, s) && op.OpArith? && Defined(cfg, s, op)
    ensures var (s', reply) := Apply(cfg, s, op);
            Lookup(s'.items, op.k) == if SelfEvicts(cfg, s, op) then None else Wanted(cfg, s, op, reply)
  {
    Conservation.ClassRange(cfg, s);
    var k := op.k;
    if k in s.items && |s.items[k].val| != CELL {
      SelfEvictsIff(cfg, s, k);
    }
    hide Recency, Shape, Evictable, Class, Rewrite, Insert, Discard, Alloc, AllocSource, Config.Valid, Counter.Read,
         Counter.Cell, Counter.Step, Or, Echo;
  }

  /** Return codes agree with the dictionary. */
  lemma RepliesMatch(cfg: Config, s: Cache, op: Op)
    requires Wf(cfg, s) && Defined(cfg, s, op)
    ensures var reply := Apply(cfg, s, op).1;
            && (reply == Done(NotFound) <==>
                  op.k !in s.items && !op.OpSet? && !op.OpAdd? && (op.OpArith? ==> !cfg.defaultCounter))
            && (reply == Done(Exist) <==> op.OpAdd? && op.k in s.items)
            && (reply.Value? ==> op.k in s.items && reply == Value(s.items[op.k].val, s.items[op.k].flags))
            && (op.OpGet? && op.k in s.items ==> (reply.Value? <==> op.mallocOk))
            && (op.OpGetf? && op.k in s.items ==> (reply.Value? <==> |s.items[op.k].val| <= op.room))
            && (op.OpSet? ==> (reply == Done(ESize) <==> !cfg.SizeOk(ItemSize(op.k, |op.v|))))
            && (op.OpArith? && reply.Number? ==>
                  reply.n
                  == Counter.Step(if op.k in s.items then Readable(s.items[op.k].val) else 0, op.delta, op.incr))
  {
    Conservation.ClassRange(cfg, s);
    hide Recency, Shape, Set, Replace, GrowValue, Arith, Touch, Discard, Config.Valid, Readable, Counter.Step;
    match op
    case OpSet(k, v, f) => SetReplies(cfg, s, k, v, f);
    case OpAdd(k, v, f) => if k !in s.items { SetReplies(cfg, s, k, v, f); }
    case OpReplace(k, v, f) => ReplaceReplies(cfg, s, k, v, f);
    case OpGrow(k, v, f, end, stale) => GrowReplies(cfg, s, k, v, f, end, stale);
    case OpArith(k, delta, incr, f) => ArithReplies(cfg, s, k, delta, incr, f);
    case _ =>
  }

  lemma SetReplies(cfg: Config, s: Cache, k: Bytes, v: Bytes, f: Flags)
    requires Wf(cfg, s) && SetDefined(cfg, k, |v|)
    ensures var reply := Set(cfg, s, k, v, f).1;
            && reply in {Done(OK), Done(ESize), Done(NoMemory)}
            && (reply == Done(ESize) <==> !cfg.SizeOk(ItemSize(k, |v|)))
  {
    hide Recency, Shape, Class, Insert, Discard, Alloc, AllocSource;
  }

  lemma ReplaceReplies(cfg: Config, s: Cache, k: Bytes, v: Bytes, f: Flags)
    requires Wf(cfg, s) && ReplaceDefined(cfg, s, k, |v|)
    ensures var reply := Replace(cfg, s, k, v, f).1;
            && reply in {Done(OK), Done(NotFound), Done(ESize), Done(NoMemory)}
            && (reply == Done(NotFound) <==> k !in s.items)
  {
    hide Recency, Shape, Class, Refresh, Discard, Set, Config.Valid;
    if k in s.items {
      SetReplies(cfg, Discard(cfg, s, k), k, v, f);
    }
  }

  lemma GrowReplies(cfg: Config, s: Cache, k: Bytes, v: Bytes, f: Flags, end: End, stale: Flags)
    requires Wf(cfg, s) && GrowDefined(cfg, s, k, |v|)
    ensures var reply := GrowValue(cfg, s, k, v, f, end, stale).1;
            && reply in {Done(OK), Done(NotFound), Done(ESize), Done(NoMemory)}
            && (reply == Done(NotFound) <==> k !in s.items)
  {
    Conservation.ClassRange(cfg, s);
    hide Recency, Shape, Class, Refresh, GrowMove, AllocSource, Joined, Config.Valid;
  }

  lemma ArithReplies(cfg: Config, s: Cache, k: Bytes, delta: nat, incr: bool, f: Option<Flags>)
    requires Wf(cfg, s) && ArithDefined(cfg, s, k) && delta < U64
    ensures var reply := Arith(cfg, s, k, delta, incr, f).1;
            && (reply.Number? || reply in {Done(NotFound), Done(NoMemory)})
            && (reply == Done(NotFound) <==> k !in s.items && !cfg.defaultCounter)
            && (reply.Number? ==>
                  reply.n == Counter.Step(if k in s.items then Readable(s.items[k].val) else 0, delta, incr))
  {
    Conservation.ClassRange(cfg, s);
    if k in s.items { Counter.ReadBounded(s.items[k].val); }
    hide Recency, Shape, Class, Rewrite, Insert, Discard, Alloc, AllocSource, Config.Valid,
         Counter.Read, Counter.Cell, Counter.Step;
  }

  function Readable(val: Bytes): (n: nat)
    ensures n < U64
  {
    Counter.ReadBounded(val);
    Counter.Read(val)
  }

  // ----- when there is no memory

  /** With eviction on, item_alloc always finds a chunk: every class owns at least one.  With eviction off it
      fails exactly when the class has no free chunk and one more page does not fit. */
  lemma NothingIff(cfg: Config, s: Cache, id: nat)
    requires Inv(cfg, s) && id < |s.lru|
    ensures AllocSource(cfg, s, id).FromNothing?
       <==> !cfg.evictToFree && s.free[id] == 0 && s.used + cfg.PageBytes(id) >= cfg.memLimit
  {
    hide Recency, PoolBytes, Config.PageBytes;
    if s.free[id] == 0 {
      LessTimes(1, cfg.counts[id], s.pages[id]);
      assert |s.lru[id]| == s.pages[id] * cfg.counts[id];
    }
  }

  /** Nothing can be evicted, the class has no free chunk, and no page more fits. */
  predicate Full(cfg: Config, s: Cache, id: nat)
    requires cfg.Valid() && id < |cfg.sizes| && |s.free| == |cfg.sizes|
  {
    !cfg.evictToFree && s.free[id] == 0 && s.used + cfg.PageBytes(id) >= cfg.memLimit
  }

  /** A value of n bytes under k needs a chunk of a full class. */
  predicate Starved(cfg: Config, s: Cache, k: Bytes, n: nat)
    requires Shape(cfg, s)
  {
    HasClass(cfg, k, n) && cfg.SizeOk(ItemSize(k, n)) && Full(cfg, s, Class(cfg, k, n))
  }

  /** A set finds no memory exactly when the size is accepted, its class is full and the key's old chunk does not
      belong to it; then the key is absent. */
  lemma SetFailsIff(cfg: Config, s: Cache, k: Bytes, v: Bytes, f: Flags)
    requires Inv(cfg, s) && SetDefined(cfg, k, |v|)
    ensures var (s', reply) := Set(cfg, s, k, v, f);
            && (reply == Done(NoMemory) <==> Starved(cfg, s, k, |v|) && !StaysPut(cfg, s, k, |v|))
            && (reply == Done(NoMemory) ==> s'.items == s.items - {k})
  {
    Conservation.ClassRange(cfg, s);
    hide Recency, Shape, Conserved, Class, Discard, Alloc, AllocSource, Insert;
    if cfg.SizeOk(ItemSize(k, |v|)) {
      var id, s1 := Class(cfg, k, |v|), Del(cfg, s, k).0;
      if k in s.items { DiscardKeeps(cfg, s, k); }
      Conservation.ClassRange(cfg, s1);
      NothingIff(cfg, s1, id);
      FreeAfterDel(cfg, s, k, id);
    }
  }

  lemma FreeAfterDel(cfg: Config, s: Cache, k: Bytes, id: nat)
    requires Wf(cfg, s) && id < |s.free|
    ensures var s1 := Del(cfg, s, k).0;
            && |s1.free| == |s.free| && s1.used == s.used
            && s1.free[id] == s.free[id] + (if k in s.items && ClassIn(cfg, s, k) == id then 1 else 0)
  {
    hide Recency, Class;
  }

  lemma DiscardKeeps(cfg: Config, s: Cache, k: Bytes)
    requires Inv(cfg, s) && k in s.items
    ensures Wf(cfg, s) && Inv(cfg, Discard(cfg, s, k))
  {
    Conservation.DiscardConserves(cfg, s, k);
    hide Discard, Conserved;
  }

  /** An append or prepend finds no memory exactly when the value changes its class to a full one. */
  lemma GrowFailsIff(cfg: Config, s: Cache, op: Op)
    requires Inv(cfg, s) && Defined(cfg, s, op) && op.OpGrow?
    ensures var (s', reply) := Apply(cfg, s, op);
            && (reply == Done(NoMemory) <==>
                  op.k in s.items && var n := |op.v| + |s.items[op.k].val|;
                  Starved(cfg, s, op.k, n) && !StaysPut(cfg, s, op.k, n))
            && (reply == Done(NoMemory) ==> s' == s)
  {
    Conservation.ClassRange(cfg, s);
    hide Recency, Shape, Conserved, Class, AllocSource, Refresh, GrowMove, Config.Valid;
    if op.k in s.items {
      NothingIff(cfg, s, Class(cfg, op.k, |op.v| + |s.items[op.k].val|));
    }
  }

  /** incr and decr find no memory exactly when they need a new cell and its class is full. */
  lemma ArithFailsIff(cfg: Config, s: Cache, op: Op)
    requires Inv(cfg, s) && Defined(cfg, s, op) && op.OpArith?
    ensures var (s', reply) := Apply(cfg, s, op);
            && (reply == Done(NoMemory) <==>
                  (if op.k in s.items then |s.items[op.k].val| != CELL else cfg.defaultCounter)
                  && Starved(cfg, s, op.k, CELL))
            && (reply == Done(NoMemory) ==> s' == s)
  {
    Conservation.ClassRange(cfg, s);
    hide Recency, Shape, Conserved, Class, AllocSource, Alloc, Discard, Rewrite, MoveCell, Config.Valid, Counter.Read,
         Counter.Step, Counter.Cell;
    if op.k in s.items { Counter.ReadBounded(s.items[op.k].val); }
    if if op.k in s.items then |s.items[op.k].val| != CELL else cfg.defaultCounter {
      NothingIff(cfg, s, Class(cfg, op.k, CELL));
    }
  }

  /** A replace by a value of another class finds no memory exactly when that class is full; the key is then absent. */
  lemma ReplaceFailsIff(cfg: Config, s: Cache, op: Op)
    requires Inv(cfg, s) && Defined(cfg, s, op) && op.OpReplace?
    ensures var (s', reply) := Apply(cfg, s, op);
            && (reply == Done(NoMemory) <==>
                  op.k in s.items && Starved(cfg, s, op.k, |op.v|) && !StaysPut(cfg, s, op.k, |op.v|))
            && (reply == Done(NoMemory) ==> s'.items == s.items - {op.k})
  {
    hide Recency, Shape, Conserved, Class, Refresh, Set, Discard, Config.Valid;
    if op.k in s.items && !StaysPut(cfg, s, op.k, |op.v|) {
      DiscardKeeps(cfg, s, op.k);
      var s1 := Discard(cfg, s, op.k);
      Conservation.ClassRange(cfg, s1);
      SetFailsIff(cfg, s1, op.k, op.v, op.f);
      FreeAfterDel(cfg, s, op.k, Class(cfg, op.k, |op.v|));
    }
  }

  /** When an operation is out of memory. */
  predicate OutOfMemory(cfg: Config, s: Cache, op: Op)
    requires Shape(cfg, s)
  {
    match op
    case OpSet(k, v, _) => Starved(cfg, s, k, |v|) && !StaysPut(cfg, s, k, |v|)
    case OpAdd(k, v, _) => k !in s.items && Starved(cfg, s, k, |v|)
    case OpReplace(k, v, _) => k in s.items && Starved(cfg, s, k, |v|) && !StaysPut(cfg, s, k, |v|)
    case OpGrow(k, v, _, _, _) =>
      k in s.items && var n := |v| + |s.items[k].val|; Starved(cfg, s, k, n) && !StaysPut(cfg, s, k, n)
    case OpArith(k, _, _, _) =>
      (if k in s.items then |s.items[k].val| != CELL else cfg.defaultCounter) && Starved(cfg, s, k, CELL)
    case _ => false
  }

  /** Every operation reports that it is out of memory exactly then.  A set or a replace has lost the old item by that
      time; any other leaves the store as it was. */
  lemma NoMemoryIff(cfg: Config, s: Cache, op: Op)
    requires Inv(cfg, s) && Defined(cfg, s, op)
    ensures var (s', reply) := Apply(cfg, s, op);
            && (reply == Done(NoMemory) <==> OutOfMemory(cfg, s, op))
            && (reply == Done(NoMemory) ==>
                  if op.OpSet? || op.OpReplace? then s'.items == s.items - {op.k} else s'.items == s.items)
  {
    InvWf(cfg, s);
    hide Inv, Wf, Starved, StaysPut, Apply, Defined, Config.Valid;
    match op
    case OpSet(_, _, _) => SetOpFailsIff(cfg, s, op);
    case OpAdd(_, _, _) => SetOpFailsIff(cfg, s, op);
    case OpReplace(_, _, _) => ReplaceFailsIff(cfg, s, op);
    case OpGrow(_, _, _, _, _) => GrowFailsIff(cfg, s, op);
    case OpArith(_, _, _, _) => ArithFailsIff(cfg, s, op);
    case _ => OthersNeverFail(cfg, s, op);
  }

  lemma SetOpFailsIff(cfg: Config, s: Cache, op: Op)
    requires Inv(cfg, s) && Defined(cfg, s, op) && (op.OpSet? || op.OpAdd?)
    ensures var (s', reply) := Apply(cfg, s, op);
            && (reply == Done(NoMemory) <==> OutOfMemory(cfg, s, op))
            && (reply == Done(NoMemory) ==> s'.items == s.items - {op.k})
  {
    hide Recency, Shape, Conserved, Starved, Set, Config.Valid;
    if op.OpSet? || op.k !in s.items {
      SetFailsIff(cfg, s, op.k, op.v, op.f);
      if op.k !in s.items { NotThere(cfg, s, op.k, |op.v|); }
    }
  }

  lemma OthersNeverFail(cfg: Config, s: Cache, op: Op)
    requires Wf(cfg, s) && Defined(cfg, s, op) && (op.OpGet? || op.OpGetf? || op.OpDel?)
    ensures Apply(cfg, s, op).1 != Done(NoMemory)
  {
    hide Recency, Shape, Touch, Discard;
  }

  lemma NotThere(cfg: Config, s: Cache, k: Bytes, n: nat)
    requires Shape(cfg, s) && k !in s.items
    ensures !StaysPut(cfg, s, k, n)
  {
  }

  lemma InvWf(cfg: Config, s: Cache)
    requires Inv(cfg, s)
    ensures Wf(cfg, s) && Shape(cfg, s) && cfg.Valid()
  {
  }

  /** No operation of a store that may evict ever reports that it is out of memory. */
  lemma EvictingNeverFails(cfg: Config, s: Cache, op: Op)
    requires Inv(cfg, s) && Defined(cfg, s, op) && cfg.evictToFree
    ensures Apply(cfg, s, op).1 != Done(NoMemory)
  {
    NoMemoryIff(cfg, s, op);
    hide Apply, Inv;
  }

  /** replace, prepend and append look for the class before they look at the size, so their size error is left for an
      item of exactly item_size_max bytes that does not stay in its chunk. */
  lemma LateSizeIff(cfg: Config, s: Cache, op: Op)
    requires Wf(cfg, s) && Defined(cfg, s, op) && (op.OpReplace? || op.OpGrow?)
    ensures Apply(cfg, s, op).1 == Done(ESize) <==>
              op.k in s.items
              && var n := if op.OpGrow? then |op.v| + |s.items[op.k].val| else |op.v|;
              ItemSize(op.k, n) == cfg.itemSizeMax == cfg.Last() && !StaysPut(cfg, s, op.k, n)
  {
    hide Recency, Class, Refresh, GrowMove, AllocSource, Alloc, Insert, Discard;
    assert cfg.Last() <= cfg.itemSizeMax;
  }

  // ----- recency is last touch

  /** Which operations touch their key: reads that find it, writes that succeed, and counter updates that
      set up a cell of their own, but not those that update one in place. */
  predicate Touches(s: Cache, op: Op, s': Cache, reply: Reply) {
    match op
    case OpGet(k, _) => k in s.items
    case OpGetf(k, _) => k in s.items
    case OpDel(_) => false
    case OpArith(k, _, _, _) => k in s'.items && reply.Number? && !(k in s.items && |s.items[k].val| == CELL)
    case _ => reply == Done(OK)
  }

  /** The last touch of every key touched so far; now is the number of the current operation. */
  function Stamp(times: map<Bytes, nat>, now: nat, s: Cache, op: Op, s': Cache, reply: Reply): map<Bytes, nat> {
    if Touches(s, op, s', reply) then times[op.k := now] else times
  }

  function Times(cfg: Config, s: Cache, ops: seq<Op>, times: map<Bytes, nat>, now: nat): map<Bytes, nat>
    requires Inv(cfg, s) && RunDefined(cfg, s, ops)
    decreases |ops|
  {
    if ops == [] then times
    else
      var s' := After(cfg, s, ops[0]);
      Times(cfg, s', ops[1..], Stamp(times, now, s, ops[0], s', Apply(cfg, s, ops[0]).1), now + 1)
  }

  /** A recency sequence is strictly decreasing in last touch. */
  ghost predicate Decreasing(l: seq<Bytes>, times: map<Bytes, nat>) {
    && (forall i :: 0 <= i < |l| ==> l[i] in times)
    && (forall i, j :: 0 <= i < j < |l| ==> times[l[i]] > times[l[j]])
  }

  ghost predicate Ordered(s: Cache, times: map<Bytes, nat>, now: nat) {
    && (forall k :: k in times ==> times[k] < now)
    && (forall id :: 0 <= id < |s.lru| ==> Decreasing(s.lru[id], times))
  }

  /** Taking a key out keeps the order. */
  lemma {:induction false} DecreasingWithout(l: seq<Bytes>, times: map<Bytes, nat>, k: Bytes)
    requires Decreasing(l, times)
    ensures Decreasing(Without(l, k), times)
  {
    if k in l {
      assert NoDup(l);
      var i :| 0 <= i < |l| && l[i] == k;
      WithoutCut(l, i);
      var r := Without(l, k);
      hide Without;
      assert forall j :: 0 <= j < |r| ==> r[j] == if j < i then l[j] else l[j + 1];
    } else {
      WithoutAbsent(l, k);
    }
  }

  lemma DecreasingCons(l: seq<Bytes>, times: map<Bytes, nat>, k: Bytes, now: nat)
    requires Decreasing(l, times) && k !in l && forall x :: x in times ==> times[x] < now
    ensures Decreasing([k] + l, times[k := now])
  {
    var r := [k] + l;
    assert forall i :: 0 < i < |r| ==> r[i] == l[i - 1];
  }

  lemma OrdDiscard(cfg: Config, s: Cache, k: Bytes, times: map<Bytes, nat>, now: nat)
    requires Wf(cfg, s) && k in s.items && Ordered(s, times, now)
    ensures Ordered(Discard(cfg, s, k), times, now) && Ordered(Remove(cfg, s, k), times, now)
  {
    DecreasingWithout(s.lru[ClassIn(cfg, s, k)], times, k);
    hide Recency, Class, Without, Decreasing;
  }

  lemma OrdAlloc(cfg: Config, s: Cache, id: nat, times: map<Bytes, nat>, now: nat)
    requires Wf(cfg, s) && id < |s.lru| && Ordered(s, times, now)
    ensures Ordered(Alloc(cfg, s, id), times, now)
  {
    match AllocSource(cfg, s, id)
    case FromVictim(v) => OrdDiscard(cfg, s, v, times, now);
    case _ =>
  }

  lemma Unlisted(cfg: Config, s: Cache, k: Bytes, id: nat)
    requires Wf(cfg, s) && id < |s.lru|
    ensures k !in s.items ==> k !in s.lru[id]
    ensures k in s.items && ClassIn(cfg, s, k) != id ==> k !in s.lru[id]
  {
  }

  /** A list without k does not care when k was touched. */
  lemma DecreasingOther(l: seq<Bytes>, times: map<Bytes, nat>, k: Bytes, now: nat)
    requires Decreasing(l, times) && k !in l
    ensures Decreasing(l, times[k := now])
  {
  }

  lemma OrdInsert(cfg: Config, s: Cache, k: Bytes, e: Entry, times: map<Bytes, nat>, now: nat)
    requires Wf(cfg, s) && k !in s.items && HasClass(cfg, k, |e.val|) && Ordered(s, times, now)
    ensures Ordered(Insert(cfg, s, k, e), times[k := now], now + 1)
  {
    var id, s' := Class(cfg, k, |e.val|), Insert(cfg, s, k, e);
    forall j | 0 <= j < |s'.lru| ensures Decreasing(s'.lru[j], times[k := now]) {
      Unlisted(cfg, s, k, j);
      if j == id { DecreasingCons(s.lru[j], times, k, now); } else { DecreasingOther(s.lru[j], times, k, now); }
    }
  }

  lemma OrdTouch(cfg: Config, s: Cache, k: Bytes, times: map<Bytes, nat>, now: nat)
    requires Wf(cfg, s) && k in s.items && Ordered(s, times, now)
    ensures Ordered(Touch(cfg, s, k), times[k := now], now + 1)
  {
    var id, s' := ClassIn(cfg, s, k), Touch(cfg, s, k);
    WithoutMembers(s.lru[id], k);
    forall j | 0 <= j < |s'.lru| ensures Decreasing(s'.lru[j], times[k := now]) {
      Unlisted(cfg, s, k, j);
      if j == id {
        DecreasingWithout(s.lru[j], times, k);
        DecreasingCons(Without(s.lru[j], k), times, k, now);
      } else {
        DecreasingOther(s.lru[j], times, k, now);
      }
    }
  }

  lemma OrdLater(s: Cache, times: map<Bytes, nat>, now: nat)
    requires Ordered(s, times, now)
    ensures Ordered(s, times, now + 1)
  {
  }

  lemma OrdSet(cfg: Config, s: Cache, k: Bytes, v: Bytes, f: Flags, times: map<Bytes, nat>, now: nat)
    requires Wf(cfg, s) && SetDefined(cfg, k, |v|) && Ordered(s, times, now)
    ensures var (s', reply) := Set(cfg, s, k, v, f);
            Ordered(s', if reply == Done(OK) then times[k := now] else times, now + 1)
  {
    Conservation.ClassRange(cfg, s);
    hide Recency, Shape, Class, Insert, Discard, Alloc, AllocSource, Ordered, Config.Valid;
    OrdLater(s, times, now);
    if cfg.SizeOk(ItemSize(k, |v|)) {
      if k in s.items { OrdDiscard(cfg, s, k, times, now); }
      var s1, id := Del(cfg, s, k).0, Class(cfg, k, |v|);
      Conservation.ClassRange(cfg, s1);
      OrdLater(s1, times, now);
      OrdAlloc(cfg, s1, id, times, now);
      if !AllocSource(cfg, s1, id).FromNothing? {
        OrdInsert(cfg, Alloc(cfg, s1, id), k, Entry(v, f), times, now);
      }
    }
  }

  lemma OrdRefresh(cfg: Config, s: Cache, k: Bytes, e: Entry, times: map<Bytes, nat>, now: nat)
    requires Wf(cfg, s) && k in s.items && HasClass(cfg, k, |e.val|) && Ordered(s, times, now)
    requires Class(cfg, k, |e.val|) == ClassIn(cfg, s, k)
    ensures Ordered(Refresh(cfg, s, k, e), times[k := now], now + 1)
  {
    OrdTouch(cfg, s, k, times, now);
    hide Recency, Class, Touch;
  }

  lemma OrdGrow(cfg: Config, s: Cache, k: Bytes, e: Entry, times: map<Bytes, nat>, now: nat)
    requires Wf(cfg, s) && k in s.items && HasClass(cfg, k, |e.val|) && Ordered(s, times, now)
    requires Class(cfg, k, |e.val|) != ClassIn(cfg, s, k)
    ensures Ordered(GrowMove(cfg, s, k, e), times[k := now], now + 1)
  {
    Conservation.ClassRange(cfg, s);
    var id := Class(cfg, k, |e.val|);
    GrowKeeps(cfg, s, k, id);
    hide Recency, Shape, Class, Insert, Remove, Alloc, Config.Valid;
    OrdAlloc(cfg, s, id, times, now);
    OrdDiscard(cfg, Alloc(cfg, s, id), k, times, now);
    OrdInsert(cfg, Remove(cfg, Alloc(cfg, s, id), k), k, e, times, now);
  }

  lemma OrdMove(cfg: Config, s: Cache, k: Bytes, n: nat, f: Option<Flags>, times: map<Bytes, nat>, now: nat)
    requires Wf(cfg, s) && k in s.items && HasClass(cfg, k, CELL) && n < U64 && Ordered(s, times, now)
    ensures var (s', reply) := ArithMove(cfg, s, k, n, f);
            Ordered(s', if k in s'.items && reply.Number? then times[k := now] else times, now + 1)
  {
    Conservation.ClassRange(cfg, s);
    var id := Class(cfg, k, CELL);
    OrdLater(s, times, now);
    hide Recency, Shape, Class, Insert, Discard, Alloc, AllocSource, Ordered, Config.Valid, Counter.Cell;
    OrdDiscard(cfg, s, k, times, now);
    OrdLater(Discard(cfg, s, k), times, now);
    OrdAlloc(cfg, s, id, times, now);
    if !AllocSource(cfg, s, id).FromNothing? && AllocSource(cfg, s, id) != FromVictim(k) {
      var t := Alloc(cfg, s, id);
      OrdDiscard(cfg, t, k, times, now);
      OrdInsert(cfg, Discard(cfg, t, k), k, Entry(Counter.Cell(n, Counter.Blank()), Or(f, s.items[k].flags)), times,
                now);
    }
  }

  lemma OrdArith(cfg: Config, s: Cache, op: Op, times: map<Bytes, nat>, now: nat)
    requires Wf(cfg, s) && op.OpArith? && Defined(cfg, s, op) && Ordered(s, times, now)
    ensures var (s', reply) := Apply(cfg, s, op);
            Ordered(s', Stamp(times, now, s, op, s', reply), now + 1)
  {
    Conservation.ClassRange(cfg, s);
    var k := op.k;
    OrdLater(s, times, now);
    if k in s.items {
      Counter.ReadBounded(s.items[k].val);
      var n := Counter.Step(Counter.Read(s.items[k].val), op.delta, op.incr);
      if |s.items[k].val| != CELL {
        OrdMove(cfg, s, k, n, op.fo, times, now);
      }
    } else if cfg.defaultCounter {
      var id, n := Class(cfg, k, CELL), Counter.Step(0, op.delta, op.incr);
      OrdAlloc(cfg, s, id, times, now);
      OrdInsert(cfg, Alloc(cfg, s, id), k, Entry(Counter.Cell(n, Counter.Blank()), Or(op.fo, 0)), times, now);
    }
    hide Recency, Shape, Class, Insert, Alloc, AllocSource, ArithMove, Config.Valid, Counter.Cell, Counter.Read,
         Counter.Step;
  }

  lemma OrdStep(cfg: Config, s: Cache, op: Op, times: map<Bytes, nat>, now: nat)
    requires Wf(cfg, s) && Defined(cfg, s, op) && Ordered(s, times, now)
    ensures var (s', reply) := Apply(cfg, s, op);
            Ordered(s', Stamp(times, now, s, op, s', reply), now + 1)
  {
    Conservation.ClassRange(cfg, s);
    OrdLater(s, times, now);
    hide Ordered, Recency, Shape, Class, Set, Touch, Discard, Replace, GrowValue, AllocSource, Arith, Config.Valid;
    match op
    case OpGet(k, _) => if k in s.items { OrdTouch(cfg, s, k, times, now); }
    case OpGetf(k, _) => if k in s.items { OrdTouch(cfg, s, k, times, now); }
    case OpDel(k) => if k in s.items { OrdDiscard(cfg, s, k, times, now); OrdLater(Discard(cfg, s, k), times, now); }
    case OpSet(k, v, f) => OrdSet(cfg, s, k, v, f, times, now);
    case OpAdd(k, v, f) => if k !in s.items { OrdSet(cfg, s, k, v, f, times, now); }
    case OpReplace(k, v, f) => OrdReplace(cfg, s, k, v, f, times, now);
    case OpGrow(k, v, f, end, stale) => OrdGrowValue(cfg, s, k, v, f, end, stale, times, now);
    case OpArith(k, delta, incr, f) => OrdArith(cfg, s, op, times, now);
  }

  lemma OrdReplace(cfg: Config, s: Cache, k: Bytes, v: Bytes, f: Flags, times: map<Bytes, nat>, now: nat)
    requires Wf(cfg, s) && ReplaceDefined(cfg, s, k, |v|) && Ordered(s, times, now)
    ensures var (s', reply) := Replace(cfg, s, k, v, f);
            Ordered(s', if reply == Done(OK) then times[k := now] else times, now + 1)
  {
    Conservation.ClassRange(cfg, s);
    OrdLater(s, times, now);
    hide Ordered, Recency, Shape, Class, Set, Discard, Refresh, AllocSource, Config.Valid;
    if k in s.items {
      if ClassIn(cfg, s, k) == Class(cfg, k, |v|) {
        OrdRefresh(cfg, s, k, Entry(v, f), times, now);
      } else {
        OrdDiscard(cfg, s, k, times, now);
        OrdSet(cfg, Discard(cfg, s, k), k, v, f, times, now);
      }
    }
  }

  lemma OrdGrowValue(cfg: Config, s: Cache, k: Bytes, v: Bytes, f: Flags, end: End, stale: Flags,
                     times: map<Bytes, nat>, now: nat)
    requires Wf(cfg, s) && GrowDefined(cfg, s, k, |v|) && Ordered(s, times, now)
    ensures var (s', reply) := GrowValue(cfg, s, k, v, f, end, stale);
            Ordered(s', if reply == Done(OK) then times[k := now] else times, now + 1)
  {
    Conservation.ClassRange(cfg, s);
    OrdLater(s, times, now);
    hide Ordered, Recency, Shape, Class, Refresh, GrowMove, AllocSource, Joined, Config.Valid;
    if k in s.items {
      var val := Joined(s.items[k].val, v, end);
      if ClassIn(cfg, s, k) == Class(cfg, k, |val|) {
        OrdRefresh(cfg, s, k, Entry(val, f), times, now);
      } else {
        OrdGrow(cfg, s, k, Entry(val, stale), times, now);
      }
    }
  }

  /** After every run, each class's recency sequence is strictly decreasing in last touch. */
  lemma {:induction false} RunOrdered(cfg: Config, s: Cache, ops: seq<Op>, times: map<Bytes, nat>, now: nat)
    requires Inv(cfg, s) && RunDefined(cfg, s, ops) && Ordered(s, times, now)
    ensures Ordered(Run(cfg, s, ops), Times(cfg, s, ops, times, now), now + |ops|)
    decreases |ops|
  {
    if ops != [] {
      OrdStep(cfg, s, ops[0], times, now);
      var s', reply := After(cfg, s, ops[0]), Apply(cfg, s, ops[0]).1;
      hide Ordered, Apply, Inv, Defined;
      RunOrdered(cfg, s', ops[1..], Stamp(times, now, s, ops[0], s', reply), now + 1);
    }
  }

  /** A run that starts with a new store. */
  ghost predicate NewRunDefined(cfg: Config, ops: seq<Op>)
    requires cfg.Valid() && Conservation.FirstPagesFit(cfg)
  {
    Conservation.FreshInv(cfg);
    RunDefined(cfg, Conservation.Fresh(cfg), ops)
  }

  function NewRun(cfg: Config, ops: seq<Op>): (s: Cache)
    requires cfg.Valid() && Conservation.FirstPagesFit(cfg) && NewRunDefined(cfg, ops)
    ensures Inv(cfg, s)
  {
    Conservation.FreshInv(cfg);
    RunKeeps(cfg, Conservation.Fresh(cfg), ops);
    Run(cfg, Conservation.Fresh(cfg), ops)
  }

  function NewTimes(cfg: Config, ops: seq<Op>): map<Bytes, nat>
    requires cfg.Valid() && Conservation.FirstPagesFit(cfg) && NewRunDefined(cfg, ops)
  {
    Conservation.FreshInv(cfg);
    Times(cfg, Conservation.Fresh(cfg), ops, map[], 0)
  }

  /** What would be evicted next from a class of a store reached from a new one is the item of that class
      whose last touch lies furthest back. */
  lemma VictimLeastRecent(cfg: Config, ops: seq<Op>, x: Bytes, y: Bytes)
    requires cfg.Valid() && Conservation.FirstPagesFit(cfg) && NewRunDefined(cfg, ops)
    requires var s := NewRun(cfg, ops);
             && x in s.items && y in s.items && x != y
             && ClassIn(cfg, s, x) == ClassIn(cfg, s, y) && Evictable(cfg, s, x)
    ensures var times := NewTimes(cfg, ops); x in times && y in times && times[x] < times[y]
  {
    var s0 := Conservation.Fresh(cfg);
    Conservation.FreshInv(cfg);
    Conservation.FormattingFacts(cfg, |cfg.sizes|);
    assert Ordered(s0, map[], 0);
    hide Ordered, Apply, Conservation.Fresh;
    RunOrdered(cfg, s0, ops, map[], 0);
    LeastIsLast(cfg, NewRun(cfg, ops), x, y, NewTimes(cfg, ops), |ops|);
  }

  lemma LeastIsLast(cfg: Config, s: Cache, x: Bytes, y: Bytes, times: map<Bytes, nat>, now: nat)
    requires Wf(cfg, s) && Ordered(s, times, now) && x in s.items && y in s.items && x != y
    requires ClassIn(cfg, s, x) == ClassIn(cfg, s, y) && Evictable(cfg, s, x)
    ensures x in times && y in times && times[x] < times[y]
  {
    var l := s.lru[ClassIn(cfg, s, x)];
    assert y in l;
    var i :| 0 <= i < |l| && l[i] == y;
    assert l[|l| - 1] == x;
  }

  // ----- overwriting within a class

  /** A set over an existing key whose new size stays in the old item's class never evicts, never grows
      the pool and never fails: the delete has just returned a chunk to that class. */
  lemma SameClassOverwrite(cfg: Config, s: Cache, k: Bytes, v: Bytes, f: Flags)
    requires Inv(cfg, s) && StaysPut(cfg, s, k, |v|) && cfg.SizeOk(ItemSize(k, |v|))
    ensures var (s', reply) := Set(cfg, s, k, v, f);
            && reply == Done(OK) && s'.items == s.items[k := Entry(v, f)]
            && s'.pages == s.pages && s'.used == s.used && s'.free == s.free
  {
    var id := Class(cfg, k, |v|);
    var s1 := Del(cfg, s, k).0;
    assert s1.free[id] == s.free[id] + 1;
    assert AllocSource(cfg, s1, id) == FromFree;
    hide Recency, Conserved, Class;
    var (s', reply) := Set(cfg, s, k, v, f);
    assert s'.free == s.free[id := s.free[id] + 1][id := s.free[id]] == s.free;
    assert (s.items - {k})[k := Entry(v, f)] == s.items[k := Entry(v, f)];
  }

  // ----- counters

  /** The increments and decrements of one key in a run, folded over a start value. */
  function Fold(k: Bytes, ops: seq<Op>, n: nat): (r: nat)
    requires n < U64 && forall op :: op in ops && op.OpArith? ==> op.delta < U64
    ensures r < U64
    decreases |ops|
  {
    if ops == [] then n
    else Fold(k, ops[1..], if ops[0].OpArith? && ops[0].k == k then Counter.Step(n, ops[0].delta, ops[0].incr) else n)
  }

  /** The key is a counter cell, and stays one throughout: nothing but counting is done to it, and it is
      not evicted. */
  ghost predicate CountsOnly(cfg: Config, s: Cache, ops: seq<Op>, k: Bytes)
    requires Inv(cfg, s) && RunDefined(cfg, s, ops)
    decreases |ops|
  {
    && k in s.items
    && (ops != [] ==>
          && (ops[0].k == k ==> ops[0].OpArith? || ops[0].OpGet? || ops[0].OpGetf?)
          && CountsOnly(cfg, After(cfg, s, ops[0]), ops[1..], k))
  }

  lemma CountStep(cfg: Config, s: Cache, op: Op, k: Bytes)
    requires Wf(cfg, s) && Defined(cfg, s, op) && k in s.items && k in Apply(cfg, s, op).0.items
    requires |s.items[k].val| == CELL
    requires op.k == k ==> op.OpArith? || op.OpGet? || op.OpGetf?
    ensures var s' := Apply(cfg, s, op).0;
            && |s'.items[k].val| == CELL
            && Readable(s'.items[k].val)
               == if op.OpArith? && op.k == k then Counter.Step(Readable(s.items[k].val), op.delta, op.incr)
                  else Readable(s.items[k].val)
  {
    if op.k == k {
      Counter.ReadBounded(s.items[k].val);
      if op.OpArith? {
        Counter.CellRoundTrip(Counter.Step(Counter.Read(s.items[k].val), op.delta, op.incr), s.items[k].val);
      }
      hide Recency, Shape, Class, Counter.Read, Counter.Cell, Counter.Step;
    } else {
      StepKeepsOthers(cfg, s, op);
      hide Apply, Recency, Shape, Class, Counter.Read;
      var gone :| OthersKept(s, Apply(cfg, s, op).0, op.k, gone) && GoneEvictable(cfg, s, gone);
    }
  }

  /** A live counter holds, after any run, exactly the fold of the increments modulo 2^64 and of the
      decrements floored at zero, whatever else the run did. */
  lemma {:induction false} CounterRun(cfg: Config, s: Cache, ops: seq<Op>, k: Bytes)
    requires Inv(cfg, s) && RunDefined(cfg, s, ops) && CountsOnly(cfg, s, ops, k) && |s.items[k].val| == CELL
    requires forall op :: op in ops && op.OpArith? ==> op.delta < U64
    ensures var s' := Run(cfg, s, ops);
            k in s'.items && |s'.items[k].val| == CELL
            && Readable(s'.items[k].val) == Fold(k, ops, Readable(s.items[k].val))
    decreases |ops|
  {
    if ops != [] {
      var s1 := After(cfg, s, ops[0]);
      assert k in s1.items;
      CountStep(cfg, s, ops[0], k);
      hide Apply, Inv, Defined;
      CounterRun(cfg, s1, ops[1..], k);
    }
  }

  // ----- where the code falls short of a dictionary

  /** A counter update that reports a number has stored it, exactly unless it evicted its own item. */
  lemma CounterStoredIff(cfg: Config, s: Cache, op: Op)
    requires Wf(cfg, s) && Defined(cfg, s, op) && op.OpArith? && Apply(cfg, s, op).1.Number?
    ensures var (s', reply) := Apply(cfg, s, op);
            (op.k in s'.items && Readable(s'.items[op.k].val) == reply.n) <==> !SelfEvicts(cfg, s, op)
  {
    OwnArith(cfg, s, op);
    RepliesMatch(cfg, s, op);
    var n := Counter.Step(if op.k in s.items then Readable(s.items[op.k].val) else 0, op.delta, op.incr);
    Counter.CellRoundTrip(
      n, if op.k in s.items && |s.items[op.k].val| == CELL then s.items[op.k].val else Counter.Blank());
    hide Apply, Recency, Shape, Evictable, Class, Counter.Read, Counter.Cell, Counter.Step;
  }

  /** A store with room for a single chunk. */
  function OneChunk(): (cfg: Config)
    ensures cfg.Valid() && cfg.Last() == 104 && cfg.ClassOf(65) == 0 && cfg.ClassOf(86) == 0
  {
    Config([104], [1], 112, 105, 1, true, true)
  }

  /** The attributes that give such a store. */
  lemma OneChunkMade()
    ensures FactorOk(TinyAttr()) && ConfigOf(TinyAttr()) == OneChunk()
  {
    assert Sizes(TinyAttr()) == [104];
  }

  function TinyAttr(): Attr {
    Attr(105, 1, 40, 112, 2, 1, true, true)
  }

  lemma OneChunkFresh()
    ensures Conservation.FirstPagesFit(OneChunk())
    ensures Conservation.Fresh(OneChunk()) == Cache(map[], [[]], [1], [1], 104)
  {
    var cfg := OneChunk();
    assert PoolBytes(cfg, Conservation.Ones(1), 1) == 0;
    Conservation.FormattingFacts(cfg, 1);
    var s := Conservation.Fresh(cfg);
    assert s.pages == [1] && s.free == [1] && s.lru == [[]];
    assert PoolBytes(cfg, [1], 1) == 0;
  }

  lemma OneChunkFull(k: Bytes, e: Entry)
    requires |k| == 1 && |e.val| == 1
    ensures var cfg, s := OneChunk(), Cache(map[k := e], [[k]], [0], [1], 104);
            && Wf(cfg, s) && ArithDefined(cfg, s, k)
            && AllocSource(cfg, s, 0) == FromVictim(k)
            && Discard(cfg, s, k).items == map[]
  {
    var cfg, s := OneChunk(), Cache(map[k := e], [[k]], [0], [1], 104);
    assert Shape(cfg, s) && Recency(cfg, s);
    assert map[k := e] - {k} == map[];
  }

  /** The exception is real: a store with room for one chunk holds "7" under "a".  Incrementing "a" by one
      reports 8 and loses the item. */
  lemma SelfEvictionHappens()
    ensures var cfg, s0 := OneChunk(), Conservation.Fresh(OneChunk());
            && SetDefined(cfg, [97], 1)
            && var (s, stored) := Set(cfg, s0, [97], [55], 0);
            && stored == Done(OK) && s.items == map[[97] := Entry([55], 0)]
            && Wf(cfg, s) && ArithDefined(cfg, s, [97])
            && var (s', reply) := Arith(cfg, s, [97], 1, true, None);
            && reply == Number(8, None) && s'.items == map[]
  {
    OneChunkFresh();
    var cfg, s0 := OneChunk(), Cache(map[], [[]], [1], [1], 104);
    var k: Bytes, e := [97], Entry([55], 0);
    assert Wf(cfg, s0);
    assert AllocSource(cfg, s0, 0) == FromFree;
    var s := Cache(map[k := e], [[k]], [0], [1], 104);
    assert Class(cfg, k, 1) == 0;
    var a := Alloc(cfg, s0, 0);
    assert a.free == [0] && a.lru == [[]];
    var t := Insert(cfg, a, k, e);
    assert t.lru == [[k]] by { assert [k] + [] == [k]; }
    assert t.items == map[k := e];
    assert t == s;
    assert Set(cfg, s0, k, [55], 0) == (s, Done(OK));
    OneChunkFull(k, e);
    assert Counter.Parse([55], 0) == Counter.Parse([], 7);
  }

  /** A store whose last class is as large as an item may be. */
  function TightClasses(): (cfg: Config)
    ensures cfg.Valid() && cfg.Last() == cfg.itemSizeMax == 152 && |cfg.sizes| == 2
    ensures cfg.ClassOf(66) == 0 && cfg.ClassOf(152) == 1
  {
    Config([72, 152], [2, 1], 152, 1000, 1, true, true)
  }

  function TightAttr(): Attr {
    Attr(1000, 1, 8, 152, 41, 20, true, true)
  }

  lemma TightClassesMade()
    ensures FactorOk(TightAttr()) && ConfigOf(TightAttr()) == TightClasses()
  {
    assert Grow(TightAttr(), 72) == 147 && AlignSize(147) == 152 && Grow(TightAttr(), 152) == 311;
    assert Sizes(TightAttr()) == [72] + Schedule(TightAttr(), 147);
    assert Schedule(TightAttr(), 147) == [152] + Schedule(TightAttr(), 311) == [152];
  }

  /** A late size error: 86 bytes appended to one byte under a key of one byte, with the header 152 in all. */
  lemma LateSizeHappens(k: Bytes, e: Entry, v: Bytes, f: Flags)
    requires |k| == |e.val| == 1 && |v| == 86
    ensures var cfg, s := TightClasses(), Cache(map[k := e], [[k], []], [1, 1], [1, 1], 296);
            && Wf(cfg, s) && GrowDefined(cfg, s, k, |v|) && GrowValue(cfg, s, k, v, f, Back, 0).1 == Done(ESize)
  {
    var cfg, s := TightClasses(), Cache(map[k := e], [[k], []], [1, 1], [1, 1], 296);
    assert Shape(cfg, s) && Recency(cfg, s);
    assert ClassIn(cfg, s, k) == 0 && Class(cfg, k, 87) == 1;
    hide TightClasses, Recency, Shape, Class, Config.Valid;
    LateSizeIff(cfg, s, OpGrow(k, v, f, Back, 0));
  }

  /** A successful append or prepend is sure to store its flags, whatever the header of a new chunk holds,
      exactly when the value stays in its chunk.  Otherwise the flags are those the header held, which for the
      chunk of an evicted item are that item's. */
  lemma GrowFlagsIff(cfg: Config, s: Cache, op: Op)
    requires Wf(cfg, s) && Defined(cfg, s, op) && op.OpGrow? && Apply(cfg, s, op).1 == Done(OK)
    ensures op.k in s.items
    ensures (forall stale: Flags :: FlagsAfter(cfg, s, op, stale) == Some(op.f))
       <==> StaysPut(cfg, s, op.k, |op.v| + |s.items[op.k].val|)
    ensures !StaysPut(cfg, s, op.k, |op.v| + |s.items[op.k].val|) ==>
              forall stale: Flags :: FlagsAfter(cfg, s, op, stale) == Some(stale)
  {
    hide Wf, Apply, Defined, StaysPut, FlagsAfter, GrowFlags;
    OkPresent(cfg, s, op);
    WfShape(cfg, s);
    forall stale: Flags ensures GrowFlags(cfg, s, op, stale) {
      GrowFlagsAre(cfg, s, op, stale);
    }
    AllFlags(cfg, s, op);
  }

  lemma WfShape(cfg: Config, s: Cache)
    requires Wf(cfg, s)
    ensures Shape(cfg, s)
  {
  }

  lemma AllFlags(cfg: Config, s: Cache, op: Op)
    requires Wf(cfg, s) && op.OpGrow? && Defined(cfg, s, op) && op.k in s.items
    requires forall stale: Flags :: GrowFlags(cfg, s, op, stale)
    ensures (forall stale: Flags :: FlagsAfter(cfg, s, op, stale) == Some(op.f))
       <==> StaysPut(cfg, s, op.k, |op.v| + |s.items[op.k].val|)
    ensures !StaysPut(cfg, s, op.k, |op.v| + |s.items[op.k].val|) ==>
              forall stale: Flags :: FlagsAfter(cfg, s, op, stale) == Some(stale)
  {
    hide Wf, Defined, StaysPut, FlagsAfter;
    WfShape(cfg, s);
    forall stale: Flags
      ensures FlagsAfter(cfg, s, op, stale)
           == Some(if StaysPut(cfg, s, op.k, |op.v| + |s.items[op.k].val|) then op.f else stale)
    {
      assert GrowFlags(cfg, s, op, stale);
    }
    if !StaysPut(cfg, s, op.k, |op.v| + |s.items[op.k].val|) {
      var other: Flags := if op.f == 0 then 1 else 0;
      assert FlagsAfter(cfg, s, op, other) == Some(other);
    }
  }

  lemma OkPresent(cfg: Config, s: Cache, op: Op)
    requires Wf(cfg, s) && Defined(cfg, s, op) && op.OpGrow? && Apply(cfg, s, op).1 == Done(OK)
    ensures op.k in s.items
  {
    hide Recency, Shape;
  }

  /** The flags the key ends up with when the header of the new chunk, if one is taken, holds stale. */
  function FlagsAfter(cfg: Config, s: Cache, op: Op, stale: Flags): Option<Flags>
    requires Wf(cfg, s) && op.OpGrow? && Defined(cfg, s, op)
  {
    var s' := Apply(cfg, s, op.(stale := stale)).0;
    if op.k in s'.items then Some(s'.items[op.k].flags) else None
  }

  ghost predicate GrowFlags(cfg: Config, s: Cache, op: Op, stale: Flags)
    requires Wf(cfg, s) && op.OpGrow? && Defined(cfg, s, op) && op.k in s.items
  {
    FlagsAfter(cfg, s, op, stale)
    == Some(if StaysPut(cfg, s, op.k, |op.v| + |s.items[op.k].val|) then op.f else stale)
  }

  lemma GrowFlagsAre(cfg: Config, s: Cache, op: Op, stale: Flags)
    requires Wf(cfg, s) && Defined(cfg, s, op) && op.OpGrow? && Apply(cfg, s, op).1 == Done(OK) && op.k in s.items
    ensures GrowFlags(cfg, s, op, stale)
  {
    OwnGrow(cfg, s, op.(stale := stale));
    SameReply(cfg, s, op, stale);
    hide Apply, Recency, Shape, Class, Config.Valid, Joined;
  }

  lemma SameReply(cfg: Config, s: Cache, op: Op, stale: Flags)
    requires Wf(cfg, s) && Defined(cfg, s, op) && op.OpGrow?
    ensures Apply(cfg, s, op.(stale := stale)).1 == Apply(cfg, s, op).1
  {
    hide Recency, Shape, Class, Refresh, GrowMove, AllocSource, Joined, Config.Valid;
  }

  // ----- counting

  /** The recency sequences hold each item once: their lengths add up to the number of items. */
  lemma ItemsListed(cfg: Config, s: Cache)
    requires Wf(cfg, s)
    ensures Total(s.lru) == |s.items|
  {
    var owner := map k | k in s.items :: ClassIn(cfg, s, k);
    assert owner.Keys == s.items.Keys;
    hide Class;
    PartitionTotal(s.lru, owner);
    assert |owner| == |owner.Keys| && |s.items| == |s.items.Keys|;
  }
}
