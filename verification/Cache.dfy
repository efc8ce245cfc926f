/** The abstract store: what the chains, lists and chunks of shmc.c are supposed to mean.

    A cache is a map from keys to entries, one recency sequence of keys per size class (most recent
    first), and, per class, the number of free chunks and of pages carved.  Every public operation is
    a function from cache to cache; the linked structures are proved to implement these functions, and
    everything that is claimed about runs is proved about them. */
module Cache {
  import opened Basics
  import opened Lists
  import opened Slabs
  import Counter

  type Flags = bv32

  const U64: nat := Counter.U64
  const CELL: nat := Counter.CELL

  datatype Status = OK | NotFound | Exist | ESize | ESpace | NoMemory | System

  datatype Entry = Entry(val: Bytes, flags: Flags)

  datatype Cache = Cache(items: map<Bytes, Entry>, lru: seq<seq<Bytes>>, free: seq<nat>,
                         pages: seq<nat>, used: nat)

  function ItemSize(key: Bytes, nval: nat): nat {
    ItemSizeOf(|key|, nval)
  }

  function ItemSizeOf(nkey: nat, nval: nat): nat {
    HEADER + nkey + nval
  }

  /** The whole item fits some class, so item_clsid stays inside the slab table. */
  predicate HasClass(cfg: Config, key: Bytes, nval: nat)
    requires cfg.Valid()
  {
    ItemSize(key, nval) <= cfg.Last()
  }

  function Class(cfg: Config, key: Bytes, nval: nat): (id: nat)
    requires cfg.Valid() && HasClass(cfg, key, nval)
    ensures id < |cfg.sizes| && ItemSize(key, nval) <= cfg.sizes[id]
  {
    cfg.ClassOf(ItemSize(key, nval))
  }

  // ----- the invariant

  ghost predicate Shape(cfg: Config, s: Cache) {
    && cfg.Valid()
    && |s.lru| == |s.free| == |s.pages| == |cfg.sizes|
    && (forall k :: k in s.items ==> HasClass(cfg, k, |s.items[k].val|))
  }

  /** The recency sequences partition the keys by class. */
  ghost predicate Recency(cfg: Config, s: Cache)
    requires Shape(cfg, s)
  {
    && (forall id :: 0 <= id < |s.lru| ==> NoDup(s.lru[id]))
    && (forall id, k {:trigger k in s.lru[id]} :: 0 <= id < |s.lru| ==>
          (k in s.lru[id] <==> k in s.items && Class(cfg, k, |s.items[k].val|) == id))
  }

  /** Bytes carved for the pages of the classes from id on. */
  function PoolBytes(cfg: Config, pages: seq<nat>, id: nat): nat
    requires cfg.Valid() && |pages| == |cfg.sizes| && id <= |pages|
    decreases |pages| - id
  {
    if id == |pages| then 0 else pages[id] * cfg.PageBytes(id) + PoolBytes(cfg, pages, id + 1)
  }

  /** Every chunk carved is either free or holds an item, and the pool never reaches its limit. */
  ghost predicate Conserved(cfg: Config, s: Cache)
    requires Shape(cfg, s)
  {
    && (forall id :: 0 <= id < |s.lru| ==>
          s.pages[id] >= 1 && |s.lru[id]| + s.free[id] == s.pages[id] * cfg.counts[id])
    && s.used == PoolBytes(cfg, s.pages, 0)
    && s.used < cfg.memLimit
  }

  ghost predicate Inv(cfg: Config, s: Cache) {
    Shape(cfg, s) && Recency(cfg, s) && Conserved(cfg, s)
  }

  ghost predicate Wf(cfg: Config, s: Cache) {
    Shape(cfg, s) && Recency(cfg, s)
  }

  // ----- the building blocks

  function ClassIn(cfg: Config, s: Cache, k: Bytes): (id: nat)
    requires Shape(cfg, s) && k in s.items
    ensures id < |s.lru|
  {
    Class(cfg, k, |s.items[k].val|)
  }

  /** assoc_delete and item_unlink: the chunk of k is on no list any more. */
  function Remove(cfg: Config, s: Cache, k: Bytes): (r: Cache)
    requires Wf(cfg, s) && k in s.items
    ensures Wf(cfg, r) && r.items == s.items - {k}
  {
    RemoveWf(cfg, s, k);
    var id := ClassIn(cfg, s, k);
    s.(items := s.items - {k}, lru := s.lru[id := Without(s.lru[id], k)])
  }

  lemma RemoveWf(cfg: Config, s: Cache, k: Bytes)
    requires Wf(cfg, s) && k in s.items
    ensures Wf(cfg, s.(items := s.items - {k},
                       lru := s.lru[ClassIn(cfg, s, k) := Without(s.lru[ClassIn(cfg, s, k)], k)]))
  {
    hide Class;
    WithoutMembers(s.lru[ClassIn(cfg, s, k)], k);
  }

  /** item_free. */
  function Release(cfg: Config, s: Cache, id: nat): (r: Cache)
    requires Wf(cfg, s) && id < |s.free|
    ensures Wf(cfg, r) && r.items == s.items
  {
    s.(free := s.free[id := s.free[id] + 1])
  }

  /** assoc_delete, item_unlink and item_free. */
  function Discard(cfg: Config, s: Cache, k: Bytes): (r: Cache)
    requires Wf(cfg, s) && k in s.items
    ensures Wf(cfg, r) && r.items == s.items - {k}
    ensures |r.lru| == |r.free| == |s.free|
    ensures r.free[ClassIn(cfg, s, k)] == s.free[ClassIn(cfg, s, k)] + 1
  {
    Release(cfg, Remove(cfg, s, k), ClassIn(cfg, s, k))
  }

  /** assoc_insert and item_link on a chunk that is on no list. */
  function Insert(cfg: Config, s: Cache, k: Bytes, e: Entry): (r: Cache)
    requires Wf(cfg, s) && k !in s.items && HasClass(cfg, k, |e.val|)
    ensures Wf(cfg, r) && r.items == s.items[k := e]
  {
    InsertWf(cfg, s, k, e);
    var id := Class(cfg, k, |e.val|);
    s.(items := s.items[k := e], lru := s.lru[id := [k] + s.lru[id]])
  }

  lemma InsertWf(cfg: Config, s: Cache, k: Bytes, e: Entry)
    requires Wf(cfg, s) && k !in s.items && HasClass(cfg, k, |e.val|)
    ensures Wf(cfg, s.(items := s.items[k := e],
                       lru := s.lru[Class(cfg, k, |e.val|) := [k] + s.lru[Class(cfg, k, |e.val|)]]))
  {
    hide Class;
    ConsNoDup(k, s.lru[Class(cfg, k, |e.val|)]);
  }

  /** item_relink. */
  function Touch(cfg: Config, s: Cache, k: Bytes): (r: Cache)
    requires Wf(cfg, s) && k in s.items
    ensures Wf(cfg, r) && r.items == s.items
  {
    TouchWf(cfg, s, k);
    var id := ClassIn(cfg, s, k);
    s.(lru := s.lru[id := [k] + Without(s.lru[id], k)])
  }

  lemma TouchWf(cfg: Config, s: Cache, k: Bytes)
    requires Wf(cfg, s) && k in s.items
    ensures Wf(cfg, s.(lru := s.lru[ClassIn(cfg, s, k) := [k] + Without(s.lru[ClassIn(cfg, s, k)], k)]))
  {
    hide Class;
    WithoutMembers(s.lru[ClassIn(cfg, s, k)], k);
  }

  /** A new value for an item that stays in its chunk. */
  function Rewrite(cfg: Config, s: Cache, k: Bytes, e: Entry): (r: Cache)
    requires Wf(cfg, s) && k in s.items && HasClass(cfg, k, |e.val|)
    requires Class(cfg, k, |e.val|) == ClassIn(cfg, s, k)
    ensures Wf(cfg, r) && r.items == s.items[k := e]
  {
    s.(items := s.items[k := e])
  }

  /** item_relink, then a new value in the same chunk. */
  function Refresh(cfg: Config, s: Cache, k: Bytes, e: Entry): (r: Cache)
    requires Wf(cfg, s) && k in s.items && HasClass(cfg, k, |e.val|)
    requires Class(cfg, k, |e.val|) == ClassIn(cfg, s, k)
    ensures Wf(cfg, r) && r.items == s.items[k := e]
  {
    Rewrite(cfg, Touch(cfg, s, k), k, e)
  }

  lemma LastKey(cfg: Config, s: Cache, id: nat)
    requires Wf(cfg, s) && id < |s.lru| && s.lru[id] != []
    ensures var k := s.lru[id][|s.lru[id]| - 1]; k in s.items && ClassIn(cfg, s, k) == id
  {
    assert s.lru[id][|s.lru[id]| - 1] in s.lru[id];
  }

  // ----- allocation

  datatype Source = FromFree | FromPool | FromVictim(key: Bytes) | FromNothing

  /** Where item_alloc takes a chunk of a class from. */
  function AllocSource(cfg: Config, s: Cache, id: nat): (r: Source)
    requires Wf(cfg, s) && id < |s.lru|
    ensures r.FromVictim? ==> r.key in s.items && ClassIn(cfg, s, r.key) == id
  {
    if s.free[id] > 0 then FromFree
    else if s.used + cfg.PageBytes(id) < cfg.memLimit then FromPool
    else if cfg.evictToFree && s.lru[id] != [] then
      LastKey(cfg, s, id);
      FromVictim(s.lru[id][|s.lru[id]| - 1])
    else FromNothing
  }

  /** A chunk popped off a free list. */
  function TakeFree(cfg: Config, s: Cache, id: nat): (r: Cache)
    requires Wf(cfg, s) && id < |s.free| && s.free[id] > 0
    ensures Wf(cfg, r) && r.items == s.items
  {
    s.(free := s.free[id := s.free[id] - 1])
  }

  /** One more page carved into free chunks. */
  function AddPage(cfg: Config, s: Cache, id: nat): (r: Cache)
    requires Wf(cfg, s) && id < |s.lru|
    ensures Wf(cfg, r) && r.items == s.items && |r.lru| == |r.free| == |s.free| && r.free[id] >= 1
  {
    s.(free := s.free[id := s.free[id] + cfg.counts[id]], pages := s.pages[id := s.pages[id] + 1],
       used := s.used + cfg.PageBytes(id))
  }

  /** The cache after item_alloc; the chunk handed out is on no list. */
  function Alloc(cfg: Config, s: Cache, id: nat): (r: Cache)
    requires Wf(cfg, s) && id < |s.lru|
    ensures Wf(cfg, r)
    ensures r.items == match AllocSource(cfg, s, id) case FromVictim(v) => s.items - {v} case _ => s.items
  {
    match AllocSource(cfg, s, id)
    case FromFree => TakeFree(cfg, s, id)
    case FromPool => TakeFree(cfg, AddPage(cfg, s, id), id)
    case FromVictim(victim) => TakeFree(cfg, Discard(cfg, s, victim), id)
    case FromNothing => s
  }

  // ----- the operations

  datatype Reply = Done(status: Status) | Value(val: Bytes, flags: Flags)
                 | Number(n: nat, flagsOut: Option<Flags>)

  function Get(cfg: Config, s: Cache, k: Bytes, mallocOk: bool): (Cache, Reply)
    requires Wf(cfg, s)
  {
    if k !in s.items then (s, Done(NotFound))
    else (Touch(cfg, s, k),
          if mallocOk then Value(s.items[k].val, s.items[k].flags) else Done(System))
  }

  function Getf(cfg: Config, s: Cache, k: Bytes, room: nat): (Cache, Reply)
    requires Wf(cfg, s)
  {
    if k !in s.items then (s, Done(NotFound))
    else (Touch(cfg, s, k),
          if room >= |s.items[k].val| then Value(s.items[k].val, s.items[k].flags) else Done(ESpace))
  }

  function Del(cfg: Config, s: Cache, k: Bytes): (r: (Cache, Reply))
    requires Wf(cfg, s)
    ensures Wf(cfg, r.0) && r.0.items == s.items - {k}
  {
    if k in s.items then (Discard(cfg, s, k), Done(OK)) else (s, Done(NotFound))
  }

  /** What set asks of its caller: an item that passes item_size_ok must have a class. */
  predicate SetDefined(cfg: Config, k: Bytes, nval: nat)
    requires cfg.Valid()
  {
    cfg.SizeOk(ItemSize(k, nval)) ==> HasClass(cfg, k, nval)
  }

  function Set(cfg: Config, s: Cache, k: Bytes, v: Bytes, f: Flags): (r: (Cache, Reply))
    requires Wf(cfg, s) && SetDefined(cfg, k, |v|)
  {
    if !cfg.SizeOk(ItemSize(k, |v|)) then (s, Done(ESize))
    else
      var s1 := Del(cfg, s, k).0;
      var id := Class(cfg, k, |v|);
      if AllocSource(cfg, s1, id).FromNothing? then (s1, Done(NoMemory))
      else (Insert(cfg, Alloc(cfg, s1, id), k, Entry(v, f)), Done(OK))
  }

  predicate AddDefined(cfg: Config, s: Cache, k: Bytes, nval: nat)
    requires cfg.Valid()
  {
    k in s.items || SetDefined(cfg, k, nval)
  }

  function AddNew(cfg: Config, s: Cache, k: Bytes, v: Bytes, f: Flags): (Cache, Reply)
    requires Wf(cfg, s) && AddDefined(cfg, s, k, |v|)
  {
    if k in s.items then (s, Done(Exist)) else Set(cfg, s, k, v, f)
  }

  /** replace asks for the class before it looks at the size. */
  predicate ReplaceDefined(cfg: Config, s: Cache, k: Bytes, nval: nat)
    requires cfg.Valid()
  {
    k !in s.items || HasClass(cfg, k, nval)
  }

  function Replace(cfg: Config, s: Cache, k: Bytes, v: Bytes, f: Flags): (Cache, Reply)
    requires Wf(cfg, s) && ReplaceDefined(cfg, s, k, |v|)
  {
    if k !in s.items then (s, Done(NotFound))
    else if ClassIn(cfg, s, k) == Class(cfg, k, |v|) then
      (Refresh(cfg, s, k, Entry(v, f)), Done(OK))
    else
      Set(cfg, Discard(cfg, s, k), k, v, f)
  }

  datatype End = Front | Back

  /** r is was with v in front of it, or behind it. */
  predicate Extends(was: Bytes, v: Bytes, end: End, r: Bytes) {
    && |r| == |was| + |v|
    && (end == Front ==> r[..|v|] == v && r[|v|..] == was)
    && (end == Back ==> r[..|was|] == was && r[|was|..] == v)
  }

  function Joined(was: Bytes, v: Bytes, end: End): (r: Bytes)
    ensures Extends(was, v, end, r)
  {
    if end == Front then v + was else was + v
  }

  predicate GrowDefined(cfg: Config, s: Cache, k: Bytes, nval: nat)
    requires cfg.Valid()
  {
    k !in s.items || HasClass(cfg, k, nval + |s.items[k].val|)
  }

  /** prepend and append.  On the growing path the code stores the new flags in the old item, so the
      flags of the result are whatever the new chunk held before: the stale argument. */
  function GrowValue(cfg: Config, s: Cache, k: Bytes, v: Bytes, f: Flags, end: End, stale: Flags): (Cache, Reply)
    requires Wf(cfg, s) && GrowDefined(cfg, s, k, |v|)
  {
    if k !in s.items then (s, Done(NotFound))
    else
      var val := Joined(s.items[k].val, v, end);
      var id := Class(cfg, k, |val|);
      if ClassIn(cfg, s, k) == id then (Refresh(cfg, s, k, Entry(val, f)), Done(OK))
      else if !cfg.SizeOk(ItemSize(k, |val|)) then (s, Done(ESize))
      else if AllocSource(cfg, s, id).FromNothing? then (s, Done(NoMemory))
      else (GrowMove(cfg, s, k, Entry(val, stale)), Done(OK))
  }

  /** The item of k moves to a new chunk of another class. */
  function GrowMove(cfg: Config, s: Cache, k: Bytes, e: Entry): (r: Cache)
    requires Wf(cfg, s) && k in s.items && HasClass(cfg, k, |e.val|)
    requires Class(cfg, k, |e.val|) != ClassIn(cfg, s, k)
    ensures Wf(cfg, r) && r.items == (Alloc(cfg, s, Class(cfg, k, |e.val|)).items - {k})[k := e]
  {
    var id := Class(cfg, k, |e.val|);
    GrowKeeps(cfg, s, k, id);
    Release(cfg, Insert(cfg, Remove(cfg, Alloc(cfg, s, id), k), k, e), ClassIn(cfg, s, k))
  }

  /** Growing into another class never evicts the item being grown. */
  lemma GrowKeeps(cfg: Config, s: Cache, k: Bytes, id: nat)
    requires Wf(cfg, s) && k in s.items && id < |s.lru| && ClassIn(cfg, s, k) != id
    ensures k in Alloc(cfg, s, id).items && Alloc(cfg, s, id).items[k] == s.items[k]
    ensures AllocSource(cfg, s, id) != FromVictim(k)
  {
    hide Class;
  }

  /** A chunk taken and put back. */
  lemma ReleaseTaken(cfg: Config, s: Cache, id: nat)
    requires Wf(cfg, s) && id < |s.free| && s.free[id] > 0
    ensures Release(cfg, TakeFree(cfg, s, id), id) == s
  {
    assert s.free[id := s.free[id] - 1][id := s.free[id]] == s.free;
  }

  lemma AllocFromVictim(cfg: Config, s: Cache, k: Bytes, id: nat)
    requires Wf(cfg, s) && id < |s.lru| && AllocSource(cfg, s, id) == FromVictim(k)
    ensures k in s.items && Release(cfg, Alloc(cfg, s, id), id) == Discard(cfg, s, k)
  {
    ReleaseTaken(cfg, Discard(cfg, s, k), id);
  }

  predicate ArithDefined(cfg: Config, s: Cache, k: Bytes)
    requires cfg.Valid()
  {
    || (k in s.items && |s.items[k].val| == CELL)
    || (k !in s.items && !cfg.defaultCounter)
    || (cfg.SizeOk(ItemSize(k, CELL)) && HasClass(cfg, k, CELL))
  }

  function Or(f: Option<Flags>, default: Flags): Flags {
    if f.Some? then f.value else default
  }

  function Echo(f: Option<Flags>, stored: Flags): Option<Flags> {
    if f.Some? then Some(stored) else None
  }

  /** incr and decr.  A value that is not already a counter cell moves to a new chunk; when that chunk
      comes from evicting the item itself, the item is gone although a number is returned. */
  function Arith(cfg: Config, s: Cache, k: Bytes, delta: nat, incr: bool, f: Option<Flags>): (Cache, Reply)
    requires Wf(cfg, s) && ArithDefined(cfg, s, k) && delta < U64
  {
    if k in s.items then
      var e := s.items[k];
      Counter.ReadBounded(e.val);
      var n := Counter.Step(Counter.Read(e.val), delta, incr);
      if |e.val| == CELL then
        (Rewrite(cfg, s, k, Entry(Counter.Cell(n, e.val), e.flags)), Number(n, Echo(f, e.flags)))
      else
        ArithMove(cfg, s, k, n, f)
    else if !cfg.defaultCounter then (s, Done(NotFound))
    else
      var id := Class(cfg, k, CELL);
      if AllocSource(cfg, s, id).FromNothing? then (s, Done(NoMemory))
      else MoveCell(cfg, Alloc(cfg, s, id), k, Counter.Step(0, delta, incr), f, 0)
  }

  /** The value of k, not a cell yet, is replaced by a cell holding n. */
  function ArithMove(cfg: Config, s: Cache, k: Bytes, n: nat, f: Option<Flags>): (Cache, Reply)
    requires Wf(cfg, s) && k in s.items && HasClass(cfg, k, CELL) && n < U64
  {
    var e, id := s.items[k], Class(cfg, k, CELL);
    var source := AllocSource(cfg, s, id);
    if source.FromNothing? then (s, Done(NoMemory))
    else if source == FromVictim(k) then (Discard(cfg, s, k), Number(n, Echo(f, e.flags)))
    else MoveCell(cfg, Discard(cfg, Alloc(cfg, s, id), k), k, n, f, e.flags)
  }

  /** A fresh counter cell for k. */
  function MoveCell(cfg: Config, s: Cache, k: Bytes, n: nat, f: Option<Flags>, flags: Flags): (Cache, Reply)
    requires Wf(cfg, s) && k !in s.items && HasClass(cfg, k, CELL) && n < U64
  {
    (Insert(cfg, s, k, Entry(Counter.Cell(n, Counter.Blank()), Or(f, flags))), Number(n, Echo(f, Or(f, flags))))
  }

  // ----- operations as data, and runs

  datatype Op =
    | OpGet(k: Bytes, mallocOk: bool)
    | OpGetf(k: Bytes, room: nat)
    | OpSet(k: Bytes, v: Bytes, f: Flags)
    | OpAdd(k: Bytes, v: Bytes, f: Flags)
    | OpReplace(k: Bytes, v: Bytes, f: Flags)
    | OpGrow(k: Bytes, v: Bytes, f: Flags, end: End, stale: Flags)
    | OpArith(k: Bytes, delta: nat, incr: bool, fo: Option<Flags>)
    | OpDel(k: Bytes)

  predicate Defined(cfg: Config, s: Cache, op: Op)
    requires cfg.Valid()
  {
    match op
    case OpSet(k, v, _) => SetDefined(cfg, k, |v|)
    case OpAdd(k, v, _) => AddDefined(cfg, s, k, |v|)
    case OpReplace(k, v, _) => ReplaceDefined(cfg, s, k, |v|)
    case OpGrow(k, v, _, _, _) => GrowDefined(cfg, s, k, |v|)
    case OpArith(k, delta, _, _) => delta < U64 && ArithDefined(cfg, s, k)
    case _ => true
  }

  function Apply(cfg: Config, s: Cache, op: Op): (Cache, Reply)
    requires Wf(cfg, s) && Defined(cfg, s, op)
  {
    match op
    case OpGet(k, mallocOk) => Get(cfg, s, k, mallocOk)
    case OpGetf(k, room) => Getf(cfg, s, k, room)
    case OpSet(k, v, f) => Set(cfg, s, k, v, f)
    case OpAdd(k, v, f) => AddNew(cfg, s, k, v, f)
    case OpReplace(k, v, f) => Replace(cfg, s, k, v, f)
    case OpGrow(k, v, f, end, stale) => GrowValue(cfg, s, k, v, f, end, stale)
    case OpArith(k, delta, incr, f) => Arith(cfg, s, k, delta, incr, f)
    case OpDel(k) => Del(cfg, s, k)
  }
}
