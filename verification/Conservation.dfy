/** Chunks and bytes are conserved: every operation keeps, for each class, as many chunks free or in use
    as its pages hold, and the pool within its limit. */
module Conservation {
  import opened Basics
  import opened Lists
  import opened Slabs
  import opened Cache
  import Counter

  /** Conservation while some chunks of class id are in the hands of an operation. */
  ghost predicate ConservedBut(cfg: Config, s: Cache, id: nat, inHand: nat) {
    && Shape(cfg, s)
    && (forall j :: 0 <= j < |s.lru| ==>
          s.pages[j] >= 1 &&
          |s.lru[j]| + s.free[j] + (if j == id then inHand else 0) == s.pages[j] * cfg.counts[j])
    && s.used == PoolBytes(cfg, s.pages, 0)
    && s.used < cfg.memLimit
  }

  lemma {:induction false} PoolGrows(cfg: Config, pages: seq<nat>, from: nat, id: nat)
    requires cfg.Valid() && |pages| == |cfg.sizes| && from <= id < |pages|
    ensures PoolBytes(cfg, pages[id := pages[id] + 1], from) == PoolBytes(cfg, pages, from) + cfg.PageBytes(id)
    decreases |pages| - from
  {
    var pages' := pages[id := pages[id] + 1];
    if from == id {
      PoolSame(cfg, pages, pages', from + 1);
      assert pages'[id] * cfg.PageBytes(id) == pages[id] * cfg.PageBytes(id) + cfg.PageBytes(id);
    } else {
      PoolGrows(cfg, pages, from + 1, id);
    }
  }

  lemma {:induction false} PoolSame(cfg: Config, pages: seq<nat>, pages': seq<nat>, from: nat)
    requires cfg.Valid() && |pages| == |pages'| == |cfg.sizes| && from <= |pages|
    requires forall j :: from <= j < |pages| ==> pages[j] == pages'[j]
    ensures PoolBytes(cfg, pages, from) == PoolBytes(cfg, pages', from)
    decreases |pages| - from
  {
    if from < |pages| {
      PoolSame(cfg, pages, pages', from + 1);
    }
  }

  lemma NextMultiple(p: nat, c: nat)
    ensures (p + 1) * c == p * c + c
  {
  }

  lemma RemoveConserves(cfg: Config, s: Cache, k: Bytes)
    requires Wf(cfg, s) && Conserved(cfg, s) && k in s.items
    ensures ConservedBut(cfg, Remove(cfg, s, k), ClassIn(cfg, s, k), 1)
  {
    var id := ClassIn(cfg, s, k);
    WithoutMembers(s.lru[id], k);
    hide Without, Class, PoolBytes;
  }

  lemma ReleaseConserves(cfg: Config, s: Cache, id: nat)
    requires Wf(cfg, s) && ConservedBut(cfg, s, id, 1) && id < |s.free|
    ensures Conserved(cfg, Release(cfg, s, id))
  {
    hide PoolBytes, Recency;
  }

  lemma DiscardConserves(cfg: Config, s: Cache, k: Bytes)
    requires Wf(cfg, s) && Conserved(cfg, s) && k in s.items
    ensures Conserved(cfg, Discard(cfg, s, k))
  {
    RemoveConserves(cfg, s, k);
    ReleaseConserves(cfg, Remove(cfg, s, k), ClassIn(cfg, s, k));
  }

  lemma TakeConserves(cfg: Config, s: Cache, id: nat)
    requires Wf(cfg, s) && Conserved(cfg, s) && id < |s.free| && s.free[id] > 0
    ensures ConservedBut(cfg, TakeFree(cfg, s, id), id, 1)
  {
    hide PoolBytes, Recency;
  }

  lemma PageConserves(cfg: Config, s: Cache, id: nat)
    requires Wf(cfg, s) && Conserved(cfg, s) && id < |s.free| && s.used + cfg.PageBytes(id) < cfg.memLimit
    ensures Conserved(cfg, AddPage(cfg, s, id))
  {
    PoolGrows(cfg, s.pages, 0, id);
    NextMultiple(s.pages[id], cfg.counts[id]);
    hide PoolBytes, Recency, Config.PageBytes;
  }

  lemma AllocConserves(cfg: Config, s: Cache, id: nat)
    requires Wf(cfg, s) && Conserved(cfg, s) && id < |s.lru|
    ensures !AllocSource(cfg, s, id).FromNothing? ==> ConservedBut(cfg, Alloc(cfg, s, id), id, 1)
  {
    ClassRange(cfg, s);
    hide Conserved, ConservedBut, Recency, Shape, Discard, AddPage, TakeFree, ClassIn;
    match AllocSource(cfg, s, id)
    case FromFree => TakeConserves(cfg, s, id);
    case FromPool =>
      PageConserves(cfg, s, id);
      TakeConserves(cfg, AddPage(cfg, s, id), id);
    case FromVictim(v) =>
      DiscardConserves(cfg, s, v);
      TakeConserves(cfg, Discard(cfg, s, v), id);
    case FromNothing =>
  }

  lemma InsertConserves(cfg: Config, s: Cache, k: Bytes, e: Entry)
    requires Wf(cfg, s) && k !in s.items && HasClass(cfg, k, |e.val|)
    requires ConservedBut(cfg, s, Class(cfg, k, |e.val|), 1)
    ensures Conserved(cfg, Insert(cfg, s, k, e))
  {
    hide PoolBytes, Class, Recency;
  }

  lemma TouchConserves(cfg: Config, s: Cache, k: Bytes)
    requires Wf(cfg, s) && Conserved(cfg, s) && k in s.items
    ensures Conserved(cfg, Touch(cfg, s, k))
  {
    var id := ClassIn(cfg, s, k);
    WithoutMembers(s.lru[id], k);
    hide Without, Class, PoolBytes;
  }

  lemma RewriteConserves(cfg: Config, s: Cache, k: Bytes, e: Entry)
    requires Wf(cfg, s) && k in s.items && HasClass(cfg, k, |e.val|) && Conserved(cfg, s)
    requires Class(cfg, k, |e.val|) == ClassIn(cfg, s, k)
    ensures Conserved(cfg, Rewrite(cfg, s, k, e))
  {
    hide PoolBytes, Class, Recency;
  }

  // ----- the operations

  lemma SetKeeps(cfg: Config, s: Cache, k: Bytes, v: Bytes, f: Flags)
    requires Inv(cfg, s) && SetDefined(cfg, k, |v|)
    ensures Inv(cfg, Set(cfg, s, k, v, f).0)
  {
    hide Conserved, ConservedBut, Discard, Alloc, Insert, AllocSource, ClassIn, Class, Shape, Recency;
    ClassRange(cfg, s);
    if cfg.SizeOk(ItemSize(k, |v|)) {
      if k in s.items { DiscardConserves(cfg, s, k); }
      var s1 := Del(cfg, s, k).0;
      var id := Class(cfg, k, |v|);
      ClassRange(cfg, s1);
      AllocConserves(cfg, s1, id);
      if !AllocSource(cfg, s1, id).FromNothing? {
        InsertConserves(cfg, Alloc(cfg, s1, id), k, Entry(v, f));
      }
    }
  }

  lemma ClassRange(cfg: Config, s: Cache)
    requires Shape(cfg, s)
    ensures cfg.Valid() && |s.lru| == |s.free| == |s.pages| == |cfg.sizes|
  {
  }

  lemma ReplaceKeeps(cfg: Config, s: Cache, k: Bytes, v: Bytes, f: Flags)
    requires Inv(cfg, s) && ReplaceDefined(cfg, s, k, |v|)
    ensures Inv(cfg, Replace(cfg, s, k, v, f).0)
  {
    hide Conserved, Discard, Set, Touch, Rewrite, Class, Shape, Recency;
    ClassRange(cfg, s);
    if k in s.items {
      if ClassIn(cfg, s, k) == Class(cfg, k, |v|) {
        TouchConserves(cfg, s, k);
        RewriteConserves(cfg, Touch(cfg, s, k), k, Entry(v, f));
      } else {
        DiscardConserves(cfg, s, k);
        SetKeeps(cfg, Discard(cfg, s, k), k, v, f);
      }
    }
  }

  /** In the middle of a growing append or prepend two chunks are in hand, of different classes. */
  lemma GrowConserves(cfg: Config, s: Cache, k: Bytes, e: Entry)
    requires Wf(cfg, s) && Conserved(cfg, s) && k in s.items && HasClass(cfg, k, |e.val|)
    requires ClassIn(cfg, s, k) != Class(cfg, k, |e.val|)
    requires !AllocSource(cfg, s, Class(cfg, k, |e.val|)).FromNothing?
    requires k in Alloc(cfg, s, Class(cfg, k, |e.val|)).items
    requires Alloc(cfg, s, Class(cfg, k, |e.val|)).items[k] == s.items[k]
    ensures var id, was := Class(cfg, k, |e.val|), ClassIn(cfg, s, k);
            Conserved(cfg, Release(cfg, Insert(cfg, Remove(cfg, Alloc(cfg, s, id), k), k, e), was))
  {
    var id, was := Class(cfg, k, |e.val|), ClassIn(cfg, s, k);
    AllocConserves(cfg, s, id);
    var t := Alloc(cfg, s, id);
    assert ClassIn(cfg, t, k) == was;
    hide Alloc, AllocSource, PoolBytes, Class;
    WithoutMembers(t.lru[was], k);
    hide Without;
    var u := Remove(cfg, t, k);
    var w := Insert(cfg, u, k, e);
    assert |w.lru[was]| == |t.lru[was]| - 1 && |w.lru[id]| == |t.lru[id]| + 1;
  }

  lemma GrowKeepsInv(cfg: Config, s: Cache, k: Bytes, v: Bytes, f: Flags, end: End, stale: Flags)
    requires Inv(cfg, s) && GrowDefined(cfg, s, k, |v|)
    ensures Inv(cfg, GrowValue(cfg, s, k, v, f, end, stale).0)
  {
    hide Conserved, Alloc, AllocSource, Touch, Rewrite, Class, Shape, Recency, Insert, Remove, Release;
    ClassRange(cfg, s);
    if k in s.items {
      var e := Entry(Joined(s.items[k].val, v, end), stale);
      var id := Class(cfg, k, |e.val|);
      if ClassIn(cfg, s, k) == id {
        TouchConserves(cfg, s, k);
        RewriteConserves(cfg, Touch(cfg, s, k), k, e.(flags := f));
      } else if cfg.SizeOk(ItemSize(k, |e.val|)) && !AllocSource(cfg, s, id).FromNothing? {
        GrowKeeps(cfg, s, k, id);
        GrowConserves(cfg, s, k, e);
      }
    }
  }

  lemma MoveConserves(cfg: Config, s: Cache, k: Bytes, n: nat, f: Option<Flags>, flags: Flags)
    requires Wf(cfg, s) && k !in s.items && HasClass(cfg, k, CELL) && n < U64
    requires ConservedBut(cfg, s, Class(cfg, k, CELL), 1)
    ensures Inv(cfg, MoveCell(cfg, s, k, n, f, flags).0)
  {
    InsertConserves(cfg, s, k, Entry(Counter.Cell(n, Counter.Blank()), Or(f, flags)));
    hide Insert, Shape, Recency, Conserved;
  }

  /** Discarding one item while a chunk of some class is in hand. */
  lemma DiscardBut(cfg: Config, s: Cache, k: Bytes, id: nat)
    requires Wf(cfg, s) && k in s.items && ConservedBut(cfg, s, id, 1)
    ensures ConservedBut(cfg, Discard(cfg, s, k), id, 1)
  {
    var was := ClassIn(cfg, s, k);
    WithoutMembers(s.lru[was], k);
    hide Without, Class, PoolBytes;
  }

  lemma ArithKeeps(cfg: Config, s: Cache, k: Bytes, delta: nat, incr: bool, f: Option<Flags>)
    requires Inv(cfg, s) && ArithDefined(cfg, s, k) && delta < U64
    ensures Inv(cfg, Arith(cfg, s, k, delta, incr, f).0)
  {
    hide Conserved, ConservedBut, Discard, Alloc, Insert, AllocSource, ClassIn, Class, Shape, Recency, MoveCell,
         Counter.Read, Counter.Cell, Counter.Step;
    ClassRange(cfg, s);
    if k in s.items {
      var e := s.items[k];
      Counter.ReadBounded(e.val);
      var n := Counter.Step(Counter.Read(e.val), delta, incr);
      if |e.val| == CELL {
        SameClass(cfg, s, k, Entry(Counter.Cell(n, e.val), e.flags));
        RewriteConserves(cfg, s, k, Entry(Counter.Cell(n, e.val), e.flags));
      } else {
        var id := Class(cfg, k, CELL);
        var source := AllocSource(cfg, s, id);
        if source == FromVictim(k) {
          DiscardConserves(cfg, s, k);
        } else if !source.FromNothing? {
          AllocConserves(cfg, s, id);
          DiscardBut(cfg, Alloc(cfg, s, id), k, id);
          MoveConserves(cfg, Discard(cfg, Alloc(cfg, s, id), k), k, n, f, e.flags);
        }
      }
    } else if cfg.defaultCounter {
      var id := Class(cfg, k, CELL);
      AllocConserves(cfg, s, id);
      if !AllocSource(cfg, s, id).FromNothing? {
        MoveConserves(cfg, Alloc(cfg, s, id), k, Counter.Step(0, delta, incr), f, 0);
      }
    }
  }

  lemma SameClass(cfg: Config, s: Cache, k: Bytes, e: Entry)
    requires Shape(cfg, s) && k in s.items && |e.val| == |s.items[k].val|
    ensures HasClass(cfg, k, |e.val|) && Class(cfg, k, |e.val|) == ClassIn(cfg, s, k)
  {
  }

  /** Every operation keeps the invariant, conservation included. */
  lemma ApplyKeeps(cfg: Config, s: Cache, op: Op)
    requires Inv(cfg, s) && Defined(cfg, s, op)
    ensures Inv(cfg, Apply(cfg, s, op).0)
  {
    hide Conserved, Set, Replace, GrowValue, Arith, Touch, Discard, Shape, Recency;
    match op
    case OpGet(k, _) => if k in s.items { TouchConserves(cfg, s, k); }
    case OpGetf(k, _) => if k in s.items { TouchConserves(cfg, s, k); }
    case OpSet(k, v, f) => SetKeeps(cfg, s, k, v, f);
    case OpAdd(k, v, f) => if k !in s.items { SetKeeps(cfg, s, k, v, f); }
    case OpReplace(k, v, f) => ReplaceKeeps(cfg, s, k, v, f);
    case OpGrow(k, v, f, end, stale) => GrowKeepsInv(cfg, s, k, v, f, end, stale);
    case OpArith(k, delta, incr, f) => ArithKeeps(cfg, s, k, delta, incr, f);
    case OpDel(k) => if k in s.items { DiscardConserves(cfg, s, k); }
  }

  // ----- a new store

  function Empties(n: nat): (r: seq<seq<Bytes>>)
    ensures |r| == n && forall i :: 0 <= i < n ==> r[i] == []
  {
    seq(n, i => [])
  }

  function Zeros(n: nat): (r: seq<nat>)
    ensures |r| == n && forall i :: 0 <= i < n ==> r[i] == 0
  {
    seq(n, i => 0)
  }

  function Ones(n: nat): (r: seq<nat>)
    ensures |r| == n && forall i :: 0 <= i < n ==> r[i] == 1
  {
    seq(n, i => 1)
  }

  function Bare(cfg: Config): (s: Cache)
    requires cfg.Valid()
    ensures Wf(cfg, s)
  {
    var n := |cfg.sizes|;
    Cache(map[], Empties(n), Zeros(n), Zeros(n), 0)
  }

  /** The store while format_slabs carves the first page of each class in turn. */
  function Formatting(cfg: Config, done: nat): (s: Cache)
    requires cfg.Valid() && done <= |cfg.sizes|
    ensures Wf(cfg, s) && |s.lru| == |s.free| == |s.pages| == |cfg.sizes|
  {
    if done == 0 then Bare(cfg) else AddPage(cfg, Formatting(cfg, done - 1), done - 1)
  }

  function Fresh(cfg: Config): (s: Cache)
    requires cfg.Valid()
    ensures Wf(cfg, s)
  {
    Formatting(cfg, |cfg.sizes|)
  }

  /** The first pages of all classes fit, as format_slabs asserts. */
  ghost predicate FirstPagesFit(cfg: Config)
    requires cfg.Valid()
  {
    PoolBytes(cfg, Ones(|cfg.sizes|), 0) < cfg.memLimit
  }

  lemma {:induction false} FormattingFacts(cfg: Config, done: nat)
    requires cfg.Valid() && done <= |cfg.sizes|
    ensures var s := Formatting(cfg, done);
            && s.items == map[] && s.lru == Empties(|cfg.sizes|)
            && (forall j :: 0 <= j < |cfg.sizes| ==> s.pages[j] == if j < done then 1 else 0)
            && (forall j :: 0 <= j < |cfg.sizes| ==> s.free[j] == if j < done then cfg.counts[j] else 0)
            && s.used == PoolBytes(cfg, s.pages, 0)
    decreases done
  {
    if done == 0 {
      PoolNone(cfg, 0);
    } else {
      FormattingFacts(cfg, done - 1);
      PoolGrows(cfg, Formatting(cfg, done - 1).pages, 0, done - 1);
      hide PoolBytes, Recency, Config.PageBytes;
    }
  }

  lemma {:induction false} PoolNone(cfg: Config, from: nat)
    requires cfg.Valid() && from <= |cfg.sizes|
    ensures PoolBytes(cfg, Zeros(|cfg.sizes|), from) == 0
    decreases |cfg.sizes| - from
  {
    if from < |cfg.sizes| { PoolNone(cfg, from + 1); }
  }

  /** More pages, more bytes. */
  lemma {:induction false} PoolMonotone(cfg: Config, p: seq<nat>, q: seq<nat>, from: nat)
    requires cfg.Valid() && |p| == |q| == |cfg.sizes| && from <= |p|
    requires forall j :: from <= j < |p| ==> p[j] <= q[j]
    ensures PoolBytes(cfg, p, from) <= PoolBytes(cfg, q, from)
    decreases |p| - from
  {
    if from < |p| {
      PoolMonotone(cfg, p, q, from + 1);
      LessTimes(p[from], q[from], cfg.PageBytes(from));
    }
  }

  lemma FormattingFits(cfg: Config, done: nat)
    requires cfg.Valid() && FirstPagesFit(cfg) && done < |cfg.sizes|
    ensures Formatting(cfg, done).used + cfg.PageBytes(done) < cfg.memLimit
  {
    hide PoolBytes, Config.PageBytes, Config.Valid, Formatting, Recency;
    FormattingFacts(cfg, done);
    var s := Formatting(cfg, done);
    PoolGrows(cfg, s.pages, 0, done);
    PoolMonotone(cfg, s.pages[done := s.pages[done] + 1], Ones(|cfg.sizes|), 0);
  }

  /** A new store satisfies the invariant. */
  lemma FreshInv(cfg: Config)
    requires cfg.Valid() && FirstPagesFit(cfg)
    ensures Inv(cfg, Fresh(cfg)) && Fresh(cfg).items == map[]
  {
    FormattingFacts(cfg, |cfg.sizes|);
    assert Fresh(cfg).pages == Ones(|cfg.sizes|);
    hide PoolBytes, Recency, Config.PageBytes;
  }
}
