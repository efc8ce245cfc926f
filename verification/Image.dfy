/** The mapped area as a value, and item_relink on it one memory write at a time.

    Other processes see the area between any two of these writes, so the concurrent model works on
    images rather than on calls. */
module Image {
  import opened Basics
  import opened Lists
  import opened Slabs
  import opened Heap
  import opened Store
  import C = Cache
  import Conservation

  /** What readers never write. */
  datatype Fixed = Fixed(hnext: seq<Addr>, buckets: seq<Addr>, meta: seq<Meta>, raw: Bytes, slabs: seq<Slab>,
                         memUsed: nat, nitems: nat)

  datatype Mem = Mem(next: seq<Addr>, prev: seq<Addr>, heads: seq<Addr>, tails: seq<Addr>, fixed: Fixed)

  ghost predicate ListPart(cfg: Config, m: Mem, g: Links) {
    && LruLists(m.next, m.prev, m.heads, m.tails, g.lru)
    && FreeLists(m.next, m.fixed.slabs, g.free)
    && Own(|cfg.sizes|, |m.next|, g)
  }

  ghost predicate Dims(cfg: Config, base: Addr, m: Mem) {
    && cfg.Valid() && cfg.nbuckets > 0 && base > 0
    && |m.next| == |m.prev| == |m.fixed.hnext| == |m.fixed.meta| == |m.fixed.raw| == base + cfg.memLimit
    && |m.heads| == |m.tails| == |m.fixed.slabs| == |cfg.sizes| && |m.fixed.buckets| == cfg.nbuckets
  }

  ghost predicate SizePart(cfg: Config, slabs: seq<Slab>)
    requires |slabs| == |cfg.sizes| == |cfg.counts|
  {
    forall id :: 0 <= id < |slabs| ==> slabs[id].size == cfg.sizes[id] && slabs[id].count == cfg.counts[id]
  }

  ghost predicate FixedPart(cfg: Config, base: Addr, f: Fixed, g: Links, s: C.Cache) {
    && ChainLists(f.hnext, f.buckets, g.chains) && Indexed(cfg.nbuckets, g) && f.nitems == |g.loc|
    && Content(cfg, f.raw, f.meta, g, s.items)
    && Pool(cfg, base, base + f.memUsed, g.cls) && f.memUsed < cfg.memLimit
    && Listed(g) && Abstracts(cfg, g, f.memUsed, s)
  }

  /** The image holds the abstract cache s, with everything in order. */
  ghost predicate Rep(cfg: Config, base: Addr, m: Mem, g: Links, s: C.Cache) {
    && Dims(cfg, base, m) && SizePart(cfg, m.fixed.slabs)
    && ListPart(cfg, m, g) && FixedPart(cfg, base, m.fixed, g, s)
    && C.Inv(cfg, s) && g.held == {}
  }

  ghost function Snapshot(m: Shmc): Mem
    reads m, m.next, m.prev, m.hnext, m.meta, m.raw, m.heads, m.tails, m.buckets, m.slabs
  {
    Mem(m.next[..], m.prev[..], m.heads[..], m.tails[..],
        Fixed(m.hnext[..], m.buckets[..], m.meta[..], m.raw[..], m.slabs[..], m.memUsed, m.nitems))
  }

  /** What every operation of the store leaves behind is such an image. */
  lemma ValidIsRep(m: Shmc)
    requires m.Valid()
    ensures Rep(m.cfg, m.base, Snapshot(m), m.g, m.abs)
  {
    hide LruLists, FreeLists, ChainLists, Own, Indexed, Listed, Content, Pool, Abstracts, Config.Valid, C.Inv;
  }

  /** And every such image is a store: what a process that attaches to it finds. */
  method Attached(cfg: Config, base: Addr, mem: Mem, ghost g: Links, ghost s: C.Cache) returns (m: Shmc)
    requires Rep(cfg, base, mem, g, s)
    ensures m.Valid() && Snapshot(m) == mem && m.cfg == cfg && m.base == base && m.g == g && m.abs == s
    ensures fresh(m) && fresh(m.next) && fresh(m.prev) && fresh(m.hnext) && fresh(m.meta) && fresh(m.raw)
    ensures fresh(m.heads) && fresh(m.tails) && fresh(m.buckets) && fresh(m.slabs)
  {
    hide LruLists, FreeLists, ChainLists, Own, Indexed, Listed, Content, Pool, Abstracts, Config.Valid, C.Inv;
    var f := mem.fixed;
    m := new Shmc.Attach(cfg, base, mem.next, mem.prev, f.hnext, f.meta, f.raw, mem.heads, mem.tails, f.buckets,
                         f.slabs, f.memUsed, f.nitems, g, s);
  }

  /** A store is valid exactly when its arrays are disjoint and hold such an image. */
  lemma ValidIff(m: Shmc)
    ensures m.Valid() <==> m.Dims() && Rep(m.cfg, m.base, Snapshot(m), m.g, m.abs)
  {
    hide LruLists, FreeLists, ChainLists, Own, Indexed, Listed, Content, Pool, Abstracts, Config.Valid, C.Inv;
  }

  // ----- item_relink, write by write

  function Get(s: seq<Addr>, i: Addr): Addr {
    if i < |s| then s[i] else 0
  }

  function Put(s: seq<Addr>, i: Addr, v: Addr): (r: seq<Addr>)
    ensures |r| == |s|
  {
    if i < |s| then s[i := v] else s
  }

  const WRITES: nat := 9

  /** The j-th statement of item_unlink followed by item_link on the item of class c. */
  function Write(m: Mem, item: Addr, c: nat, j: nat): (r: Mem)
    ensures r.fixed == m.fixed
  {
    match j
    case 0 => if Get(m.heads, c) == item then m.(heads := Put(m.heads, c, Get(m.next, item))) else m
    case 1 => if Get(m.tails, c) == item then m.(tails := Put(m.tails, c, Get(m.prev, item))) else m
    case 2 => if Get(m.next, item) != 0 then m.(prev := Put(m.prev, Get(m.next, item), Get(m.prev, item))) else m
    case 3 => if Get(m.prev, item) != 0 then m.(next := Put(m.next, Get(m.prev, item), Get(m.next, item))) else m
    case 4 => m.(prev := Put(m.prev, item, 0))
    case 5 => m.(next := Put(m.next, item, Get(m.heads, c)))
    case 6 => if Get(m.next, item) != 0 then m.(prev := Put(m.prev, Get(m.next, item), item)) else m
    case 7 => m.(heads := Put(m.heads, c, item))
    case 8 => if Get(m.tails, c) == 0 then m.(tails := Put(m.tails, c, item)) else m
    case _ => m
  }

  /** The first j of them. */
  function Writes(m: Mem, item: Addr, c: nat, j: nat): (r: Mem)
    ensures r.fixed == m.fixed
  {
    if j == 0 then m else Write(Writes(m, item, c, j - 1), item, c, j - 1)
  }

  lemma FourWrites(m: Mem, item: Addr, c: nat)
    requires item < |m.next| == |m.prev| && c < |m.heads| == |m.tails|
    requires m.next[item] < |m.next| && m.prev[item] < |m.next|
    ensures Writes(m, item, c, 4) == m.(
              next := UnlinkNext(m.next, m.prev, item), prev := UnlinkPrev(m.next, m.prev, item),
              heads := m.heads[c := if m.heads[c] == item then m.next[item] else m.heads[c]],
              tails := m.tails[c := if m.tails[c] == item then m.prev[item] else m.tails[c]])
  {
    assert m.heads[c := m.heads[c]] == m.heads && m.tails[c := m.tails[c]] == m.tails;
    assert Writes(m, item, c, 0) == m;
    assert Writes(m, item, c, 1) == m.(heads := m.heads[c := if m.heads[c] == item then m.next[item] else m.heads[c]]);
    var m2 := Writes(m, item, c, 2);
    assert m2 == m.(heads := m.heads[c := if m.heads[c] == item then m.next[item] else m.heads[c]],
                    tails := m.tails[c := if m.tails[c] == item then m.prev[item] else m.tails[c]]);
    assert m2.prev[m.next[item] := m2.prev[item]][item] == m2.prev[item];
    assert Writes(m, item, c, 3) == m2.(prev := UnlinkPrev(m.next, m.prev, item));
  }

  lemma FiveMore(m: Mem, m0: Mem, item: Addr, c: nat)
    requires item < |m.next| == |m.prev| && c < |m.heads| == |m.tails| && m.heads[c] < |m.next|
    requires Writes(m0, item, c, 4) == m
    ensures Writes(m0, item, c, WRITES) == m.(
              next := LinkNext(m.next, m.heads[c], item), prev := LinkPrev(m.prev, m.heads[c], item),
              heads := m.heads[c := item],
              tails := m.tails[c := if m.tails[c] == 0 then item else m.tails[c]])
  {
    assert m.tails[c := m.tails[c]] == m.tails;
    assert Writes(m0, item, c, 5) == m.(prev := m.prev[item := 0]);
    var m6 := Writes(m0, item, c, 6);
    assert m6 == m.(prev := m.prev[item := 0], next := LinkNext(m.next, m.heads[c], item));
    var m7 := Writes(m0, item, c, 7);
    assert m7 == m6.(prev := LinkPrev(m.prev, m.heads[c], item));
  }

  /** All of them together are item_relink: from one image in order to the next. */
  lemma WritesRelink(cfg: Config, base: Addr, m: Mem, g: Links, s: C.Cache, key: Bytes)
    requires Rep(cfg, base, m, g, s) && key in g.loc
    ensures var a := g.loc[key];
            && a < |m.fixed.meta| && m.fixed.meta[a].clsid < |g.lru| && key in s.items
            && C.Wf(cfg, s)
            && Rep(cfg, base, Writes(m, a, m.fixed.meta[a].clsid, WRITES), Relinked(g, a, m.fixed.meta[a].clsid),
                   C.Touch(cfg, s, key))
  {
    hide LruLists, FreeLists, ChainLists, Own, Indexed, Listed, Content, Pool, Abstracts, Config.Valid, C.Shape,
         C.Recency, C.Conserved, C.Touch, C.ClassIn, Writes;
    var f := m.fixed;
    ChunkFacts(cfg, f.raw, f.meta, cfg.nbuckets, g, f.memUsed, s, key);
    var a := g.loc[key];
    var id := g.cls[a];
    WritesLists(cfg, m, g, a, id);
    assert NoDup(g.lru[id]) by { ListNoDup(m, g, id); }
    RelinkListed(g, a, id);
    RelinkAbstracts(cfg, cfg.nbuckets, g, f.memUsed, s, key);
    RelinkFrame(cfg, f.raw, f.meta, cfg.nbuckets, g, Relinked(g, a, id), s.items);
    Conservation.TouchConserves(cfg, s, key);
  }

  lemma ListNoDup(m: Mem, g: Links, id: nat)
    requires LruLists(m.next, m.prev, m.heads, m.tails, g.lru) && id < |g.lru|
    ensures NoDup(g.lru[id])
  {
    assert DList(m.next, m.prev, m.heads[id], m.tails[id], g.lru[id]);
  }

  lemma WritesLists(cfg: Config, m: Mem, g: Links, a: Addr, id: nat)
    requires ListPart(cfg, m, g) && id < |g.lru| == |cfg.sizes| && a in g.lru[id] && a in g.cls && g.cls[a] == id
    ensures var m' := Writes(m, a, id, WRITES);
            && ListPart(cfg, m', Relinked(g, a, id))
            && |m'.next| == |m.next| && |m'.prev| == |m.prev| && |m'.heads| == |m.heads| && |m'.tails| == |m.tails|
  {
    ListNoDup(m, g, id);
    LruLengths(m, g);
    hide LruLists, FreeLists, Own, Writes, Without;
    UnlinkLru(m.next, m.prev, m.heads, m.tails, g, a, id);
    UnlinkFree(m.next, m.prev, m.heads, m.tails, m.fixed.slabs, g, a, id);
    UnlinkOwn(|m.next|, g, a, id);
    FourWrites(m, a, id);
    var u, g1 := Writes(m, a, id, 4), Unlinked(g, a, id);
    LinkLru(u.next, u.prev, u.heads, u.tails, g1, a, id);
    LinkFree(u.next, m.fixed.slabs, u.heads[id], g1, a);
    LinkOwn(|u.next|, g1, a, id);
    FiveMore(u, m, a, id);
  }

  lemma LruLengths(m: Mem, g: Links)
    requires LruLists(m.next, m.prev, m.heads, m.tails, g.lru)
    ensures |m.heads| == |m.tails| == |g.lru| && |m.prev| == |m.next|
  {
  }
}
