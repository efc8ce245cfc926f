/** The store itself: the methods of shmc.c over arrays indexed by relative address.

    Field f of the item at address a is f[a] (links) or meta[a].f; its key and value are bytes of raw
    behind a header.  The ghost fields say which chunk is where and which abstract cache this is. */
module Store {
  import opened Basics
  import opened Lists
  import opened Slabs
  import opened Heap
  import C = Cache
  import Conservation
  import Counter
  import Lookup3
  import Outcomes
  import Runs

  /** The flags are those in the header of the chunk: for an evicted item's chunk, that item's. */
  ghost predicate FromHeader(cfg: Config, s: C.Cache, id: nat, chunk: Addr, meta: seq<Meta>, stale: C.Flags)
    requires C.Wf(cfg, s) && id < |s.lru|
  {
    && chunk < |meta| && stale == meta[chunk].flags
    && (C.AllocSource(cfg, s, id).FromVictim? ==> stale == s.items[C.AllocSource(cfg, s, id).key].flags)
  }

  /** No header but that of one chunk has changed. */
  ghost predicate OnlyHeader(was: seq<Meta>, now: seq<Meta>, chunk: Addr) {
    |now| == |was| && forall a :: 0 <= a < |was| && a != chunk ==> now[a] == was[a]
  }

  /** A growing append or prepend, once it is clear that the value belongs to class id. */
  ghost function Moved(cfg: Config, s: C.Cache, key: Bytes, val: Bytes, end: C.End, stale: C.Flags,
                       id: nat): (C.Cache, C.Reply)
    requires C.Wf(cfg, s) && key in s.items && C.HasClass(cfg, key, |val| + |s.items[key].val|)
    requires id == C.Class(cfg, key, |val| + |s.items[key].val|) != C.ClassIn(cfg, s, key) && id < |s.lru|
  {
    if C.AllocSource(cfg, s, id).FromNothing? then (s, C.Done(C.NoMemory))
    else (C.GrowMove(cfg, s, key, C.Entry(C.Joined(s.items[key].val, val, end), stale)), C.Done(C.OK))
  }

  /** The mapping is zero-filled: no header has been written. */
  ghost predicate NoHeaders(meta: seq<Meta>) {
    forall a :: 0 <= a < |meta| ==> meta[a] == Meta(0, 0, 0, 0)
  }

  lemma OnlyTwice(a: seq<Meta>, b: seq<Meta>, c: seq<Meta>, chunk: Addr)
    requires OnlyHeader(a, b, chunk) && OnlyHeader(b, c, chunk)
    ensures OnlyHeader(a, c, chunk)
  {
  }

  class Shmc {
    const cfg: Config
    const base: Addr                // where the raw memory starts
    const next: array<Addr>
    const prev: array<Addr>
    const hnext: array<Addr>
    const meta: array<Meta>
    const raw: array<byte>
    const heads: array<Addr>
    const tails: array<Addr>
    const buckets: array<Addr>
    const slabs: array<Slab>
    var memUsed: nat
    var nitems: nat
    ghost var g: Links
    ghost var abs: C.Cache

    // ----- the invariant, part by part

    ghost predicate Dims() {
      && cfg.Valid() && cfg.nbuckets > 0 && base > 0
      && next.Length == prev.Length == hnext.Length == meta.Length == raw.Length == base + cfg.memLimit
      && heads.Length == tails.Length == slabs.Length == |cfg.sizes|
      && buckets.Length == cfg.nbuckets
      && next != prev && next != hnext && next != heads && next != tails && next != buckets
      && prev != hnext && prev != heads && prev != tails && prev != buckets
      && hnext != heads && hnext != tails && hnext != buckets
      && heads != tails && heads != buckets && tails != buckets
      && raw as object != next && raw as object != prev && raw as object != hnext && raw as object != heads
      && raw as object != tails && raw as object != buckets && raw as object != slabs && raw as object != meta
    }

    ghost predicate LruOk()
      reads this, next, prev, heads, tails
    {
      LruLists(next[..], prev[..], heads[..], tails[..], g.lru)
    }

    ghost predicate FreeOk()
      reads this, next, slabs
    {
      FreeLists(next[..], slabs[..], g.free)
    }

    ghost predicate SizesOk()
      requires Dims()
      reads slabs
    {
      forall id :: 0 <= id < slabs.Length ==> slabs[id].size == cfg.sizes[id] && slabs[id].count == cfg.counts[id]
    }

    ghost predicate ChainsOk()
      reads this, hnext, buckets
    {
      ChainLists(hnext[..], buckets[..], g.chains) && Indexed(cfg.nbuckets, g) && nitems == |g.loc|
    }

    ghost predicate OwnOk()
      reads this
    {
      Own(|cfg.sizes|, next.Length, g)
    }

    ghost predicate ContentOk()
      reads this, raw, meta
    {
      Content(cfg, raw[..], meta[..], g, abs.items)
    }

    ghost predicate PoolOk()
      reads this
    {
      Pool(cfg, base, base + memUsed, g.cls) && memUsed < cfg.memLimit
    }

    /** Every list is in order. */
    ghost predicate Structure()
      reads this, next, prev, hnext, heads, tails, buckets, slabs
    {
      Dims() && SizesOk() && LruOk() && FreeOk() && OwnOk() && ChainsOk()
    }

    /** Additionally, chunks are disjoint, and the lists are those of the abstract cache. */
    ghost predicate Frame()
      reads this, next, prev, hnext, heads, tails, buckets, slabs
    {
      Structure() && PoolOk() && Listed(g) && Abstracts(cfg, g, memUsed, abs)
    }

    /** Additionally, every item's header and bytes are what the abstract cache says. */
    ghost predicate Good()
      reads this, next, prev, hnext, meta, raw, heads, tails, buckets, slabs
    {
      Frame() && ContentOk()
    }

    /** The same, but for the item at a, whose header and bytes are still being written. */
    ghost predicate Open(a: Addr)
      reads this, next, prev, hnext, meta, raw, heads, tails, buckets, slabs
    {
      Frame() && a in g.keyOf && a in g.cls && OpenContent(cfg, raw[..], meta[..], g, abs.items, a)
    }

    /** The invariant between operations: no chunk is in anybody's hands, and chunks are conserved. */
    ghost predicate Valid()
      reads this, next, prev, hnext, meta, raw, heads, tails, buckets, slabs
    {
      C.Inv(cfg, abs) && Good() && g.held == {}
    }

    // ----- item_clsid

    method ItemClsid(size: nat) returns (id: nat)
      requires Dims() && SizesOk() && size <= cfg.Last()
      ensures id == cfg.ClassOf(size)
    {
      id := 0;
      while size > slabs[id].size
        invariant id < |cfg.sizes|
        invariant cfg.ClassFrom(size, id) == cfg.ClassOf(size)
        decreases |cfg.sizes| - id
      {
        id := id + 1;
      }
    }

    // ----- LRU lists

    method ItemLink(item: Addr)
      requires Dims() && LruOk() && FreeOk() && OwnOk()
      requires item in g.held && meta[item].clsid == g.cls[item]
      modifies next, prev, heads, tails, `g
      ensures LruOk() && FreeOk() && OwnOk()
      ensures g == Linked(old(g), item, meta[item].clsid)
    {
      hide LruLists, FreeLists, Own, Config.Valid;
      OwnFacts(|cfg.sizes|, next.Length, g, item);
      ghost var id := g.cls[item];
      LinkLru(next[..], prev[..], heads[..], tails[..], g, item, id);
      LinkFree(next[..], slabs[..], heads[id], g, item);
      LinkOwn(next.Length, g, item, id);
      var clsid := meta[item].clsid;
      prev[item] := 0;
      next[item] := heads[clsid];
      if next[item] != 0 {
        prev[next[item]] := item;
      }
      heads[clsid] := item;
      if tails[clsid] == 0 {
        tails[clsid] := item;
      }
      assert next[..] == LinkNext(old(next[..]), old(heads[id]), item);
      assert prev[..] == LinkPrev(old(prev[..]), old(heads[id]), item);
      assert tails[..] == old(tails[..])[id := if old(tails[id]) == 0 then item else old(tails[id])];
      g := Linked(g, item, id);
    }

    /** On a chunk that is on no list, and whose links are null, this does nothing; shmc_arithmetic
        calls it so when the allocation has evicted the very item being updated. */
    method ItemUnlink(item: Addr)
      requires Dims() && LruOk() && FreeOk() && OwnOk()
      requires item < meta.Length && meta[item].clsid < |g.lru|
      requires item in g.lru[meta[item].clsid] || (item in g.held && next[item] == 0 == prev[item])
      modifies next, prev, heads, tails, `g
      ensures LruOk() && FreeOk() && OwnOk()
      ensures g == if old(item in g.lru[meta[item].clsid]) then Unlinked(old(g), item, meta[item].clsid) else old(g)
    {
      ghost var id := meta[item].clsid;
      assert NoDup(g.lru[id]) by { assert DList(next[..], prev[..], heads[..][id], tails[..][id], g.lru[id]); }
      hide LruLists, FreeLists, Own, Config.Valid;
      OwnFacts(|cfg.sizes|, next.Length, g, item);
      ghost var linked := item in g.lru[id];
      if linked {
        UnlinkLru(next[..], prev[..], heads[..], tails[..], g, item, id);
        UnlinkFree(next[..], prev[..], heads[..], tails[..], slabs[..], g, item, id);
        UnlinkOwn(next.Length, g, item, id);
      } else {
        HeldNotEnd(next[..], prev[..], heads[..], tails[..], g, item, id);
      }
      var clsid := meta[item].clsid;
      if heads[clsid] == item {
        heads[clsid] := next[item];
      }
      if tails[clsid] == item {
        tails[clsid] := prev[item];
      }
      if next[item] != 0 {
        prev[next[item]] := prev[item];
      }
      if prev[item] != 0 {
        next[prev[item]] := next[item];
      }
      assert next[..] == UnlinkNext(old(next[..]), old(prev[..]), item);
      assert prev[..] == UnlinkPrev(old(next[..]), old(prev[..]), item);
      assert heads[..] == old(heads[..])[id := if old(heads[id]) == item then old(next[item]) else old(heads[id])];
      assert tails[..] == old(tails[..])[id := if old(tails[id]) == item then old(prev[item]) else old(tails[id])];
      g := if linked then Unlinked(g, item, id) else g;
    }

    method ItemRelink(item: Addr)
      requires Dims() && LruOk() && FreeOk() && OwnOk()
      requires item < meta.Length && meta[item].clsid < |g.lru| && item in g.lru[meta[item].clsid]
      modifies next, prev, heads, tails, `g
      ensures LruOk() && FreeOk() && OwnOk()
      ensures g == Linked(Unlinked(old(g), item, meta[item].clsid), item, meta[item].clsid)
    {
      OwnFacts(|cfg.sizes|, next.Length, g, item);
      ClassOnList(|cfg.sizes|, next.Length, g, meta[item].clsid, item);
      hide *;
      ItemUnlink(item);
      ItemLink(item);
    }

    // ----- free lists

    method ItemFree(item: Addr)
      requires Dims() && SizesOk() && LruOk() && FreeOk() && OwnOk()
      requires item in g.held && item in g.cls && item < meta.Length
      requires C.ItemSizeOf(meta[item].nkey, meta[item].nval) <= cfg.Last()
      requires cfg.ClassOf(C.ItemSizeOf(meta[item].nkey, meta[item].nval)) == g.cls[item]
      modifies next, slabs, `g
      ensures SizesOk() && LruOk() && FreeOk() && OwnOk()
      ensures g == Freed(old(g), item, old(g.cls[item]))
    {
      OwnFacts(|cfg.sizes|, next.Length, g, item);
      hide LruLists, FreeLists, Own, Config.Valid;
      var id := ItemClsid(C.ItemSizeOf(meta[item].nkey, meta[item].nval));
      PushFree(next[..], prev[..], heads[..], tails[..], slabs[..], g, item, id);
      next[item] := slabs[id].freeItem;
      slabs[id] := slabs[id].(freeItem := item);
      g := Freed(g, item, id);
    }

    /** The first chunk of a class's free list. */
    method TakeFree(id: nat) returns (item: Addr)
      requires Dims() && SizesOk() && FreeOk() && OwnOk() && LruOk()
      requires id < |cfg.sizes|
      modifies slabs, `g
      ensures SizesOk() && FreeOk() && OwnOk() && LruOk()
      ensures old(g.free[id]) == [] ==> item == 0 && g == old(g)
      ensures old(g.free[id]) != [] ==> item == old(g.free[id])[0] && g == Taken(old(g), id)
    {
      hide LruLists, Own, Config.Valid;
      OwnFacts(|cfg.sizes|, next.Length, g, 0);
      item := 0;
      if slabs[id].freeItem != 0 {
        PopFree(next[..], slabs[..], g, id);
        item := slabs[id].freeItem;
        slabs[id] := slabs[id].(freeItem := next[item]);
        g := Taken(g, id);
      }
    }
  
    // ----- the hash index

    /** hash(key, nkey, 0), for a key that lies at any address, with anything behind it. */
    method HashKey(key: Bytes) returns (hv: bv32)
      ensures hv == Lookup3.Hash(key, 0)
    {
      hide *;
      var address: nat := *;
      var behind: Bytes := *;
      var mem := key + behind;
      while |mem| % 4 != 0
        invariant |key| <= |mem| && mem[..|key|] == key
        decreases -|mem| % 4
      {
        var b: byte := *;
        mem := mem + [b];
      }
      hv := Lookup3.HashAt(address, mem, |key|, 0);
    }

    /** item->nkey == nkey && memcmp(key, item->key, nkey) == 0. */
    method SameKey(item: Addr, key: Bytes) returns (same: bool)
      requires Dims() && ContentOk() && item in g.keyOf
      ensures same <==> g.keyOf[item] == key
    {
      KeyCompare(cfg, raw[..], meta[..], g, abs.items, item, key);
      hide Content;
      same := meta[item].nkey == |key| && raw[item + HEADER..item + HEADER + |key|] == key;
    }

    /** The first chunk of a bucket's chain. */
    method ChainHead(slot: nat) returns (item: Addr)
      requires Dims() && ChainsOk() && slot < cfg.nbuckets
      ensures |g.chains| == cfg.nbuckets && item == At(g.chains[slot], 0)
    {
      item := buckets[slot];
      assert item == At(g.chains[slot], 0) by { assert SList(hnext[..], buckets[..][slot], g.chains[slot]); }
    }

    method AssocFind(key: Bytes) returns (item: Addr)
      requires Dims() && ChainsOk() && ContentOk()
      ensures item == if key in g.loc then g.loc[key] else 0
    {
      hide ChainLists, Indexed, ContentOk, Lookup3.Hash, Config.Valid;
      var hv := HashKey(key);
      var slot := (hv as nat) % cfg.nbuckets;
      assert slot == Bucket(key, cfg.nbuckets);
      hide Bucket;
      item := ChainHead(slot);
      ghost var s := g.chains[slot];
      ghost var i: nat := 0;
      while item != 0
        invariant i <= |s| && item == At(s, i)
        invariant forall j :: 0 <= j < i ==> s[j] in g.keyOf && g.keyOf[s[j]] != key
        decreases |s| - i
      {
        ChainStep(hnext[..], buckets[..], cfg.nbuckets, g, slot, i);
        var same := SameKey(item, key);
        if same {
          FoundAt(cfg.nbuckets, g, item);
          return;
        }
        item := hnext[item];
        i := i + 1;
      }
      ChainEnd(hnext[..], buckets[..], cfg.nbuckets, g, slot, i);
      ChainMiss(cfg.nbuckets, g, key);
    }

    method AssocInsert(key: Bytes, item: Addr)
      requires Dims() && ChainsOk()
      requires key !in g.loc && item !in g.keyOf && 0 < item < hnext.Length
      modifies hnext, buckets, `nitems, `g
      ensures ChainsOk()
      ensures |old(g.chains)| == cfg.nbuckets && g == Chained(old(g), key, item, Bucket(key, cfg.nbuckets))
    {
      ghost var b := Bucket(key, cfg.nbuckets);
      hide ChainLists, Indexed, Config.Valid, Lookup3.Hash;
      ChainInsert(hnext[..], buckets[..], cfg.nbuckets, g, key, item);
      nitems := nitems + 1;
      var hv := HashKey(key);
      var slot := (hv as nat) % cfg.nbuckets;
      hnext[item] := buckets[slot];
      buckets[slot] := item;
      g := Chained(g, key, item, b);
      assert hnext[..] == old(hnext[..])[item := old(buckets[b])];
    }
  
    /** Walks the chain through the slot that points to the current chunk: the bucket, or the h_next
        field of the chunk before (its address is before, 0 for the bucket). */
    method AssocDelete(key: Bytes)
      requires Dims() && ChainsOk() && ContentOk()
      modifies hnext, buckets, `nitems, `g
      ensures ChainsOk()
      ensures |old(g.chains)| == cfg.nbuckets
      ensures g == if key in old(g.loc) then Unchained(old(g), key, Bucket(key, cfg.nbuckets)) else old(g)
    {
      hide ChainLists, Indexed, ContentOk, Lookup3.Hash, Config.Valid;
      var hv := HashKey(key);
      var slot := (hv as nat) % cfg.nbuckets;
      assert slot == Bucket(key, cfg.nbuckets);
      hide Bucket;
      var item := ChainHead(slot);
      ghost var s := g.chains[slot];
      ghost var i: nat := 0;
      var before: Addr := 0;
      while item != 0
        invariant g == old(g) && ChainsOk() && ContentOk()
        invariant i <= |s| && item == At(s, i) && before == At(s, i - 1)
        invariant forall j :: 0 <= j < i ==> s[j] in g.keyOf && g.keyOf[s[j]] != key
        decreases |s| - i
      {
        ChainStep(hnext[..], buckets[..], cfg.nbuckets, g, slot, i);
        var same := SameKey(item, key);
        if same {
          FoundAt(cfg.nbuckets, g, item);
          SpliceOut(key, slot, before, item, i);
          return;
        }
        before := item;
        item := hnext[item];
        i := i + 1;
      }
      ChainEnd(hnext[..], buckets[..], cfg.nbuckets, g, slot, i);
      ChainMiss(cfg.nbuckets, g, key);
    }

    /** The found branch of assoc_delete. */
    method SpliceOut(key: Bytes, slot: nat, before: Addr, item: Addr, ghost i: nat)
      requires Dims() && ChainsOk() && key in g.loc && item == g.loc[key]
      requires slot == Bucket(key, cfg.nbuckets)
      requires |g.chains| == cfg.nbuckets && i < |g.chains[slot]| && g.chains[slot][i] == item
      requires before == At(g.chains[slot], i - 1)
      modifies hnext, buckets, `nitems, `g
      ensures ChainsOk()
      ensures g == Unchained(old(g), key, slot)
    {
      assert NoDup(g.chains[slot]) && (i > 0 ==> before != 0) by {
        assert SList(hnext[..], buckets[..][slot], g.chains[slot]);
      }
      assert nitems > 0;
      hide ChainLists, Indexed, Bucket, Config.Valid;
      ChainDelete(hnext[..], buckets[..], cfg.nbuckets, g, key, i);
      UnchainIndexed(cfg.nbuckets, g, key);
      nitems := nitems - 1;
      var nxt := hnext[item];
      hnext[item] := 0;
      if before == 0 {
        buckets[slot] := nxt;
      } else {
        hnext[before] := nxt;
      }
      g := Unchained(g, key, slot);
    }
  
    // ----- composite steps

    /** What the invariant says about the chunk of a key. */
    lemma KeyFacts(key: Bytes)
      requires Good() && key in g.loc
      ensures var a := g.loc[key];
              && key in abs.items && a in g.keyOf && g.keyOf[a] == key && a in g.cls && 0 < a < meta.Length
              && a !in g.held && g.cls[a] < |g.lru| == |cfg.sizes| && a in g.lru[g.cls[a]]
              && C.Wf(cfg, abs) && g.cls[a] == C.ClassIn(cfg, abs, key) && |g.chains| == cfg.nbuckets > 0
              && meta[a] == Meta(g.cls[a], abs.items[key].flags, |key|, |abs.items[key].val|)
              && cfg.Valid() && C.ItemSizeOf(|key|, |abs.items[key].val|) <= cfg.Last()
              && cfg.ClassOf(C.ItemSizeOf(|key|, |abs.items[key].val|)) == g.cls[a]
              && a + C.ItemSize(key, |abs.items[key].val|) <= raw.Length
              && C.ItemSize(key, |abs.items[key].val|) <= cfg.sizes[g.cls[a]]
              && raw[a + HEADER..a + HEADER + |key|] == key
              && raw[a + HEADER + |key|..a + HEADER + |key| + |abs.items[key].val|] == abs.items[key].val
    {
      hide LruLists, FreeLists, ChainLists, Own, Indexed, Listed, Content, Pool, Abstracts, Config.Valid, C.Wf;
      ChunkFacts(cfg, raw[..], meta[..], cfg.nbuckets, g, memUsed, abs, key);
    }

    lemma KeysAgree(key: Bytes)
      requires Good()
      ensures key in g.loc <==> key in abs.items
    {
    }

    lemma NoDupLru(id: nat)
      requires LruOk() && id < |g.lru|
      ensures NoDup(g.lru[id])
    {
      assert DList(next[..], prev[..], heads[..][id], tails[..][id], g.lru[id]);
    }

    /** assoc_delete and item_unlink, as far as the lists are concerned. */
    method Unhook(key: Bytes, item: Addr, ghost b: nat, ghost id: nat)
      requires key in g.loc && item == g.loc[key] && item < meta.Length
      requires cfg.nbuckets > 0 && b == Bucket(key, cfg.nbuckets) < |g.chains|
      requires id == meta[item].clsid < |g.lru| && item in g.lru[id]
      requires Structure() && ContentOk()
      modifies hnext, buckets, next, prev, heads, tails, `nitems, `g
      ensures Structure()
      ensures g == Removed(old(g), key, b, id)
    {
      hide LruLists, FreeLists, ChainLists, Own, Indexed, ContentOk, Config.Valid, SizesOk, Bucket;
      ghost var g0 := g;
      AssocDelete(key);
      OwnFrame(|cfg.sizes|, next.Length, g0, g);
      ghost var g1 := g;
      ItemUnlink(item);
      IndexFrame(cfg.nbuckets, g1, g);
    }

    /** assoc_delete and item_unlink: the item's chunk ends up in hand, its header and bytes untouched. */
    method Detach(key: Bytes, item: Addr)
      requires key in g.loc && item == g.loc[key] && C.Wf(cfg, abs) && key in abs.items
      requires Good()
      modifies hnext, buckets, next, prev, heads, tails, `nitems, `g, `abs
      ensures Good()
      ensures abs == C.Remove(cfg, old(abs), key)
      ensures g.held == old(g.held) + {item} && g.cls == old(g.cls) && g.keyOf == old(g.keyOf) - {item}
      ensures g.free == old(g.free) && g.loc == old(g.loc) - {key}
    {
      hide LruLists, FreeLists, ChainLists, Own, Indexed, Listed, Content, Pool, Abstracts, Config.Valid, C.Wf,
           SizesOk, Bucket, C.Remove, C.ClassIn;
      KeyFacts(key);
      ghost var b, id := Bucket(key, cfg.nbuckets), g.cls[item];
      NoDupLru(id);
      ghost var g0, s := g, abs;
      Unhook(key, item, b, id);
      assert raw[..] == old(raw[..]);
      assert meta[..] == old(meta[..]);
      abs := C.Remove(cfg, abs, key);
      RemoveListed(g0, key, b, id);
      RemoveContent(cfg, raw[..], meta[..], cfg.nbuckets, g0, s.items, key, b, id);
      RemoveAbstracts(cfg, cfg.nbuckets, g0, memUsed, s, key, b);
    }
  
    /** item_free on a chunk in hand. */
    method Reclaim(item: Addr, ghost id: nat)
      requires item in g.held && item in g.cls && g.cls[item] == id && item < meta.Length
      requires C.Wf(cfg, abs) && id < |abs.free|
      requires C.ItemSizeOf(meta[item].nkey, meta[item].nval) <= cfg.Last()
      requires cfg.ClassOf(C.ItemSizeOf(meta[item].nkey, meta[item].nval)) == id
      requires Good()
      modifies next, slabs, `g, `abs
      ensures Good()
      ensures abs == C.Release(cfg, old(abs), id)
      ensures g == Freed(old(g), item, id)
    {
      hide LruLists, FreeLists, ChainLists, Own, Indexed, Listed, Content, Pool, Abstracts, Config.Valid, C.Wf,
           SizesOk, C.Release, Config.ClassOf;
      OwnFacts(|cfg.sizes|, next.Length, g, item);
      ghost var g0, s := g, abs;
      assert |g.free| == |s.free| by { LengthsAgree(); }
      ItemFree(item);
      assert raw[..] == old(raw[..]) && meta[..] == old(meta[..]);
      abs := C.Release(cfg, abs, id);
      SameItemsKeeps(cfg, raw[..], meta[..], cfg.nbuckets, g0, g, s.items);
      FreeAbstracts(cfg, g0, memUsed, s, item, id);
    }

    lemma LengthsAgree()
      requires Frame()
      ensures |g.lru| == |g.free| == |abs.lru| == |abs.free| == |cfg.sizes|
    {
      OwnFacts(|cfg.sizes|, next.Length, g, 0);
      hide LruLists, FreeLists, ChainLists, Own, Indexed, Listed, Pool, Config.Valid, SizesOk, C.Recency;
    }

    /** assoc_delete, item_unlink, item_free. */
    method Discard(key: Bytes, item: Addr)
      requires key in g.loc && item == g.loc[key] && C.Wf(cfg, abs) && key in abs.items
      requires Good()
      modifies hnext, buckets, next, prev, heads, tails, slabs, `nitems, `g, `abs
      ensures Good() && g.held == old(g.held) && Stay(old(g), g) && g.keyOf == old(g.keyOf) - {item}
      ensures abs == C.Discard(cfg, old(abs), key)
      ensures item in g.cls && g.cls == old(g.cls)
      ensures g.free == old(g.free)[g.cls[item] := [item] + old(g.free)[g.cls[item]]]
    {
      hide LruLists, FreeLists, ChainLists, Own, Indexed, Listed, Content, Pool, Abstracts, Config.Valid, C.Wf,
           SizesOk, C.Remove, C.Release;
      KeyFacts(key);
      ghost var id := g.cls[item];
      Detach(key, item);
      LengthsAgree();
      Reclaim(item, id);
    }

    // ----- the page pool

    /** One turn of the carving loop. */
    method CarveChunk(id: nat, p: Addr)
      requires id < |cfg.sizes| && p !in g.cls && 0 < p < next.Length
      requires Structure()
      modifies next, slabs, `g
      ensures Structure()
      ensures MoreFree(old(g), g, id, 1) && g.cls == old(g.cls)[p := id]
      ensures id < |g.free| && g.free[id] != [] && g.free[id][0] == p
    {
      hide LruLists, FreeLists, ChainLists, Own, Indexed, Config.Valid, MoreFree;
      OwnFacts(|cfg.sizes|, next.Length, g, p);
      ghost var g0 := g;
      CarvePush(next[..], prev[..], heads[..], tails[..], slabs[..], g, p, id);
      next[p] := slabs[id].freeItem;
      slabs[id] := slabs[id].(freeItem := p);
      g := Freed(Carved(g, p, id), p, id);
      assert next[..] == old(next[..])[p := old(slabs[id]).freeItem];
      assert slabs[..] == old(slabs[..])[id := old(slabs[id]).(freeItem := p)];
      IndexFrame(cfg.nbuckets, g0, g);
      FirstCarved(g0, p, id);
    }
  
    /** The carving loop that item_alloc and format_slabs share: count chunks of one class from p on. */
    method CarveLoop(id: nat, from: Addr, size: nat, count: nat)
      requires id < |cfg.sizes| && size == cfg.sizes[id] > 0 && id < |g.free|
      requires 0 < from && from + size * count <= next.Length
      requires Pool(cfg, base, from, g.cls) && base <= from
      requires Structure()
      modifies next, slabs, `g
      ensures Structure()
      ensures Pool(cfg, base, from + size * count, g.cls)
      ensures MoreFree(old(g), g, id, count)
      ensures count > 0 ==> id < |g.free| && g.free[id] != [] && g.free[id][0] == from + size * (count - 1)
    {
      hide *;
      ghost var g0 := g;
      var p := from;
      var i := 0;
      MoreFreeNone(g, id);
      while i < count
        invariant i <= count && p + size * (count - i) == from + size * count
        invariant Structure() && from <= p
        invariant Pool(cfg, base, p, g.cls)
        invariant MoreFree(g0, g, id, i)
        invariant i > 0 ==> id < |g.free| && g.free[id] != [] && g.free[id][0] == p - size
      {
        CarveRoom(p, size, count - i);
        Carve(cfg, base, p, g.cls, id);
        ghost var g1 := g;
        CarveChunk(id, p);
        MoreFreeStep(g0, g1, g, id, i);
        p := p + size;
        i := i + 1;
      }
    }

    lemma FirstCarved(g0: Links, p: Addr, id: nat)
      requires id < |g0.free|
      ensures |Freed(Carved(g0, p, id), p, id).free| == |g0.free| && Freed(Carved(g0, p, id), p, id).free[id] != []
      ensures Freed(Carved(g0, p, id), p, id).free[id][0] == p
    {
    }

    /** A page of a class. */
    method CarvePage(id: nat)
      requires id < |cfg.sizes| && cfg.Valid() && id < |abs.lru| && memUsed + cfg.PageBytes(id) < cfg.memLimit
      requires C.Wf(cfg, abs) && Good()
      modifies next, slabs, `memUsed, `g, `abs
      ensures MoreFree(old(g), g, id, cfg.counts[id]) && abs == C.AddPage(cfg, old(abs), id)
      ensures id < |g.free| && g.free[id] != []
      ensures g.free[id][0] == base + old(memUsed) + cfg.sizes[id] * (cfg.counts[id] - 1)
      ensures g.held == old(g.held) && g.loc == old(g.loc)
      ensures Good()
    {
      hide LruLists, FreeLists, ChainLists, Own, Indexed, Listed, Content, Pool, Abstracts, Config.Valid, C.Wf,
           C.AddPage, MoreFree, SizesOk;
      ListCounts();
      SlabFacts(id);
      ghost var g0, s, used := g, abs, memUsed;
      var size, count := slabs[id].size, slabs[id].count;
      var p := base + memUsed;
      memUsed := memUsed + size * count;
      CarveLoop(id, p, size, count);
      abs := C.AddPage(cfg, abs, id);
      assert raw[..] == old(raw[..]) && meta[..] == old(meta[..]);
      MoreFreeSame(g0, g, id, count);
      SameItemsKeeps(cfg, raw[..], meta[..], cfg.nbuckets, g0, g, s.items);
      PageAbstracts(cfg, g0, g, used, s, id);
    }

    lemma ListCounts()
      requires Structure()
      ensures |g.lru| == |g.free| == |cfg.sizes|
    {
      OwnFacts(|cfg.sizes|, next.Length, g, 0);
      hide LruLists, FreeLists, ChainLists, Own, Indexed, Config.Valid, SizesOk;
    }

    lemma CarveRoom(p: nat, size: nat, n: nat)
      requires n > 0
      ensures p + size * n == p + size + size * (n - 1)
      ensures p + size <= p + size * n
    {
    }
  
    // ----- item_alloc

    /** The first half of the eviction branch: the item at the tail of the class, if any, is dropped. */
    method EvictTail(id: nat)
      requires cfg.Valid() && id < |cfg.sizes| && C.Wf(cfg, abs) && id < |abs.lru|
      requires Good() && g.held == {}
      modifies hnext, buckets, next, prev, heads, tails, slabs, `nitems, `g, `abs
      ensures Good() && g.held == {} && g.cls == old(g.cls) && Stay(old(g), g)
      ensures old(abs.lru[id]) == [] ==> abs == old(abs) && g == old(g)
      ensures old(abs.lru[id]) != [] ==>
                var k := old(abs.lru[id])[|old(abs.lru[id])| - 1];
                && k in old(abs.items) && abs == C.Discard(cfg, old(abs), k)
                && C.ClassIn(cfg, old(abs), k) == id && k in old(g.loc)
                && g.free == old(g.free)[id := [old(g.loc)[k]] + old(g.free)[id]]
    {
      hide Good, Frame, Config.Valid, C.Discard, C.ClassIn, C.Wf;
      GoodParts();
      LengthsAgree();
      TailKey(id);
      var tail := tails[id];
      if tail != 0 {
        ghost var k := abs.lru[id][|abs.lru[id]| - 1];
        KeyFacts(k);
        var key := raw[tail + HEADER..tail + HEADER + meta[tail].nkey];
        Discard(key, tail);
      }
    }

    lemma GoodParts()
      requires Good()
      ensures Dims() && Frame()
    {
    }

    lemma TailKey(id: nat)
      requires id < tails.Length && id < |abs.lru| && C.Wf(cfg, abs)
      requires Frame()
      ensures tails[id] == 0 <==> abs.lru[id] == []
      ensures abs.lru[id] != [] ==>
                var k := abs.lru[id][|abs.lru[id]| - 1];
                k in g.loc && g.loc[k] == tails[id] && k in abs.items && C.ClassIn(cfg, abs, k) == id
    {
      hide LruLists, FreeLists, ChainLists, Own, Indexed, Listed, Content, Pool, Abstracts, Config.Valid, SizesOk;
      LengthsAgree();
      TailFacts(cfg, next[..], prev[..], heads[..], tails[..], g, memUsed, abs, cfg.nbuckets, id);
      if abs.lru[id] != [] { C.LastKey(cfg, abs, id); }
    }
  
    /** Popping a free chunk, if there is one. */
    method TakeChunk(id: nat) returns (item: Addr)
      requires id < |cfg.sizes| && C.Wf(cfg, abs) && id < |abs.free| && id < |g.free|
      requires Good() && g.held == {}
      modifies slabs, `g, `abs
      ensures Good()
      ensures item == 0 <==> old(abs.free[id]) == 0
      ensures item == 0 ==> abs == old(abs) && g == old(g)
      ensures item != 0 ==>
                && abs == C.TakeFree(cfg, old(abs), id)
                && old(g.free[id]) != [] && item == old(g.free[id])[0] && g == Taken(old(g), id)
                && item < meta.Length && item in g.cls && g.cls[item] == id && item !in g.keyOf
    {
      hide LruLists, FreeLists, ChainLists, Own, Indexed, Listed, Content, Pool, Abstracts, Config.Valid, C.Wf,
           SizesOk, C.TakeFree;
      LengthsAgree();
      FreeCount(id);
      ghost var g0, s := g, abs;
      item := TakeFree(id);
      if item != 0 {
        abs := C.TakeFree(cfg, abs, id);
        TakeAbstracts(cfg, g0, memUsed, s, id);
        SameItemsKeeps(cfg, raw[..], meta[..], cfg.nbuckets, g0, g, s.items);
        OwnFacts(|cfg.sizes|, next.Length, g, item);
        HeldEmpty(cfg, raw[..], meta[..], g, s.items, next.Length, item);
      }
    }

    lemma FreeCount(id: nat)
      requires id < |abs.free| && id < |g.free|
      requires Frame()
      ensures |g.free[id]| == abs.free[id]
      ensures g.free[id] != [] ==> g.free[id][0] in g.cls && g.cls[g.free[id][0]] == id && g.free[id][0] != 0
    {
      hide LruLists, FreeLists, ChainLists, Indexed, Listed, Content, Pool, Config.Valid, SizesOk, C.Recency;
      LengthsAgree();
      if g.free[id] != [] { assert g.free[id][0] in g.free[id]; }
    }

    /** Filling in the header of a chunk just taken. */
    method InitChunk(item: Addr, id: nat, nkey: nat, nval: nat)
      requires item in g.held && item in g.cls && g.cls[item] == id && item < meta.Length
      requires Good()
      modifies next, prev, hnext, meta
      ensures Good()
      ensures meta[item] == Meta(id, old(meta[item].flags), nkey, nval) && next[item] == 0 == prev[item]
      ensures forall a :: 0 <= a < meta.Length && a != item ==> meta[a] == old(meta[a])
    {
      hide LruLists, FreeLists, ChainLists, Own, Indexed, Listed, Content, Pool, Abstracts, Config.Valid, C.Wf, SizesOk;
      ListCounts();
      HeldWrite(next[..], prev[..], heads[..], tails[..], slabs[..], g, item, 0, 0);
      HeldEmpty(cfg, raw[..], meta[..], g, abs.items, next.Length, item);
      HeldChain(hnext[..], buckets[..], cfg.nbuckets, g, item, 0);
      ghost var m := Meta(id, meta[item].flags, nkey, nval);
      HeldMeta(cfg, raw[..], meta[..], g, abs.items, item, m);
      meta[item] := meta[item].(clsid := id);
      next[item], prev[item], hnext[item] := 0, 0, 0;
      meta[item] := meta[item].(nkey := nkey);
      meta[item] := meta[item].(nval := nval);
      assert meta[..] == old(meta[..])[item := m];
      assert next[..] == old(next[..])[item := 0] && prev[..] == old(prev[..])[item := 0];
      assert hnext[..] == old(hnext[..])[item := 0] && raw[..] == old(raw[..]);
    }
  
    lemma SlabFacts(id: nat)
      requires id < slabs.Length && Frame()
      ensures slabs[id].size == cfg.sizes[id] && slabs[id].count == cfg.counts[id] >= 1
      ensures cfg.sizes[id] >= HEADER && memUsed == abs.used
    {
      hide LruLists, FreeLists, ChainLists, Own, Indexed, Listed, Pool, C.Wf;
    }

    /** The middle of item_alloc, reached when the class has no free chunk: a new page if it fits,
        otherwise the class's least recently used item makes room, if eviction is on. */
    method Refill(id: nat)
      requires cfg.Valid() && id < |cfg.sizes| && id < |abs.lru| && id < |abs.free|
      requires abs.free[id] == 0 && id < |g.free| && g.free[id] == [] && g.held == {}
      requires C.Wf(cfg, abs) && Good()
      modifies hnext, buckets, next, prev, heads, tails, slabs, `memUsed, `nitems, `g, `abs
      ensures g.held == {} && Stay(old(g), g)
      ensures match C.AllocSource(cfg, old(abs), id)
              case FromFree => false
              case FromPool => && abs == C.AddPage(cfg, old(abs), id) && id < |g.free| && g.free[id] != []
                               && g.free[id][0] == base + old(memUsed) + cfg.sizes[id] * (cfg.counts[id] - 1)
              case FromVictim(k) => && abs == C.Discard(cfg, old(abs), k) && k in old(g.loc)
                                    && |g.free| == |old(g.free)| && g.free[id] == [old(g.loc)[k]]
              case FromNothing => abs == old(abs)
      ensures Good()
    {
      hide LruLists, FreeLists, ChainLists, Own, Indexed, Listed, Content, Pool, Abstracts, Config.Valid, C.Wf,
           SizesOk, C.Discard, C.AddPage, MoreFree, C.ClassIn;
      SlabFacts(id);
      var len := slabs[id].size * slabs[id].count;
      if memUsed + len < cfg.memLimit {
        CarvePage(id);
      } else if cfg.evictToFree {
        EvictTail(id);
      }
    }

    /** The chunk that item_alloc would hand out: the first free one, the last one of a new page, or that of
        the victim. */
    ghost function ChunkFor(id: nat): Addr
      reads this
      requires cfg.Valid() && id < |cfg.sizes| && C.Wf(cfg, abs) && id < |abs.lru|
    {
      match C.AllocSource(cfg, abs, id)
      case FromFree => if id < |g.free| && g.free[id] != [] then g.free[id][0] else 0
      case FromPool => base + memUsed + cfg.sizes[id] * (cfg.counts[id] - 1)
      case FromVictim(k) => if k in g.loc then g.loc[k] else 0
      case FromNothing => 0
    }

    /** The two attempts of item_alloc to get a chunk. */
    method AcquireChunk(id: nat) returns (item: Addr)
      requires cfg.Valid() && id < |cfg.sizes| && C.Wf(cfg, abs) && id < |abs.lru| && id < |abs.free|
      requires Good() && g.held == {}
      modifies hnext, buckets, next, prev, heads, tails, slabs, `memUsed, `nitems, `g, `abs
      ensures Good() && Stay(old(g), g)
      ensures item == 0 <==> C.AllocSource(cfg, old(abs), id).FromNothing?
      ensures item == 0 ==> g.held == {} && abs == old(abs)
      ensures item != 0 ==>
                && abs == C.Alloc(cfg, old(abs), id) && g.held == {item}
                && item in g.cls && g.cls[item] == id && item !in g.keyOf && item < meta.Length
      ensures item == old(ChunkFor(id))
      ensures var source := C.AllocSource(cfg, old(abs), id);
              source.FromVictim? ==> source.key in old(g.loc) && item == old(g.loc)[source.key]
    {
      hide Structure, ContentOk, PoolOk, Listed, Abstracts, Config.Valid, C.Wf, C.TakeFree, C.Discard, C.AddPage;
      LengthsAgree();
      item := TakeChunk(id);
      if item == 0 {
        FreeCount(id);
        Refill(id);
        LengthsAgree();
        item := TakeChunk(id);
      }
    }

    /** item_alloc.  Null exactly when the abstract allocation has no source; otherwise the chunk is in
        hand with its header filled in, its flags being what the chunk held before. */
    method ItemAlloc(nkey: nat, nval: nat, ghost id: nat) returns (item: Addr)
      requires cfg.Valid() && cfg.SizeOk(C.ItemSizeOf(nkey, nval)) && C.ItemSizeOf(nkey, nval) <= cfg.Last()
      requires id == cfg.ClassOf(C.ItemSizeOf(nkey, nval))
      requires C.Wf(cfg, abs) && id < |abs.lru| && id < |abs.free|
      requires Good() && g.held == {}
      modifies hnext, buckets, next, prev, heads, tails, slabs, meta, `memUsed, `nitems, `g, `abs
      ensures Good() && Stay(old(g), g)
      ensures item == 0 <==> C.AllocSource(cfg, old(abs), id).FromNothing?
      ensures item == 0 ==> g.held == {} && abs == old(abs)
      ensures item != 0 ==>
                && abs == C.Alloc(cfg, old(abs), id) && g.held == {item}
                && item in g.cls && g.cls[item] == id && item !in g.keyOf && item < meta.Length
                && meta[item] == Meta(id, old(meta[item].flags), nkey, nval) && next[item] == 0 == prev[item]
      ensures item == old(ChunkFor(id))
      ensures var source := C.AllocSource(cfg, old(abs), id);
              source.FromVictim? ==> source.key in old(g.loc) && item == old(g.loc)[source.key]
      ensures forall a :: 0 <= a < meta.Length && a != item ==> meta[a] == old(meta[a])
    {
      hide LruOk, FreeOk, ChainsOk, OwnOk, ContentOk, PoolOk, Listed, Abstracts, Config.Valid, C.Wf, C.AllocSource,
           C.Alloc, Config.ClassOf;
      var cid := ItemClsid(C.ItemSizeOf(nkey, nval));
      item := AcquireChunk(cid);
      if item == 0 { return; }
      InitChunk(item, cid, nkey, nval);
    }
  
    // ----- putting an item in, and writing its bytes

    /** assoc_insert and item_link, as far as the lists are concerned. */
    method Hook(key: Bytes, item: Addr, ghost b: nat, ghost id: nat)
      requires key !in g.loc && item !in g.keyOf && item in g.held && item in g.cls
      requires 0 < item < meta.Length == hnext.Length && id == meta[item].clsid == g.cls[item] < |g.lru|
      requires cfg.nbuckets > 0 && b == Bucket(key, cfg.nbuckets) < |g.chains|
      requires Structure()
      modifies hnext, buckets, next, prev, heads, tails, `nitems, `g
      ensures Structure()
      ensures g == Added(old(g), key, item, b, id)
    {
      hide LruLists, FreeLists, ChainLists, Own, Indexed, Config.Valid, SizesOk, Bucket;
      ghost var g0 := g;
      AssocInsert(key, item);
      OwnFrame(|cfg.sizes|, next.Length, g0, g);
      ghost var g1 := g;
      ItemLink(item);
      IndexFrame(cfg.nbuckets, g1, g);
    }

    lemma ChainCount()
      requires Structure()
      ensures |g.chains| == cfg.nbuckets > 0
    {
      hide LruLists, FreeLists, ChainLists, Own, Config.Valid, SizesOk;
    }

    /** assoc_insert and item_link: from here until its bytes are written, the item is indexed under a
        key its chunk does not hold yet. */
    method Publish(key: Bytes, item: Addr, ghost e: C.Entry)
      requires item in g.held && item in g.cls && item !in g.keyOf && item < meta.Length
      requires C.Wf(cfg, abs) && key !in abs.items && C.HasClass(cfg, key, |e.val|)
      requires meta[item].clsid == g.cls[item] == C.Class(cfg, key, |e.val|)
      requires Good()
      modifies hnext, buckets, next, prev, heads, tails, `nitems, `g, `abs
      ensures Open(item)
      ensures abs == C.Insert(cfg, old(abs), key, e)
      ensures key in g.loc && g.loc[key] == item && g.cls == old(g.cls) && g.held == old(g.held) - {item}
    {
      hide LruLists, FreeLists, ChainLists, Own, Indexed, Listed, Content, Pool, Abstracts, Config.Valid, C.Wf,
           SizesOk, Bucket, C.Class, C.HasClass, C.Insert, OpenContent;
      LengthsAgree();
      ChainCount();
      OwnFacts(|cfg.sizes|, next.Length, g, item);
      KeysAgree(key);
      ghost var b, id := Bucket(key, cfg.nbuckets), g.cls[item];
      ghost var g0, s := g, abs;
      Hook(key, item, b, id);
      assert raw[..] == old(raw[..]);
      assert meta[..] == old(meta[..]);
      abs := C.Insert(cfg, abs, key, e);
      AddListed(g0, key, item, b, id);
      AddContent(cfg, raw[..], meta[..], cfg.nbuckets, g0, s.items, key, item, b, id, e);
      AddAbstracts(cfg, g0, memUsed, s, key, item, b, id, e);
    }

    lemma Room(item: Addr)
      requires item in g.cls && Frame()
      ensures g.cls[item] < |cfg.sizes| && item + cfg.sizes[g.cls[item]] <= raw.Length
    {
      hide LruLists, FreeLists, ChainLists, Own, Indexed, Listed, Pool, Abstracts, Config.Valid, SizesOk;
      ChunkRoom(cfg, base, base + memUsed, g.cls, item);
    }

    lemma NoneHeld(item: Addr)
      requires Open(item)
      ensures forall b :: b in g.keyOf ==> b !in g.held
    {
      hide LruLists, FreeLists, ChainLists, Own, Indexed, Listed, OpenContent, Abstracts, SizesOk;
      LoadedNotHeld(cfg, g, cfg.nbuckets, next.Length, raw[..], meta[..], abs.items, item);
    }

    /** memcpy into the item's own chunk. */
    method Poke(item: Addr, off: nat, src: Bytes)
      requires item in g.cls && g.cls[item] < |cfg.sizes| && off + |src| <= cfg.sizes[g.cls[item]]
      requires item + cfg.sizes[g.cls[item]] <= raw.Length
      requires Open(item)
      modifies raw
      ensures Open(item)
      ensures raw[..] == Splice(old(raw[..]), item + off, src)
    {
      hide LruLists, FreeLists, ChainLists, Own, Indexed, Listed, Pool, Abstracts, Config.Valid, SizesOk, OpenContent;
      NoneHeld(item);
      ghost var r0 := raw[..];
      forall i | 0 <= i < |src| { raw[item + off + i] := src[i]; }
      assert meta[..] == old(meta[..]);
      assert raw[..] == Splice(r0, item + off, src);
      WriteOpen(cfg, base, base + memUsed, r0, raw[..], meta[..], meta[..], g, abs.items, item);
    }

    /** A header field of the item being written, or of a chunk in hand. */
    method WriteMeta(item: Addr, a: Addr, m: Meta)
      requires a < meta.Length && (a == item || a in g.held)
      requires Open(item)
      modifies meta
      ensures Open(item)
      ensures meta[..] == old(meta[..])[a := m] && meta[a] == m
    {
      hide LruLists, FreeLists, ChainLists, Own, Indexed, Listed, Pool, Abstracts, Config.Valid, SizesOk, OpenContent;
      NoneHeld(item);
      ghost var m0 := meta[..];
      meta[a] := m;
      assert meta[..] == m0[a := m];
      assert raw[..] == old(raw[..]);
      WriteOpen(cfg, base, base + memUsed, raw[..], raw[..], m0, meta[..], g, abs.items, item);
    }

    /** Once header and bytes of the item are what the abstract cache says, everything is in order again. */
    lemma Close(key: Bytes, item: Addr, e: C.Entry)
      requires key in g.loc && g.loc[key] == item && key in abs.items && item in g.cls && abs.items[key] == e
      requires cfg.Valid() && C.HasClass(cfg, key, |e.val|) && C.Class(cfg, key, |e.val|) == g.cls[item]
      requires item < meta.Length && meta[item] == Meta(g.cls[item], e.flags, |key|, |e.val|)
      requires item + C.ItemSize(key, |e.val|) <= raw.Length
      requires raw[item + HEADER..item + HEADER + |key|] == key
      requires raw[item + HEADER + |key|..item + HEADER + |key| + |e.val|] == e.val
      requires Open(item)
      ensures Good()
    {
      hide LruLists, FreeLists, ChainLists, Own, Listed, Pool, Abstracts, Config.Valid, SizesOk, OpenContent, Indexed,
           C.HasClass, C.Class;
      assert Holds(cfg, raw[..], meta[..], g.cls, item, key, e);
      hide Holds;
      CloseContent(cfg, raw[..], meta[..], cfg.nbuckets, g, abs.items, key);
    }

    // ----- moving to the front, rewriting in place

    /** item_relink on the item of a key. */
    method Relink(key: Bytes, item: Addr)
      requires key in g.loc && item == g.loc[key] && C.Wf(cfg, abs) && key in abs.items
      requires Good()
      modifies next, prev, heads, tails, `g, `abs
      ensures Good()
      ensures abs == C.Touch(cfg, old(abs), key)
      ensures g == old(g).(lru := g.lru)
    {
      hide LruLists, FreeLists, ChainLists, Own, Indexed, Listed, Content, Pool, Abstracts, Config.Valid, C.Wf,
           SizesOk, C.Touch, C.ClassIn;
      LengthsAgree();
      KeyFacts(key);
      ghost var id := g.cls[item];
      NoDupLru(id);
      ghost var g0, s := g, abs;
      ItemRelink(item);
      assert raw[..] == old(raw[..]);
      assert meta[..] == old(meta[..]);
      abs := C.Touch(cfg, abs, key);
      RelinkListed(g0, item, id);
      RelinkAbstracts(cfg, cfg.nbuckets, g0, memUsed, s, key);
      RelinkFrame(cfg, raw[..], meta[..], cfg.nbuckets, g0, g, s.items);
    }

    /** From here on the abstract value of the item is the new one; its bytes follow. */
    method BeginRewrite(key: Bytes, item: Addr, ghost e: C.Entry)
      requires key in g.loc && item == g.loc[key] && C.Wf(cfg, abs) && key in abs.items
      requires C.HasClass(cfg, key, |e.val|) && C.Class(cfg, key, |e.val|) == C.ClassIn(cfg, abs, key)
      requires Good()
      modifies `abs
      ensures Open(item)
      ensures abs == C.Rewrite(cfg, old(abs), key, e)
    {
      hide LruLists, FreeLists, ChainLists, Own, Indexed, Listed, Content, Pool, Abstracts, Config.Valid, C.Wf,
           SizesOk, C.Rewrite, C.ClassIn, C.Class, C.HasClass, OpenContent;
      KeyFacts(key);
      RewriteAbstracts(cfg, g, memUsed, abs, key, e);
      OpenForRewrite(cfg, raw[..], meta[..], cfg.nbuckets, g, abs.items, key, e);
      abs := C.Rewrite(cfg, abs, key, e);
    }

    // ----- the public operations

    /** assoc_find: null exactly for absent keys. */
    method Find(key: Bytes) returns (item: Addr)
      requires Good()
      ensures item != 0 <==> key in abs.items
      ensures key in abs.items <==> key in g.loc
      ensures item != 0 ==> item == g.loc[key]
    {
      hide LruLists, FreeLists, ChainLists, Own, Indexed, Listed, Content, Pool, Abstracts, Config.Valid, C.Wf, SizesOk;
      item := AssocFind(key);
      KeysAgree(key);
      if key in g.loc { KeyFacts(key); }
    }

    /** memcpy of the stored value to the caller. */
    method CopyValue(key: Bytes, item: Addr) returns (val: Bytes)
      requires key in g.loc && item == g.loc[key] && key in abs.items
      requires Good()
      ensures val == abs.items[key].val && item < meta.Length && meta[item].flags == abs.items[key].flags
    {
      hide LruLists, FreeLists, ChainLists, Own, Indexed, Listed, Content, Pool, Abstracts, Config.Valid, C.Wf, SizesOk;
      KeyFacts(key);
      val := raw[item + HEADER + meta[item].nkey..item + HEADER + meta[item].nkey + meta[item].nval];
    }

    /** shmc_get_nolock; mallocOk says whether the copy of the value could be allocated. */
    method Get(key: Bytes, mallocOk: bool) returns (reply: C.Reply)
      requires C.Wf(cfg, abs) && Valid()
      modifies next, prev, heads, tails, `g, `abs
      ensures Valid()
      ensures (abs, reply) == C.Get(cfg, old(abs), key, mallocOk) && g.loc == old(g.loc)
    {
      hide Good, C.Shape, C.Recency, C.Conserved, C.Touch;
      var item := Find(key);
      if item == 0 { return C.Done(C.NotFound); }
      Conservation.TouchConserves(cfg, abs, key);
      Relink(key, item);
      var val := CopyValue(key, item);
      if mallocOk {
        reply := C.Value(val, meta[item].flags);
      } else {
        reply := C.Done(C.System);
      }
    }

    /** shmc_getf_nolock: the caller's buffer has room for that many bytes. */
    method Getf(key: Bytes, room: nat) returns (reply: C.Reply)
      requires C.Wf(cfg, abs) && Valid()
      modifies next, prev, heads, tails, `g, `abs
      ensures Valid()
      ensures (abs, reply) == C.Getf(cfg, old(abs), key, room)
    {
      hide Good, C.Shape, C.Recency, C.Conserved, C.Touch;
      var item := Find(key);
      if item == 0 { return C.Done(C.NotFound); }
      Conservation.TouchConserves(cfg, abs, key);
      Relink(key, item);
      var val := CopyValue(key, item);
      if room >= |val| {
        reply := C.Value(val, meta[item].flags);
      } else {
        reply := C.Done(C.ESpace);
      }
    }

    /** shmc_del_nolock. */
    method Del(key: Bytes) returns (reply: C.Reply)
      requires C.Wf(cfg, abs) && Valid()
      modifies hnext, buckets, next, prev, heads, tails, slabs, `nitems, `g, `abs
      ensures Valid()
      ensures (abs, reply) == C.Del(cfg, old(abs), key)
      ensures reply == (if key in old(abs.items) then C.Done(C.OK) else C.Done(C.NotFound)) && key !in abs.items
    {
      hide Good, C.Shape, C.Recency, C.Conserved, C.Discard;
      var item := Find(key);
      if item == 0 { return C.Done(C.NotFound); }
      Conservation.DiscardConserves(cfg, abs, key);
      Discard(key, item);
      reply := C.Done(C.OK);
    }

    lemma FrameDims()
      requires Frame()
      ensures Dims()
    {
    }

    /** The header and bytes of a freshly published item: flags, key, value. */
    method Fill(key: Bytes, item: Addr, val: Bytes, flags: C.Flags)
      requires key in g.loc && item == g.loc[key] && item in g.cls && key in abs.items && item < meta.Length
      requires abs.items[key] == C.Entry(val, flags)
      requires cfg.Valid() && C.HasClass(cfg, key, |val|) && C.Class(cfg, key, |val|) == g.cls[item]
      requires meta[item].clsid == g.cls[item] && meta[item].nkey == |key| && meta[item].nval == |val|
      requires Open(item)
      modifies meta, raw
      ensures Good()
      ensures OnlyHeader(old(meta[..]), meta[..], item)
    {
      hide Frame, OpenContent, C.HasClass, C.Class;
      FrameDims();
      Room(item);
      ghost var m0 := meta[..];
      WriteMeta(item, item, meta[item].(flags := flags));
      assert OnlyHeader(m0, meta[..], item);
      hide OnlyHeader;
      ghost var m1 := meta[..];
      Poke(item, HEADER, key);
      ghost var r1 := raw[..];
      Poke(item, HEADER + |key|, val);
      assert meta[..] == m1;
      SpliceKeeps(r1, item + HEADER + |key|, val, item + HEADER, item + HEADER + |key|);
      Close(key, item, C.Entry(val, flags));
    }

    /** shmc_set_nolock. */
    method Set(key: Bytes, val: Bytes, flags: C.Flags) returns (reply: C.Reply)
      requires C.Wf(cfg, abs) && C.SetDefined(cfg, key, |val|) && Valid()
      modifies hnext, buckets, next, prev, heads, tails, slabs, meta, raw, `memUsed, `nitems, `g, `abs
      ensures Valid()
      ensures (abs, reply) == C.Set(cfg, old(abs), key, val, flags)
      ensures reply == C.Done(C.OK) ==> key in g.loc && OnlyHeader(old(meta[..]), meta[..], g.loc[key])
    {
      hide Good, Open, C.Shape, C.Recency, C.Conserved, C.Alloc, C.Insert, C.Discard, C.AllocSource;
      Conservation.ClassRange(cfg, abs);
      Conservation.SetKeeps(cfg, abs, key, val, flags);
      if !cfg.SizeOk(C.ItemSize(key, |val|)) { return C.Done(C.ESize); }
      ghost var id, m0 := C.Class(cfg, key, |val|), meta[..];
      var _ := Del(key);
      Conservation.ClassRange(cfg, abs);
      var item := ItemAlloc(|key|, |val|, id);
      if item == 0 { return C.Done(C.NoMemory); }
      ghost var m1 := meta[..];
      assert OnlyHeader(old(meta[..]), meta[..], item);
      hide OnlyHeader;
      Publish(key, item, C.Entry(val, flags));
      assert meta[..] == m1;
      Fill(key, item, val, flags);
      OnlyTwice(m0, m1, meta[..], item);
      reply := C.Done(C.OK);
    }
  
    /** shmc_add_nolock. */
    method Add(key: Bytes, val: Bytes, flags: C.Flags) returns (reply: C.Reply)
      requires C.Wf(cfg, abs) && C.AddDefined(cfg, abs, key, |val|) && Valid()
      modifies hnext, buckets, next, prev, heads, tails, slabs, meta, raw, `memUsed, `nitems, `g, `abs
      ensures Valid()
      ensures (abs, reply) == C.AddNew(cfg, old(abs), key, val, flags)
    {
      hide Good, C.Shape, C.Recency, C.Conserved, C.Set;
      var item := Find(key);
      if item != 0 { return C.Done(C.Exist); }
      reply := Set(key, val, flags);
    }

    /** What is known of a chunk while its item is being rewritten in place. */
    ghost predicate Keyed(key: Bytes, item: Addr)
      reads this, next, prev, hnext, meta, raw, heads, tails, buckets, slabs
    {
      && key in g.loc && item == g.loc[key] && item in g.cls && key in abs.items && item < meta.Length
      && g.cls[item] < |cfg.sizes| && item + cfg.sizes[g.cls[item]] <= raw.Length
      && C.ItemSize(key, 0) <= cfg.sizes[g.cls[item]]
      && meta[item].clsid == g.cls[item] && meta[item].nkey == |key|
      && raw[item + HEADER..item + HEADER + |key|] == key
    }

    /** item_relink, then the in-place rewrite begins: the entry of the key is to become e. */
    method RelinkAndOpen(key: Bytes, item: Addr, ghost e: C.Entry)
      requires key in g.loc && item == g.loc[key] && C.Wf(cfg, abs) && key in abs.items
      requires C.HasClass(cfg, key, |e.val|) && C.Class(cfg, key, |e.val|) == C.ClassIn(cfg, abs, key)
      requires Good()
      modifies next, prev, heads, tails, `g, `abs
      ensures Open(item) && Keyed(key, item) && g == old(g).(lru := g.lru)
      ensures C.Class(cfg, key, |e.val|) == g.cls[item]
      ensures abs == C.Refresh(cfg, old(abs), key, e)
    {
      hide Structure, ContentOk, PoolOk, Listed, Abstracts, Config.Valid, C.Wf, C.Touch, C.Class, C.HasClass, C.Rewrite,
           OpenContent;
      Relink(key, item);
      KeyFacts(key);
      Room(item);
      BeginRewrite(key, item, e);
    }

    /** The in-place branch of shmc_replace_nolock, after item_relink. */
    method ReplaceBytes(key: Bytes, item: Addr, val: Bytes, flags: C.Flags)
      requires Keyed(key, item) && abs.items[key] == C.Entry(val, flags)
      requires cfg.Valid() && C.HasClass(cfg, key, |val|) && C.Class(cfg, key, |val|) == g.cls[item]
      requires Open(item)
      modifies meta, raw
      ensures Good()
    {
      hide Frame, OpenContent, C.HasClass, C.Class;
      WriteMeta(item, item, meta[item].(flags := flags));
      ghost var r1 := raw[..];
      Poke(item, HEADER + |key|, val);
      SpliceKeeps(r1, item + HEADER + |key|, val, item + HEADER, item + HEADER + |key|);
      WriteMeta(item, item, meta[item].(nval := |val|));
      Close(key, item, C.Entry(val, flags));
    }

    /** shmc_replace_nolock. */
    method Replace(key: Bytes, val: Bytes, flags: C.Flags) returns (reply: C.Reply)
      requires C.Wf(cfg, abs) && C.ReplaceDefined(cfg, abs, key, |val|) && Valid()
      modifies hnext, buckets, next, prev, heads, tails, slabs, meta, raw, `memUsed, `nitems, `g, `abs
      ensures Valid()
      ensures (abs, reply) == C.Replace(cfg, old(abs), key, val, flags)
    {
      hide Good, Open, C.Shape, C.Recency, C.Conserved, C.Refresh, C.Discard, C.Set;
      Conservation.ClassRange(cfg, abs);
      Conservation.ReplaceKeeps(cfg, abs, key, val, flags);
      var item := Find(key);
      if item == 0 { return C.Done(C.NotFound); }
      var same := SameClassid(key, item, |val|);
      if same {
        RelinkAndOpen(key, item, C.Entry(val, flags));
        ReplaceBytes(key, item, val, flags);
        reply := C.Done(C.OK);
      } else {
        Conservation.DiscardConserves(cfg, abs, key);
        Discard(key, item);
        reply := Set(key, val, flags);
      }
    }

    /** item->clsid == item_clsid(shmc, nkey, nval). */
    method SameClassid(key: Bytes, item: Addr, nval: nat) returns (same: bool)
      requires C.Wf(cfg, abs) && key in abs.items && key in g.loc && item == g.loc[key]
      requires cfg.Valid() && C.HasClass(cfg, key, nval)
      requires Good()
      ensures same <==> C.ClassIn(cfg, abs, key) == C.Class(cfg, key, nval)
    {
      hide LruOk, FreeOk, ChainsOk, OwnOk, ContentOk, PoolOk, Listed, Abstracts, Config.Valid, C.Wf, Config.ClassOf;
      KeyFacts(key);
      var id := ItemClsid(C.ItemSize(key, nval));
      same := meta[item].clsid == id;
    }
  
    /** memmove of the value behind room for the new bytes, then memcpy of the new bytes in front. */
    method PrependBytes(item: Addr, off: nat, nval: nat, val: Bytes)
      requires item in g.cls && g.cls[item] < |cfg.sizes| && HEADER <= off
      requires off + nval + |val| <= cfg.sizes[g.cls[item]] && item + cfg.sizes[g.cls[item]] <= raw.Length
      requires Open(item)
      modifies raw
      ensures Open(item)
      ensures raw[item + off..item + off + |val| + nval] == val + old(raw[item + off..item + off + nval])
      ensures raw[item + HEADER..item + off] == old(raw[item + HEADER..item + off])
    {
      hide Open, Splice;
      PrependSplices(raw[..], item + HEADER, item + off, nval, val);
      Poke(item, off + |val|, raw[item + off..item + off + nval]);
      Poke(item, off, val);
    }

    /** memcpy of the new bytes behind the value. */
    method AppendBytes(item: Addr, off: nat, nval: nat, val: Bytes)
      requires item in g.cls && g.cls[item] < |cfg.sizes| && HEADER <= off
      requires off + nval + |val| <= cfg.sizes[g.cls[item]] && item + cfg.sizes[g.cls[item]] <= raw.Length
      requires Open(item)
      modifies raw
      ensures Open(item)
      ensures raw[item + off..item + off + nval + |val|] == old(raw[item + off..item + off + nval]) + val
      ensures raw[item + HEADER..item + off] == old(raw[item + HEADER..item + off])
    {
      hide Open, Splice;
      AppendSplice(raw[..], item + HEADER, item + off, nval, val);
      Poke(item, off + nval, val);
    }

    /** The in-place branch of prepend and append, after item_relink: the value grows inside its chunk. */
    method GrowInPlace(key: Bytes, item: Addr, val: Bytes, flags: C.Flags, end: C.End, ghost was: Bytes)
      requires Keyed(key, item) && abs.items[key] == C.Entry(C.Joined(was, val, end), flags)
      requires cfg.Valid() && C.HasClass(cfg, key, |val| + |was|) && C.Class(cfg, key, |val| + |was|) == g.cls[item]
      requires meta[item].nval == |was|
      requires raw[item + HEADER + |key|..item + HEADER + |key| + |was|] == was
      requires Open(item)
      modifies meta, raw
      ensures Good()
    {
      hide OpenContent, C.HasClass, C.Class, LruOk, FreeOk, ChainsOk, OwnOk, PoolOk, SizesOk, Listed, Abstracts,
           Config.Valid;
      var nval := meta[item].nval;
      WriteMeta(item, item, meta[item].(flags := flags));
      ghost var m := meta[item];
      if end == C.Front {
        PrependBytes(item, HEADER + |key|, nval, val);
      } else {
        AppendBytes(item, HEADER + |key|, nval, val);
      }
      assert meta[item] == m;
      WriteMeta(item, item, meta[item].(nval := nval + |val|));
      Close(key, item, C.Entry(C.Joined(was, val, end), flags));
    }
  
    lemma Apart2(a: Addr, b: Addr)
      requires a in g.cls && b in g.cls && a != b && Frame()
      ensures g.cls[a] < |cfg.sizes| && g.cls[b] < |cfg.sizes|
      ensures a + cfg.sizes[g.cls[a]] <= b || b + cfg.sizes[g.cls[b]] <= a
    {
      hide LruLists, FreeLists, ChainLists, Own, Indexed, Listed, Pool, Abstracts, Config.Valid, SizesOk;
      ChunksApart(cfg, base, base + memUsed, g.cls, a, b);
    }

    /** memcpy of the key, of the new bytes, and of the old value at d behind them. */
    method JoinFront(itemNew: Addr, ghost size: nat, key: Bytes, d: Addr, nval: nat, val: Bytes)
      requires itemNew in g.cls && g.cls[itemNew] < |cfg.sizes| && size == cfg.sizes[g.cls[itemNew]]
      requires itemNew + size <= raw.Length && HEADER + |key| + nval + |val| <= size
      requires d + nval <= itemNew || itemNew + size <= d
      requires d + nval <= raw.Length
      requires Open(itemNew)
      modifies raw
      ensures Open(itemNew)
      ensures raw[itemNew + HEADER..itemNew + HEADER + |key|] == key
      ensures raw[itemNew + HEADER + |key|..itemNew + HEADER + |key| + |val| + nval] == val + old(raw[d..d + nval])
    {
      hide Open, Splice;
      JoinSplices(raw[..], itemNew + HEADER, key, val, raw[d..d + nval], d, d + nval);
      Poke(itemNew, HEADER, key);
      Poke(itemNew, HEADER + |key|, val);
      Poke(itemNew, HEADER + |key| + |val|, raw[d..d + nval]);
    }

    /** memcpy of the key, of the old value at d, and of the new bytes behind it. */
    method JoinBack(itemNew: Addr, ghost size: nat, key: Bytes, d: Addr, nval: nat, val: Bytes)
      requires itemNew in g.cls && g.cls[itemNew] < |cfg.sizes| && size == cfg.sizes[g.cls[itemNew]]
      requires itemNew + size <= raw.Length && HEADER + |key| + nval + |val| <= size
      requires d + nval <= itemNew || itemNew + size <= d
      requires d + nval <= raw.Length
      requires Open(itemNew)
      modifies raw
      ensures Open(itemNew)
      ensures raw[itemNew + HEADER..itemNew + HEADER + |key|] == key
      ensures raw[itemNew + HEADER + |key|..itemNew + HEADER + |key| + |val| + nval] == old(raw[d..d + nval]) + val
    {
      hide Open, Splice;
      JoinSplices(raw[..], itemNew + HEADER, key, raw[d..d + nval], val, d, d + nval);
      Poke(itemNew, HEADER, key);
      Poke(itemNew, HEADER + |key|, raw[d..d + nval]);
      Poke(itemNew, HEADER + |key| + nval, val);
    }

    /** The copying of the growing branch: the new flags go to the old item, the key and both parts of
        the value to the new chunk. */
    method GrowBytes(key: Bytes, item: Addr, itemNew: Addr, val: Bytes, flags: C.Flags, end: C.End,
                     ghost was: Bytes, ghost e: C.Entry)
      requires item in g.held && item in g.cls && item < meta.Length && itemNew != item
      requires key in g.loc && g.loc[key] == itemNew && itemNew in g.cls && key in abs.items && itemNew < meta.Length
      requires e == C.Entry(C.Joined(was, val, end), meta[itemNew].flags) && abs.items[key] == e
      requires cfg.Valid() && C.HasClass(cfg, key, |e.val|) && C.Class(cfg, key, |e.val|) == g.cls[itemNew]
      requires meta[itemNew] == Meta(g.cls[itemNew], e.flags, |key|, |e.val|)
      requires meta[item].nkey == |key| && meta[item].nval == |was| && g.cls[item] < |cfg.sizes|
      requires C.ItemSize(key, |was|) <= cfg.sizes[g.cls[item]] && item + C.ItemSize(key, |was|) <= raw.Length
      requires raw[item + HEADER + |key|..item + HEADER + |key| + |was|] == was
      requires Open(itemNew)
      modifies meta, raw
      ensures Good()
      ensures meta[item] == old(meta[item]).(flags := flags)
    {
      hide Good, Open, Frame, C.HasClass, C.Class, C.Joined, Config.Valid;
      OpenFrame(itemNew);
      Room(itemNew);
      Apart2(itemNew, item);
      WriteMeta(itemNew, item, meta[item].(flags := flags));
      ghost var m, m1 := meta[itemNew], meta[item];
      JoinBytes(itemNew, cfg.sizes[g.cls[itemNew]], key, item + HEADER + meta[item].nkey, meta[item].nval, val, end,
                was, e.val);
      assert meta[itemNew] == m && meta[item] == m1;
      Close(key, itemNew, e);
    }

    lemma OpenFrame(item: Addr)
      requires Open(item)
      ensures Frame() && raw as object != meta
    {
    }

    /** The key and the joined value. */
    method JoinBytes(itemNew: Addr, ghost size: nat, key: Bytes, d: Addr, nval: nat, val: Bytes, end: C.End,
                     ghost was: Bytes, ghost joined: Bytes)
      requires itemNew in g.cls && g.cls[itemNew] < |cfg.sizes| && size == cfg.sizes[g.cls[itemNew]]
      requires itemNew + size <= raw.Length && HEADER + |key| + |joined| <= size
      requires d + nval <= itemNew || itemNew + size <= d
      requires d + nval <= raw.Length && raw[d..d + nval] == was && joined == C.Joined(was, val, end)
      requires Open(itemNew)
      modifies raw
      ensures raw[itemNew + HEADER..itemNew + HEADER + |key|] == key
      ensures raw[itemNew + HEADER + |key|..itemNew + HEADER + |key| + |joined|] == joined
      ensures Open(itemNew)
    {
      hide Open;
      if end == C.Front {
        JoinFront(itemNew, size, key, d, nval, val);
      } else {
        JoinBack(itemNew, size, key, d, nval, val);
      }
    }

    /** The in-place branch of prepend and append. */
    method GrowSame(key: Bytes, item: Addr, val: Bytes, flags: C.Flags, end: C.End, ghost e: C.Entry)
      requires C.Wf(cfg, abs) && key in abs.items && key in g.loc && item == g.loc[key]
      requires cfg.Valid() && C.HasClass(cfg, key, |e.val|) && C.Class(cfg, key, |e.val|) == C.ClassIn(cfg, abs, key)
      requires e == C.Entry(C.Joined(abs.items[key].val, val, end), flags)
      requires Good()
      modifies next, prev, heads, tails, meta, raw, `g, `abs
      ensures Good() && g == old(g).(lru := g.lru)
      ensures abs == C.Refresh(cfg, old(abs), key, e)
    {
      hide LruOk, FreeOk, ChainsOk, OwnOk, ContentOk, PoolOk, SizesOk, Listed, Abstracts, Config.Valid, C.Wf, C.Refresh,
           C.HasClass, C.Class, C.ClassIn, OpenContent;
      assert Dims();
      KeyFacts(key);
      hide Good, Open;
      ghost var was := abs.items[key].val;
      ghost var r, m := raw[..], meta[item];
      RelinkAndOpen(key, item, e);
      assert raw[..] == r && meta[item] == m;
      GrowInPlace(key, item, val, flags, end, was);
    }

    /** assoc_delete and item_unlink of the old chunk, assoc_insert and item_link of the new one. */
    method SwapChunks(key: Bytes, item: Addr, itemNew: Addr, ghost e: C.Entry)
      requires itemNew in g.cls && itemNew !in g.keyOf && itemNew < meta.Length && g.held == {itemNew}
      requires C.Wf(cfg, abs) && key in abs.items && key in g.loc && g.loc[key] == item && itemNew != item
      requires C.HasClass(cfg, key, |e.val|) && meta[itemNew].clsid == g.cls[itemNew] == C.Class(cfg, key, |e.val|)
      requires Good()
      modifies hnext, buckets, next, prev, heads, tails, `nitems, `g, `abs
      ensures Open(itemNew)
      ensures abs == C.Insert(cfg, C.Remove(cfg, old(abs), key), key, e)
      ensures key in g.loc && g.loc[key] == itemNew && g.cls == old(g.cls) && g.held == {item}
    {
      hide LruOk, FreeOk, ChainsOk, OwnOk, ContentOk, PoolOk, SizesOk, Listed, Abstracts, Config.Valid, C.Wf, C.Remove,
           C.Insert, C.HasClass, C.Class, OpenContent;
      assert Dims();
      hide Good, Open;
      Detach(key, item);
      KeysAgree(key);
      Publish(key, itemNew, e);
    }

    /** The growing branch of prepend and append, once the new chunk is there. */
    method MoveToNew(key: Bytes, item: Addr, itemNew: Addr, val: Bytes, flags: C.Flags, end: C.End,
                     ghost was: Bytes, ghost wasId: nat, ghost id: nat)
      requires itemNew in g.cls && g.cls[itemNew] == id && itemNew !in g.keyOf && itemNew < meta.Length
      requires g.held == {itemNew} && meta[itemNew] == Meta(id, meta[itemNew].flags, |key|, |val| + |was|)
      requires C.Wf(cfg, abs) && key in abs.items && abs.items[key].val == was && C.ClassIn(cfg, abs, key) == wasId
      requires key in g.loc && g.loc[key] == item
      requires cfg.Valid() && C.HasClass(cfg, key, |val| + |was|) && C.Class(cfg, key, |val| + |was|) == id
      requires wasId < |cfg.sizes|
      requires Good()
      modifies hnext, buckets, next, prev, heads, tails, slabs, meta, raw, `nitems, `g, `abs
      ensures Good() && g.held == {} && key in g.loc && g.loc[key] == itemNew
      ensures var t, e := old(abs), C.Entry(C.Joined(was, val, end), old(meta[itemNew].flags));
              abs == C.Release(cfg, C.Insert(cfg, C.Remove(cfg, t, key), key, e), wasId)
    {
      hide LruOk, FreeOk, ChainsOk, OwnOk, ContentOk, PoolOk, SizesOk, Listed, Abstracts, Config.Valid, C.Wf, C.Remove,
           C.Insert, C.Release, C.HasClass, C.Class, C.ClassIn, OpenContent, Config.ClassOf, C.Joined;
      assert Dims();
      KeyFacts(key);
      hide Open;
      ghost var e := C.Entry(C.Joined(was, val, end), meta[itemNew].flags);
      ghost var m, m1, r := meta[item], meta[itemNew], raw[..];
      SwapChunks(key, item, itemNew, e);
      assert meta[item] == m && meta[itemNew] == m1 && raw[..] == r;
      GrowBytes(key, item, itemNew, val, flags, end, was, e);
      LengthsAgree();
      hide Good;
      Reclaim(item, wasId);
    }

    /** shmc_prepend_nolock (end is Front) and shmc_append_nolock (end is Back).  stale is what the flags
        field of the chunk handed out by item_alloc held before. */
    method Grow(key: Bytes, val: Bytes, flags: C.Flags, end: C.End) returns (reply: C.Reply, ghost stale: C.Flags)
      requires C.Wf(cfg, abs) && C.GrowDefined(cfg, abs, key, |val|) && Valid()
      modifies hnext, buckets, next, prev, heads, tails, slabs, meta, raw, `memUsed, `nitems, `g, `abs
      ensures Valid()
      ensures (abs, reply) == C.GrowValue(cfg, old(abs), key, val, flags, end, stale)
      ensures reply == C.Done(C.OK) ==>
                && key in old(abs.items) && key in abs.items
                && C.Extends(old(abs.items)[key].val, val, end, abs.items[key].val)
      ensures reply == C.Done(C.OK) && key in old(abs.items) ==>
                var nval := |val| + |old(abs.items)[key].val|;
                !Runs.StaysPut(cfg, old(abs), key, nval) ==>
                  var id := C.Class(cfg, key, nval);
                  && key in g.loc && key in old(g.loc) && g.loc[key] == old(ChunkFor(id)) != old(g.loc)[key]
                  && FromHeader(cfg, old(abs), id, g.loc[key], old(meta[..]), stale)
    {
      hide LruOk, FreeOk, ChainsOk, OwnOk, ContentOk, PoolOk, SizesOk, Listed, Abstracts, C.Conserved, C.Refresh,
           C.Alloc, C.AllocSource, C.Remove, C.Insert, C.Release, Config.ClassOf, Config.Valid, C.Joined;
      assert Dims();
      Conservation.ClassRange(cfg, abs);
      hide C.Shape, C.Recency;
      stale := flags;
      ghost var s := abs;
      var item := Find(key);
      if item == 0 { return C.Done(C.NotFound), flags; }
      KeyFacts(key);
      hide Good;
      ghost var was := abs.items[key].val;
      var nval := meta[item].nval;
      var same := SameClassid(key, item, |val| + nval);
      if same {
        Conservation.GrowKeepsInv(cfg, s, key, val, flags, end, flags);
        GrowSame(key, item, val, flags, end, C.Entry(C.Joined(was, val, end), flags));
        Outcomes.GrowExtends(cfg, s, key, val, flags, end, flags);
        return C.Done(C.OK), flags;
      }
      if !cfg.SizeOk(C.ItemSize(key, |val| + nval)) { return C.Done(C.ESize), flags; }
      hide Runs.StaysPut, FromHeader, C.GrowMove;
      ghost var id := C.Class(cfg, key, |val| + nval);
      reply, stale := GrowElsewhere(key, item, val, flags, end, s, id, ChunkFor(id));
      Conservation.GrowKeepsInv(cfg, s, key, val, flags, end, stale);
      if reply == C.Done(C.OK) { Outcomes.GrowExtends(cfg, s, key, val, flags, end, stale); }
    }

    /** The branch of prepend and append for a value of another class. */
    method GrowElsewhere(key: Bytes, item: Addr, val: Bytes, flags: C.Flags, end: C.End, ghost s: C.Cache,
                         ghost id: nat, ghost home: Addr)
      returns (reply: C.Reply, ghost stale: C.Flags)
      requires s == abs && key in s.items && key in g.loc && item == g.loc[key] && g.held == {}
      requires cfg.Valid() && id < |cfg.sizes| && id < |s.lru| && C.HasClass(cfg, key, |val| + |s.items[key].val|)
      requires id == C.Class(cfg, key, |val| + |s.items[key].val|)
      requires cfg.SizeOk(C.ItemSize(key, |val| + |s.items[key].val|))
      requires C.Wf(cfg, s)
      requires id != C.ClassIn(cfg, s, key) && home == ChunkFor(id)
      requires Good()
      modifies hnext, buckets, next, prev, heads, tails, slabs, meta, raw, `memUsed, `nitems, `g, `abs
      ensures (abs, reply) == Moved(cfg, s, key, val, end, stale, id)
      ensures reply == C.Done(C.OK) ==> key in g.loc && g.loc[key] == home != item
      ensures reply == C.Done(C.OK) ==> FromHeader(cfg, s, id, home, old(meta[..]), stale)
      ensures g.held == {} && Good()
    {
      hide LruOk, FreeOk, ChainsOk, OwnOk, ContentOk, PoolOk, SizesOk, Listed, Abstracts, C.Conserved, C.Refresh,
           C.Alloc, C.AllocSource, C.Remove, C.Insert, C.Release, Config.ClassOf, Config.Valid, C.Joined, C.Shape,
           C.Recency, ChunkFor;
      assert Dims();
      KeyFacts(key);
      LengthsAgree();
      ghost var was := s.items[key].val;
      stale := flags;
      ghost var source := C.AllocSource(cfg, s, id);
      if source.FromVictim? {
        KeysAgree(source.key);
        KeyFacts(source.key);
      }
      hide Good;
      C.GrowKeeps(cfg, s, key, id);
      var nval := meta[item].nval;
      var itemNew := ItemAlloc(|key|, |val| + nval, id);
      if itemNew == 0 { return C.Done(C.NoMemory), flags; }
      stale := meta[itemNew].flags;
      KeysAgree(key);
      KeyFacts(key);
      MoveToNew(key, item, itemNew, val, flags, end, was, C.ClassIn(cfg, s, key), id);
      reply := C.Done(C.OK);
    }
  
    // ----- incr and decr

    /** sprintf of a number over the value area of the item being written. */
    method PrintCell(item: Addr, off: nat, n: nat)
      requires item in g.cls && g.cls[item] < |cfg.sizes| && HEADER <= off && n < Counter.U64
      requires off + Counter.CELL <= cfg.sizes[g.cls[item]] && item + cfg.sizes[g.cls[item]] <= raw.Length
      requires Open(item)
      modifies raw
      ensures Open(item)
      ensures raw[item + off..item + off + Counter.CELL]
           == Counter.Cell(n, old(raw[item + off..item + off + Counter.CELL]))
      ensures raw[item + HEADER..item + off] == old(raw[item + HEADER..item + off])
    {
      hide Open, Splice;
      Counter.CellFits(n);
      var text := Counter.Print(n) + [0];
      hide Counter.Print;
      SpliceFront(raw[..], item + off, text, Counter.CELL);
      SpliceKeeps(raw[..], item + off, text, item + HEADER, item + off);
      Poke(item, off, text);
    }

    /** The branch of shmc_arithmetic for a value that is a counter cell already. */
    method StepCell(key: Bytes, item: Addr, n: nat, ghost e: C.Entry)
      requires C.Wf(cfg, abs) && key in abs.items && key in g.loc && item == g.loc[key] && n < Counter.U64
      requires |abs.items[key].val| == Counter.CELL
      requires e == C.Entry(Counter.Cell(n, abs.items[key].val), abs.items[key].flags)
      requires cfg.Valid() && C.HasClass(cfg, key, |e.val|) && C.Class(cfg, key, |e.val|) == C.ClassIn(cfg, abs, key)
      requires Good()
      modifies raw, `abs
      ensures Good() && abs == C.Rewrite(cfg, old(abs), key, e)
    {
      hide LruOk, FreeOk, ChainsOk, OwnOk, ContentOk, PoolOk, SizesOk, Listed, Abstracts, Config.Valid, C.Wf, C.Rewrite,
           C.HasClass, C.Class, C.ClassIn, OpenContent, Counter.Cell;
      assert Dims();
      KeyFacts(key);
      Room(item);
      hide Good, Open;
      ghost var m := meta[item];
      BeginRewrite(key, item, e);
      assert meta[item] == m;
      PrintCell(item, HEADER + |key|, n);
      assert meta[item] == m;
      Close(key, item, e);
    }

    /** A new counter cell: assoc_insert and item_link, flags, key, spaces, the number. */
    method NewCell(key: Bytes, item: Addr, n: nat, f: Option<C.Flags>, oldFlags: C.Flags, ghost e: C.Entry)
      requires item in g.held && item in g.cls && item !in g.keyOf && item < meta.Length && n < Counter.U64
      requires C.Wf(cfg, abs) && key !in abs.items
      requires e == C.Entry(Counter.Cell(n, Counter.Blank()), C.Or(f, oldFlags))
      requires cfg.Valid() && C.HasClass(cfg, key, |e.val|)
      requires meta[item] == Meta(C.Class(cfg, key, |e.val|), meta[item].flags, |key|, Counter.CELL)
      requires g.cls[item] == C.Class(cfg, key, |e.val|)
      requires Good()
      modifies hnext, buckets, next, prev, heads, tails, meta, raw, `nitems, `g, `abs
      ensures Good() && g.held == old(g.held) - {item}
      ensures abs == C.Insert(cfg, old(abs), key, e)
      ensures meta[item].flags == e.flags
    {
      hide LruOk, FreeOk, ChainsOk, OwnOk, ContentOk, PoolOk, SizesOk, Listed, Abstracts, Config.Valid, C.Wf, C.Insert,
           C.HasClass, C.Class, OpenContent, Counter.Cell, Counter.Blank;
      assert Dims();
      ghost var m := meta[item];
      ClassRoom(key, item, |e.val|);
      hide Good;
      Publish(key, item, e);
      assert meta[item] == m;
      hide Open;
      WriteMeta(item, item, meta[item].(flags := oldFlags));
      if f.Some? { WriteMeta(item, item, meta[item].(flags := f.value)); }
      ghost var m1 := meta[item];
      var blank := Counter.Blank();
      BlankCell(key, item, blank);
      assert meta[item] == m1;
      PrintCell(item, HEADER + |key|, n);
      assert meta[item] == m1;
      Close(key, item, e);
    }

    lemma ClassRoom(key: Bytes, item: Addr, nval: nat)
      requires cfg.Valid() && C.HasClass(cfg, key, nval) && item in g.cls && g.cls[item] == C.Class(cfg, key, nval)
      requires Good()
      ensures g.cls[item] < |cfg.sizes| && C.ItemSize(key, nval) <= cfg.sizes[g.cls[item]]
      ensures item + cfg.sizes[g.cls[item]] <= raw.Length
    {
      hide LruOk, FreeOk, ChainsOk, OwnOk, ContentOk, SizesOk, Listed, Abstracts, Config.ClassOf;
      Room(item);
    }

    /** memcpy of the key and memset of the value area. */
    method BlankCell(key: Bytes, item: Addr, blank: Bytes)
      requires item in g.cls && g.cls[item] < |cfg.sizes| && |blank| == Counter.CELL
      requires C.ItemSize(key, |blank|) <= cfg.sizes[g.cls[item]] && item + cfg.sizes[g.cls[item]] <= raw.Length
      requires Open(item)
      modifies raw
      ensures Open(item)
      ensures raw[item + HEADER..item + HEADER + |key|] == key
      ensures raw[item + HEADER + |key|..item + HEADER + |key| + |blank|] == blank
    {
      hide Open, Splice;
      var k := item + HEADER;
      ghost var r0 := raw[..];
      SplicedIn(r0, k, key);
      Poke(item, HEADER, key);
      ghost var r1 := raw[..];
      SplicedIn(r1, k + |key|, blank);
      SpliceKeeps(r1, k + |key|, blank, k, k + |key|);
      Poke(item, HEADER + |key|, blank);
    }
  
    /** What happens when the allocation for a counter has evicted the very item being updated, so that
        the new chunk is the old one: assoc_delete finds nothing, item_unlink changes nothing, item_free
        puts the chunk on the free list, and sprintf writes into it there. */
    method DropSelf(key: Bytes, item: Addr, n: nat, ghost id: nat)
      requires item in g.held && item in g.cls && g.cls[item] == id && item < meta.Length && item !in g.keyOf
      requires g.held == {item} && key !in g.loc && n < Counter.U64 && id < |cfg.sizes|
      requires meta[item] == Meta(id, meta[item].flags, |key|, Counter.CELL)
      requires item < next.Length && item < prev.Length && next[item] == 0 == prev[item]
      requires cfg.Valid() && C.HasClass(cfg, key, Counter.CELL) && C.Class(cfg, key, Counter.CELL) == id
      requires C.Wf(cfg, abs) && id < |abs.free|
      requires Good()
      modifies hnext, buckets, next, prev, heads, tails, slabs, raw, `nitems, `g, `abs
      ensures Good() && g.held == {}
      ensures abs == C.Release(cfg, old(abs), id)
    {
      hide LruLists, FreeLists, ChainLists, Own, Indexed, Listed, Content, Pool, Abstracts, Config.Valid, C.Wf,
           SizesOk, C.Release, Config.ClassOf, Splice, C.Recency;
      LengthsAgree();
      ClassRoom(key, item, Counter.CELL);
      ghost var g0 := g;
      AssocDelete(key);
      assert ContentOk() && raw[..] == old(raw[..]) && meta[..] == old(meta[..]);
      NotListed(item);
      ItemUnlink(item);
      assert g == g0 && raw[..] == old(raw[..]) && meta[..] == old(meta[..]);
      assert Good();
      Reclaim(item, id);
      assert g.keyOf == g0.keyOf && g.cls == g0.cls;
      Counter.CellFits(n);
      ScratchWrite(item, HEADER + |key|, Counter.Print(n) + [0]);
    }

    /** The new chunk is the old one exactly when the key has lost its item to the allocation. */
    lemma SelfIffVictim(key: Bytes, item: Addr, itemNew: Addr, self: bool)
      requires Good() && itemNew !in g.keyOf
      requires self ==> itemNew == item
      requires !self ==> key in g.loc && g.loc[key] == item
      ensures self <==> itemNew == item
    {
      hide LruLists, FreeLists, ChainLists, Own, Indexed, Listed, Pool, Abstracts, Config.Valid, SizesOk, Content;
      if !self { KeyFacts(key); }
    }

    lemma NotListed(item: Addr)
      requires item in g.held && OwnOk()
      ensures forall id :: 0 <= id < |g.lru| ==> item !in g.lru[id]
    {
    }

    /** Bytes written into a chunk that holds no item. */
    method ScratchWrite(item: Addr, off: nat, src: Bytes)
      requires item in g.cls && item !in g.keyOf && g.cls[item] < |cfg.sizes|
      requires off + |src| <= cfg.sizes[g.cls[item]] && item + cfg.sizes[g.cls[item]] <= raw.Length
      requires Good()
      modifies raw
      ensures Good()
    {
      hide LruLists, FreeLists, ChainLists, Own, Indexed, Listed, Pool, Abstracts, Config.Valid, SizesOk, Content;
      ghost var r0 := raw[..];
      forall i | 0 <= i < |src| { raw[item + off + i] := src[i]; }
      assert meta[..] == old(meta[..]);
      WriteFree(cfg, base, base + memUsed, r0, raw[..], meta[..], g, abs.items, item);
    }

    /** *new_val: the sum on 64 bits, or the difference, or 0. */
    method NewNumber(oldVal: nat, delta: nat, incr: bool) returns (n: nat)
      requires oldVal < Counter.U64 && delta < Counter.U64
      ensures n == Counter.Step(oldVal, delta, incr) && Counter.Counted(oldVal, delta, incr, n)
    {
      if incr {
        n := (oldVal + delta) % Counter.U64;
      } else if oldVal < delta {
        n := 0;
      } else {
        n := oldVal - delta;
      }
    }

    /** The key of the item is not a counter cell yet: it moves to a new chunk. */
    method MoveToCell(key: Bytes, item: Addr, n: nat, f: Option<C.Flags>, ghost id: nat) returns (reply: C.Reply)
      requires C.Wf(cfg, abs) && key in abs.items && key in g.loc && item == g.loc[key] && n < Counter.U64
      requires cfg.Valid() && C.HasClass(cfg, key, Counter.CELL) && id == C.Class(cfg, key, Counter.CELL)
      requires cfg.SizeOk(C.ItemSize(key, Counter.CELL))
      requires id < |abs.lru| && id < |abs.free|
      requires Good() && g.held == {}
      modifies hnext, buckets, next, prev, heads, tails, slabs, meta, raw, `memUsed, `nitems, `g, `abs
      ensures Good() && g.held == {}
      ensures (abs, reply) == C.ArithMove(cfg, old(abs), key, n, f)
    {
      hide LruOk, FreeOk, ChainsOk, OwnOk, ContentOk, PoolOk, SizesOk, Listed, Abstracts, C.Conserved, C.AllocSource,
           C.Alloc, C.Remove, C.Insert, C.Release, C.TakeFree, C.Discard, Config.ClassOf, Config.Valid, C.Shape,
           C.Recency;
      assert Dims();
      KeyFacts(key);
      hide Good;
      ghost var s := abs;
      ghost var source := C.AllocSource(cfg, s, id);
      var oldFlags := meta[item].flags;
      var itemNew := ItemAlloc(|key|, Counter.CELL, id);
      if itemNew == 0 { return C.Done(C.NoMemory); }
      KeysAgree(key);
      SelfIffVictim(key, item, itemNew, source == C.FromVictim(key));
      if itemNew == item {
        LengthsAgree();
        C.AllocFromVictim(cfg, s, key, id);
        DropSelf(key, item, n, id);
        reply := C.Number(n, C.Echo(f, oldFlags));
      } else {
        KeyFacts(key);
        Discard(key, item);
        NewCell(key, itemNew, n, f, oldFlags, C.Entry(Counter.Cell(n, Counter.Blank()), C.Or(f, oldFlags)));
        reply := C.Number(n, C.Echo(f, meta[itemNew].flags));
      }
    }
  
    /** shmc_arithmetic. */
    method Arithmetic(key: Bytes, delta: nat, incr: bool, f: Option<C.Flags>) returns (reply: C.Reply)
      requires C.Wf(cfg, abs) && C.ArithDefined(cfg, abs, key) && delta < Counter.U64 && Valid()
      modifies hnext, buckets, next, prev, heads, tails, slabs, meta, raw, `memUsed, `nitems, `g, `abs
      ensures Valid()
      ensures (abs, reply) == C.Arith(cfg, old(abs), key, delta, incr, f)
    {
      hide LruOk, FreeOk, ChainsOk, OwnOk, ContentOk, PoolOk, SizesOk, Listed, Abstracts, C.Conserved, C.AllocSource,
           C.Alloc, C.Insert, C.Discard, C.Rewrite, C.ArithMove, Config.ClassOf, Config.Valid, Counter.Cell,
           Counter.Read, Counter.Counted;
      assert Dims();
      Conservation.ClassRange(cfg, abs);
      Conservation.ArithKeeps(cfg, abs, key, delta, incr, f);
      hide C.Shape, C.Recency;
      ghost var s := abs;
      var item := Find(key);
      if item != 0 {
        KeyFacts(key);
        hide Good;
        var val := CopyValue(key, item);
        var oldVal := Counter.SafeStrtoull(val);
        Counter.ReadBounded(val);
        var n := NewNumber(oldVal, delta, incr);
        if meta[item].nval == Counter.CELL {
          var stored := meta[item].flags;
          Conservation.SameClass(cfg, abs, key, C.Entry(Counter.Cell(n, val), abs.items[key].flags));
          StepCell(key, item, n, C.Entry(Counter.Cell(n, val), abs.items[key].flags));
          reply := C.Number(n, C.Echo(f, stored));
        } else {
          reply := MoveToCell(key, item, n, f, C.Class(cfg, key, Counter.CELL));
        }
      } else if cfg.defaultCounter {
        var n := NewNumber(0, delta, incr);
        reply := FirstCell(key, n, f, C.Class(cfg, key, Counter.CELL));
      } else {
        reply := C.Done(C.NotFound);
      }
    }

    /** shmc_incr and shmc_decr. */
    method Arith(key: Bytes, delta: nat, incr: bool, f: Option<C.Flags>) returns (reply: C.Reply)
      requires C.Wf(cfg, abs) && C.ArithDefined(cfg, abs, key) && delta < Counter.U64 && Valid()
      modifies hnext, buckets, next, prev, heads, tails, slabs, meta, raw, `memUsed, `nitems, `g, `abs
      ensures Valid()
      ensures (abs, reply) == C.Arith(cfg, old(abs), key, delta, incr, f)
      ensures reply.Number? ==>
                Counter.Counted(if key in old(abs.items) then Runs.Readable(old(abs.items)[key].val) else 0, delta,
                                incr, reply.n)
    {
      hide Valid, C.Wf, C.Arith, C.ArithDefined, Counter.Counted, Runs.Readable;
      Outcomes.ArithCounts(cfg, abs, key, delta, incr, f);
      reply := Arithmetic(key, delta, incr, f);
    }

    /** The branch of shmc_arithmetic for an absent key, counters being on by default. */
    method FirstCell(key: Bytes, n: nat, f: Option<C.Flags>, ghost id: nat) returns (reply: C.Reply)
      requires C.Wf(cfg, abs) && key !in abs.items && n < Counter.U64
      requires cfg.Valid() && C.HasClass(cfg, key, Counter.CELL) && id == C.Class(cfg, key, Counter.CELL)
      requires cfg.SizeOk(C.ItemSize(key, Counter.CELL))
      requires id < |abs.lru| && id < |abs.free|
      requires Good() && g.held == {}
      modifies hnext, buckets, next, prev, heads, tails, slabs, meta, raw, `memUsed, `nitems, `g, `abs
      ensures Good() && g.held == {}
      ensures (abs, reply) == if C.AllocSource(cfg, old(abs), id).FromNothing? then (old(abs), C.Done(C.NoMemory))
                              else C.MoveCell(cfg, C.Alloc(cfg, old(abs), id), key, n, f, 0)
    {
      hide LruOk, FreeOk, ChainsOk, OwnOk, ContentOk, PoolOk, SizesOk, Listed, Abstracts, C.Conserved, C.AllocSource,
           C.Alloc, C.Insert, C.TakeFree, C.Discard, Config.ClassOf, Config.Valid, C.Shape, C.Recency;
      assert Dims();
      hide Good;
      var item := ItemAlloc(|key|, Counter.CELL, id);
      if item == 0 { return C.Done(C.NoMemory); }
      NewCell(key, item, n, f, 0, C.Entry(Counter.Cell(n, Counter.Blank()), C.Or(f, 0)));
      reply := C.Number(n, C.Echo(f, meta[item].flags));
    }
  
    // ----- creation

    ghost predicate AllNull(a: array<Addr>)
      reads a
    {
      forall i :: 0 <= i < a.Length ==> a[i] == 0
    }

    /** mmap_create and format_slabs: empty lists, then a first page for every class. */
    constructor (cfg: Config, base: Addr)
      requires cfg.Valid() && base > 0 && Conservation.FirstPagesFit(cfg)
      ensures Valid() && this.cfg == cfg && abs == Conservation.Fresh(cfg)
      ensures NoHeaders(meta[..])
      ensures fresh(next) && fresh(prev) && fresh(hnext) && fresh(meta) && fresh(raw)
      ensures fresh(heads) && fresh(tails) && fresh(buckets) && fresh(slabs)
    {
      this.cfg, this.base := cfg, base;
      next := new Addr[base + cfg.memLimit];
      prev := new Addr[base + cfg.memLimit];
      hnext := new Addr[base + cfg.memLimit];
      meta := new Meta[base + cfg.memLimit](_ => Meta(0, 0, 0, 0));
      raw := new byte[base + cfg.memLimit];
      heads := new Addr[|cfg.sizes|](_ => 0);
      tails := new Addr[|cfg.sizes|](_ => 0);
      buckets := new Addr[cfg.nbuckets](_ => 0);
      slabs := new Slab[|cfg.sizes|](
        i requires 0 <= i < |cfg.sizes| && |cfg.counts| == |cfg.sizes| => Slab(0, cfg.sizes[i], cfg.counts[i]));
      memUsed, nitems := 0, 0;
      g := EmptyLinks(|cfg.sizes|, cfg.nbuckets);
      abs := Conservation.Bare(cfg);
      new;
      hide C.Inv, Good, Conservation.Fresh, Conservation.Bare, EmptyLinks;
      EmptyGood();
      FormatSlabs();
    }

    /** mmap_attach: the arrays of another process over the same memory. */
    constructor Attach(cfg: Config, base: Addr, next: seq<Addr>, prev: seq<Addr>, hnext: seq<Addr>, meta: seq<Meta>,
                       raw: Bytes, heads: seq<Addr>, tails: seq<Addr>, buckets: seq<Addr>, slabs: seq<Slab>,
                       memUsed: nat, nitems: nat, ghost g: Links, ghost abs: C.Cache)
      requires cfg.Valid() && base > 0
      requires |next| == |prev| == |hnext| == |meta| == |raw| == base + cfg.memLimit
      requires |heads| == |tails| == |slabs| == |cfg.sizes| && |buckets| == cfg.nbuckets
      ensures Dims() && this.cfg == cfg && this.base == base && this.memUsed == memUsed && this.nitems == nitems
      ensures this.g == g && this.abs == abs
      ensures this.next[..] == next && this.prev[..] == prev && this.hnext[..] == hnext && this.meta[..] == meta
      ensures this.raw[..] == raw && this.heads[..] == heads && this.tails[..] == tails
      ensures this.buckets[..] == buckets && this.slabs[..] == slabs
      ensures fresh(this.next) && fresh(this.prev) && fresh(this.hnext) && fresh(this.meta) && fresh(this.raw)
      ensures fresh(this.heads) && fresh(this.tails) && fresh(this.buckets) && fresh(this.slabs)
    {
      this.cfg, this.base := cfg, base;
      this.next := new Addr[|next|](i requires 0 <= i < |next| => next[i]);
      this.prev := new Addr[|prev|](i requires 0 <= i < |prev| => prev[i]);
      this.hnext := new Addr[|hnext|](i requires 0 <= i < |hnext| => hnext[i]);
      this.meta := new Meta[|meta|](i requires 0 <= i < |meta| => meta[i]);
      this.raw := new byte[|raw|](i requires 0 <= i < |raw| => raw[i]);
      this.heads := new Addr[|heads|](i requires 0 <= i < |heads| => heads[i]);
      this.tails := new Addr[|tails|](i requires 0 <= i < |tails| => tails[i]);
      this.buckets := new Addr[|buckets|](i requires 0 <= i < |buckets| => buckets[i]);
      this.slabs := new Slab[|slabs|](i requires 0 <= i < |slabs| => slabs[i]);
      this.memUsed, this.nitems, this.g, this.abs := memUsed, nitems, g, abs;
    }

    /** Nothing carved, nothing stored. */
    lemma EmptyGood()
      requires Dims() && SizesOk() && memUsed == 0 && nitems == 0 && cfg.memLimit > 0
      requires g == EmptyLinks(|cfg.sizes|, cfg.nbuckets) && abs == Conservation.Bare(cfg)
      requires AllNull(heads) && AllNull(tails) && AllNull(buckets)
      requires forall i :: 0 <= i < slabs.Length ==> slabs[i].freeItem == 0
      requires forall a :: 0 <= a < meta.Length ==> meta[a] == Meta(0, 0, 0, 0)
      ensures Good() && NoHeaders(meta[..])
    {
      hide LruLists, FreeLists, ChainLists, Own, Indexed, Listed, Content, Pool, Abstracts, Conservation.Bare,
           EmptyLinks;
      EmptyOk(cfg, base, next[..], prev[..], hnext[..], heads[..], tails[..], buckets[..], slabs[..], raw[..],
              meta[..]);
      EmptyCounts();
    }

    lemma EmptyCounts()
      requires cfg.Valid()
      ensures |EmptyLinks(|cfg.sizes|, cfg.nbuckets).loc| == 0 && Conservation.Bare(cfg).items == map[]
    {
    }

    /** The loop of format_slabs. */
    method FormatSlabs()
      requires cfg.Valid() && Conservation.FirstPagesFit(cfg) && abs == Conservation.Bare(cfg)
      requires Good() && g.held == {}
      modifies next, slabs, `memUsed, `g, `abs
      ensures Valid() && abs == Conservation.Fresh(cfg)
      ensures meta[..] == old(meta[..])
    {
      hide Good, C.Shape, C.Recency, Conservation.Bare, C.AddPage, C.Conserved;
      for id := 0 to |cfg.sizes|
        invariant Good() && g.held == {} && abs == Conservation.Formatting(cfg, id)
      {
        Conservation.FormattingFits(cfg, id);
        UsedAgrees();
        CarvePage(id);
      }
      Conservation.FreshInv(cfg);
    }

    lemma UsedAgrees()
      requires Good()
      ensures memUsed == abs.used
    {
    }
  
    /** nitems is the number of items, the total length of the LRU lists, and that of the chains. */
    lemma CountsAgree()
      requires Valid()
      ensures nitems == |abs.items| == Total(abs.lru) == Total(g.chains)
    {
      Runs.ItemsListed(cfg, abs);
      ChainedItems(hnext[..], buckets[..], cfg.nbuckets, g);
      SameKeys();
    }

    /** Every chunk carved lies on the free list of its class, or on the LRU list of its class and on the chain
        of its key's bucket, and on no other list. */
    lemma EveryChunkOnce(a: Addr)
      requires Valid() && a in g.cls
      ensures g.cls[a] < |g.lru| == |g.free| && |g.chains| == cfg.nbuckets > 0
      ensures a in g.free[g.cls[a]] <==> a !in g.lru[g.cls[a]]
      ensures a in g.lru[g.cls[a]] <==> a in g.keyOf
      ensures forall id :: 0 <= id < |g.lru| && id != g.cls[a] ==> a !in g.lru[id] && a !in g.free[id]
      ensures forall b :: 0 <= b < |g.chains| ==>
                (a in g.chains[b] <==> a in g.keyOf && b == Bucket(g.keyOf[a], cfg.nbuckets))
    {
      hide LruLists, FreeLists, ChainLists, Content, Pool, Abstracts, Config.Valid, SizesOk, Bucket, C.Inv;
    }

    /** Chunks carved are disjoint and inside the raw area, whatever their class. */
    lemma ChunksDisjoint(a: Addr, b: Addr)
      requires Valid() && a in g.cls && b in g.cls
      ensures g.cls[a] < |cfg.sizes| && g.cls[b] < |cfg.sizes|
      ensures base <= a && a + cfg.sizes[g.cls[a]] <= base + memUsed < base + cfg.memLimit
      ensures a != b ==> a + cfg.sizes[g.cls[a]] <= b || b + cfg.sizes[g.cls[b]] <= a
    {
      hide LruLists, FreeLists, ChainLists, Own, Indexed, Listed, Content, Abstracts, SizesOk, C.Inv;
    }

    lemma SameKeys()
      requires Good()
      ensures |abs.items| == |g.loc|
    {
      assert abs.items.Keys == g.loc.Keys;
      assert |abs.items| == |abs.items.Keys| && |g.loc| == |g.loc.Keys|;
    }
  }
}
