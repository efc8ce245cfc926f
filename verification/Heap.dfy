/** The shape of the store in memory: three families of linked lists over one pool of chunks.

    Links describes, as ghost data, which chunk is where.  The predicates tie it to the contents of
    the arrays; the lemmas show what each pointer operation of shmc.c does to every list at once. */
module Heap {
  import opened Basics
  import opened Lists
  import opened Slabs
  import Lookup3
  import C = Cache
  import Conservation

  /** struct shmc_slab_s. */
  datatype Slab = Slab(freeItem: Addr, size: nat, count: nat)

  /** The fields of struct shmc_item_s that are not links.  The key starts right behind the header and
      the value right behind the key, so the key and val pointers follow from the address. */
  datatype Meta = Meta(clsid: nat, flags: C.Flags, nkey: nat, nval: nat)

  /** lru, free: the lists of each class.  chains: the list of each bucket.  cls: the class of every
      chunk carved so far.  held: chunks taken off every list in the middle of an operation.
      loc, keyOf: where the item of a key is, and back. */
  datatype Links = Links(lru: seq<seq<Addr>>, free: seq<seq<Addr>>, chains: seq<seq<Addr>>,
                         cls: map<Addr, nat>, held: set<Addr>,
                         loc: map<Bytes, Addr>, keyOf: map<Addr, Bytes>)

  function Bucket(key: Bytes, nbuckets: nat): (b: nat)
    requires nbuckets > 0
    ensures b < nbuckets
  {
    (Lookup3.Hash(key, 0) as nat) % nbuckets
  }

  /** Items may have gone, but none has moved. */
  ghost predicate Stay(g: Links, g': Links) {
    forall k :: k in g'.loc ==> k in g.loc && g'.loc[k] == g.loc[k]
  }

  // ----- lists against arrays

  ghost predicate LruLists(next: seq<Addr>, prev: seq<Addr>, heads: seq<Addr>, tails: seq<Addr>,
                           ls: seq<seq<Addr>>) {
    && |heads| == |tails| == |ls|
    && |prev| == |next|
    && (forall id {:trigger ls[id]} :: 0 <= id < |ls| ==> DList(next, prev, heads[id], tails[id], ls[id]))
  }

  ghost predicate FreeLists(next: seq<Addr>, slabs: seq<Slab>, fs: seq<seq<Addr>>) {
    && |slabs| == |fs|
    && (forall id {:trigger fs[id]} :: 0 <= id < |fs| ==> SList(next, slabs[id].freeItem, fs[id]))
  }

  ghost predicate ChainLists(hnext: seq<Addr>, buckets: seq<Addr>, cs: seq<seq<Addr>>) {
    && |buckets| == |cs|
    && (forall b {:trigger cs[b]} :: 0 <= b < |cs| ==> SList(hnext, buckets[b], cs[b]))
  }

  /** Every carved chunk is in exactly one place: held, on the LRU list of its class, or on the free
      list of its class. */
  ghost predicate Own(classes: nat, len: nat, g: Links) {
    && |g.lru| == |g.free| == classes
    && (forall a :: a in g.cls ==> 0 < a < len && g.cls[a] < classes)
    && (forall a :: a in g.held ==> a in g.cls)
    && (forall id, a {:trigger a in g.lru[id]} :: 0 <= id < classes && a in g.lru[id] ==>
          a in g.cls && g.cls[a] == id && a !in g.held && a !in g.free[id])
    && (forall id, a {:trigger a in g.free[id]} :: 0 <= id < classes && a in g.free[id] ==>
          a in g.cls && g.cls[a] == id && a !in g.held)
    && (forall a :: a in g.cls ==> a in g.held || a in g.lru[g.cls[a]] || a in g.free[g.cls[a]])
  }

  // ----- what item_link, item_unlink and item_free do to the lists

  function LinkNext(next: seq<Addr>, head: Addr, a: Addr): seq<Addr>
    requires a < |next|
  {
    next[a := head]
  }

  function LinkPrev(prev: seq<Addr>, head: Addr, a: Addr): seq<Addr>
    requires a < |prev| && head < |prev|
  {
    if head != 0 then prev[a := 0][head := a] else prev[a := 0]
  }

  function UnlinkNext(next: seq<Addr>, prev: seq<Addr>, a: Addr): seq<Addr>
    requires a < |next| == |prev| && prev[a] < |next|
  {
    if prev[a] != 0 then next[prev[a] := next[a]] else next
  }

  function UnlinkPrev(next: seq<Addr>, prev: seq<Addr>, a: Addr): seq<Addr>
    requires a < |next| == |prev| && next[a] < |next|
  {
    if next[a] != 0 then prev[next[a] := prev[a]] else prev
  }

  lemma HeadInList(next: seq<Addr>, head: Addr, s: seq<Addr>)
    requires SList(next, head, s)
    ensures head < |next| || head == 0
    ensures head != 0 ==> head in s
  {
  }

  function Linked(g: Links, a: Addr, id: nat): Links
    requires id < |g.lru|
  {
    g.(lru := g.lru[id := [a] + g.lru[id]], held := g.held - {a})
  }

  lemma OwnFacts(classes: nat, len: nat, g: Links, a: Addr)
    requires Own(classes, len, g)
    ensures |g.lru| == |g.free| == classes
    ensures a in g.held ==> a in g.cls
    ensures a in g.cls ==> 0 < a < len && g.cls[a] < classes
  {
  }

  lemma ClassOnList(classes: nat, len: nat, g: Links, id: nat, a: Addr)
    requires Own(classes, len, g) && id < classes && a in g.lru[id]
    ensures a in g.cls && g.cls[a] == id && 0 < a < len && a !in g.held && a !in g.free[id]
  {
  }

  /** Chunks of one class are on no list of another class, and held chunks are on no list. */
  lemma Apart(len: nat, g: Links, id: nat, j: nat, a: Addr)
    requires Own(|g.lru|, len, g) && id < |g.lru| && j < |g.lru|
    ensures a in g.held ==> a !in g.lru[j] && a !in g.free[j]
    ensures a in g.cls && g.cls[a] == id && id != j ==> a !in g.lru[j] && a !in g.free[j]
    ensures forall x :: x in g.lru[id] ==> x !in g.free[j]
    ensures id != j ==> forall x :: x in g.lru[id] || x in g.free[id] ==> x !in g.lru[j] && x !in g.free[j]
  {
  }

  lemma LinkLru(next: seq<Addr>, prev: seq<Addr>, heads: seq<Addr>, tails: seq<Addr>, g: Links,
                a: Addr, id: nat)
    requires LruLists(next, prev, heads, tails, g.lru) && Own(|g.lru|, |next|, g)
    requires a in g.held && g.cls[a] == id
    ensures heads[id] < |next|
    ensures LruLists(LinkNext(next, heads[id], a), LinkPrev(prev, heads[id], a), heads[id := a],
                     tails[id := if tails[id] == 0 then a else tails[id]], Linked(g, a, id).lru)
  {
    var s := g.lru[id];
    HeadInList(next, heads[id], s);
    DListPush(next, prev, heads[id], tails[id], s, a);
    var next', prev' := LinkNext(next, heads[id], a), LinkPrev(prev, heads[id], a);
    var ls := Linked(g, a, id).lru;
    forall j | 0 <= j < |ls| && j != id
      ensures DList(next', prev', heads[j], tails[j], ls[j])
    {
      Apart(|next|, g, id, j, a);
      forall i | 0 <= i < |ls[j]|
        ensures next'[ls[j][i]] == next[ls[j][i]] && prev'[ls[j][i]] == prev[ls[j][i]]
      {
        assert ls[j][i] in g.lru[j];
      }
      DListFrame(next, prev, next', prev', heads[j], tails[j], ls[j]);
    }
  }

  lemma LinkFree(next: seq<Addr>, slabs: seq<Slab>, head: Addr, g: Links, a: Addr)
    requires FreeLists(next, slabs, g.free) && Own(|g.lru|, |next|, g) && a in g.held
    ensures FreeLists(LinkNext(next, head, a), slabs, g.free)
  {
    var next' := LinkNext(next, head, a);
    forall j | 0 <= j < |g.free| ensures SList(next', slabs[j].freeItem, g.free[j]) {
      Apart(|next|, g, j, j, a);
      SListFrame(next, next', slabs[j].freeItem, g.free[j]);
    }
  }

  lemma LinkOwn(len: nat, g: Links, a: Addr, id: nat)
    requires Own(|g.lru|, len, g) && a in g.held && g.cls[a] == id
    ensures Own(|g.lru|, len, Linked(g, a, id))
  {
    Apart(len, g, id, id, a);
    var g' := Linked(g, a, id);
    assert forall x :: x in g'.lru[id] <==> x == a || x in g.lru[id];
  }

  function Unlinked(g: Links, a: Addr, id: nat): Links
    requires id < |g.lru|
  {
    g.(lru := g.lru[id := Without(g.lru[id], a)], held := g.held + {a})
  }

  /** The chunks next to a on its list, if any, are on that list too. */
  lemma Neighbours(next: seq<Addr>, prev: seq<Addr>, head: Addr, tail: Addr, s: seq<Addr>, i: nat)
    requires DList(next, prev, head, tail, s) && i < |s|
    ensures next[s[i]] == At(s, i + 1) && prev[s[i]] == At(s, i - 1)
    ensures next[s[i]] < |next| || next[s[i]] == 0
    ensures prev[s[i]] < |next| || prev[s[i]] == 0
    ensures next[s[i]] != 0 ==> next[s[i]] in s
    ensures prev[s[i]] != 0 ==> prev[s[i]] in s
  {
  }

  lemma UnlinkLru(next: seq<Addr>, prev: seq<Addr>, heads: seq<Addr>, tails: seq<Addr>, g: Links,
                  a: Addr, id: nat)
    requires LruLists(next, prev, heads, tails, g.lru) && Own(|g.lru|, |next|, g)
    requires id < |g.lru| && a in g.lru[id]
    ensures a < |next| && prev[a] < |next| && next[a] < |next|
    ensures LruLists(UnlinkNext(next, prev, a), UnlinkPrev(next, prev, a),
                     heads[id := if heads[id] == a then next[a] else heads[id]],
                     tails[id := if tails[id] == a then prev[a] else tails[id]], Unlinked(g, a, id).lru)
  {
    hide Without, DList, SList;
    UnlinkList(next, prev, heads[id], tails[id], g.lru[id], a);
    var next', prev' := UnlinkNext(next, prev, a), UnlinkPrev(next, prev, a);
    var ls := Unlinked(g, a, id).lru;
    forall j | 0 <= j < |ls| && j != id
      ensures DList(next', prev', heads[j], tails[j], ls[j])
    {
      Apart(|next|, g, id, j, a);
      assert ls[j] == g.lru[j];
      InRange(next, prev, heads[j], tails[j], ls[j]);
      forall i | 0 <= i < |ls[j]|
        ensures next'[ls[j][i]] == next[ls[j][i]] && prev'[ls[j][i]] == prev[ls[j][i]]
      {
        assert ls[j][i] in g.lru[j];
      }
      DListFrame(next, prev, next', prev', heads[j], tails[j], ls[j]);
    }
  }

  lemma UnlinkList(next: seq<Addr>, prev: seq<Addr>, head: Addr, tail: Addr, s: seq<Addr>, a: Addr)
    requires DList(next, prev, head, tail, s) && a in s
    ensures |next| == |prev|
    ensures a < |next| && prev[a] < |next| && next[a] < |next|
    ensures next[a] != 0 ==> next[a] in s
    ensures prev[a] != 0 ==> prev[a] in s
    ensures DList(UnlinkNext(next, prev, a), UnlinkPrev(next, prev, a), if head == a then next[a] else head,
                  if tail == a then prev[a] else tail, Without(s, a))
  {
    hide Without, Cut;
    var i :| 0 <= i < |s| && s[i] == a;
    Neighbours(next, prev, head, tail, s, i);
    WithoutCut(s, i);
    DListCut(next, prev, head, tail, s, i, Without(s, a));
  }

  lemma InRange(next: seq<Addr>, prev: seq<Addr>, head: Addr, tail: Addr, s: seq<Addr>)
    requires DList(next, prev, head, tail, s)
    ensures forall i :: 0 <= i < |s| ==> 0 < s[i] < |next|
  {
  }

  lemma UnlinkFree(next: seq<Addr>, prev: seq<Addr>, heads: seq<Addr>, tails: seq<Addr>,
                   slabs: seq<Slab>, g: Links, a: Addr, id: nat)
    requires LruLists(next, prev, heads, tails, g.lru) && Own(|g.lru|, |next|, g)
    requires FreeLists(next, slabs, g.free)
    requires id < |g.lru| && a in g.lru[id] && a < |next| && prev[a] < |next|
    ensures FreeLists(UnlinkNext(next, prev, a), slabs, g.free)
  {
    var s := g.lru[id];
    var i :| 0 <= i < |s| && s[i] == a;
    Neighbours(next, prev, heads[id], tails[id], s, i);
    var next' := UnlinkNext(next, prev, a);
    forall j | 0 <= j < |g.free| ensures SList(next', slabs[j].freeItem, g.free[j]) {
      Apart(|next|, g, id, j, a);
      forall i | 0 <= i < |g.free[j]| ensures next'[g.free[j][i]] == next[g.free[j][i]] {
        assert g.free[j][i] in g.free[j];
      }
      SListFrame(next, next', slabs[j].freeItem, g.free[j]);
    }
  }

  lemma UnlinkOwn(len: nat, g: Links, a: Addr, id: nat)
    requires Own(|g.lru|, len, g) && id < |g.lru| && a in g.lru[id] && NoDup(g.lru[id])
    ensures Own(|g.lru|, len, Unlinked(g, a, id))
  {
    WithoutMembers(g.lru[id], a);
    hide Without;
    var g' := Unlinked(g, a, id);
  }

  // ----- free lists

  function Freed(g: Links, a: Addr, id: nat): Links
    requires id < |g.free|
  {
    g.(free := g.free[id := [a] + g.free[id]], held := g.held - {a})
  }

  /** Pushing a held chunk on the free list of its class. */
  lemma PushFree(next: seq<Addr>, prev: seq<Addr>, heads: seq<Addr>, tails: seq<Addr>,
                 slabs: seq<Slab>, g: Links, a: Addr, id: nat)
    requires LruLists(next, prev, heads, tails, g.lru) && FreeLists(next, slabs, g.free)
    requires Own(|g.lru|, |next|, g) && a in g.held && g.cls[a] == id
    ensures LruLists(next[a := slabs[id].freeItem], prev, heads, tails, g.lru)
    ensures FreeLists(next[a := slabs[id].freeItem], slabs[id := slabs[id].(freeItem := a)], Freed(g, a, id).free)
    ensures Own(|g.lru|, |next|, Freed(g, a, id))
  {
    var next' := next[a := slabs[id].freeItem];
    forall j | 0 <= j < |g.lru| ensures DList(next', prev, heads[j], tails[j], g.lru[j]) {
      Apart(|next|, g, id, j, a);
      DListFrame(next, prev, next', prev, heads[j], tails[j], g.lru[j]);
    }
    PushFreeLists(next, slabs, g, a, id);
    PushFreeOwn(|next|, g, a, id);
  }

  lemma PushFreeLists(next: seq<Addr>, slabs: seq<Slab>, g: Links, a: Addr, id: nat)
    requires FreeLists(next, slabs, g.free)
    requires Own(|g.lru|, |next|, g) && a in g.held && g.cls[a] == id
    ensures FreeLists(next[a := slabs[id].freeItem], slabs[id := slabs[id].(freeItem := a)], Freed(g, a, id).free)
  {
    var next' := next[a := slabs[id].freeItem];
    var fs := Freed(g, a, id).free;
    Apart(|next|, g, id, id, a);
    SListPush(next, slabs[id].freeItem, g.free[id], a);
    forall j | 0 <= j < |fs| && j != id ensures SList(next', slabs[j].freeItem, fs[j]) {
      Apart(|next|, g, id, j, a);
      SListFrame(next, next', slabs[j].freeItem, fs[j]);
    }
  }

  lemma PushFreeOwn(len: nat, g: Links, a: Addr, id: nat)
    requires Own(|g.lru|, len, g) && a in g.held && g.cls[a] == id
    ensures Own(|g.lru|, len, Freed(g, a, id))
  {
    Apart(len, g, id, id, a);
    var g' := Freed(g, a, id);
    assert forall x :: x in g'.free[id] <==> x == a || x in g.free[id];
  }

  function Taken(g: Links, id: nat): Links
    requires id < |g.free| && g.free[id] != []
  {
    g.(free := g.free[id := g.free[id][1..]], held := g.held + {g.free[id][0]})
  }

  /** Popping the first chunk of a free list. */
  lemma PopFree(next: seq<Addr>, slabs: seq<Slab>, g: Links, id: nat)
    requires FreeLists(next, slabs, g.free) && Own(|g.lru|, |next|, g)
    requires id < |g.free| && g.free[id] != []
    ensures slabs[id].freeItem == g.free[id][0] < |next|
    ensures FreeLists(next, slabs[id := slabs[id].(freeItem := next[slabs[id].freeItem])], Taken(g, id).free)
    ensures Own(|g.lru|, |next|, Taken(g, id))
  {
    SListPop(next, slabs[id].freeItem, g.free[id]);
    var g' := Taken(g, id);
    assert g.free[id][0] in g.free[id];
    assert forall x :: x in g.free[id] <==> x == g.free[id][0] || x in g'.free[id] by {
      assert g.free[id] == [g.free[id][0]] + g'.free[id];
    }
  }

  // ----- the hash index

  /** loc and keyOf are inverse, and a chunk is on the chain of a bucket exactly when its key hashes there. */
  ghost predicate Indexed(nbuckets: nat, g: Links) {
    && nbuckets > 0 && |g.chains| == nbuckets
    && (forall k :: k in g.loc ==> g.loc[k] in g.keyOf && g.keyOf[g.loc[k]] == k)
    && (forall a :: a in g.keyOf ==> g.keyOf[a] in g.loc && g.loc[g.keyOf[a]] == a)
    && (forall b, a {:trigger a in g.chains[b]} :: 0 <= b < nbuckets ==>
          (a in g.chains[b] <==> a in g.keyOf && Bucket(g.keyOf[a], nbuckets) == b))
  }

  /** A chunk is on the LRU list of its class exactly when it holds an item. */
  ghost predicate Listed(g: Links) {
    forall id, a {:trigger a in g.lru[id]} :: 0 <= id < |g.lru| ==>
      (a in g.lru[id] <==> a in g.keyOf && a in g.cls && g.cls[a] == id)
  }

  /** One step along a chain. */
  lemma ChainStep(hnext: seq<Addr>, buckets: seq<Addr>, nbuckets: nat, g: Links, b: nat, i: nat)
    requires ChainLists(hnext, buckets, g.chains) && Indexed(nbuckets, g)
    requires b < nbuckets && i < |g.chains[b]|
    ensures var a := g.chains[b][i];
            a in g.keyOf && 0 < a < |hnext| && hnext[a] == At(g.chains[b], i + 1)
  {
    assert g.chains[b][i] in g.chains[b];
  }

  lemma ChainEnd(hnext: seq<Addr>, buckets: seq<Addr>, nbuckets: nat, g: Links, b: nat, i: nat)
    requires ChainLists(hnext, buckets, g.chains) && Indexed(nbuckets, g)
    requires b < nbuckets && i <= |g.chains[b]| && At(g.chains[b], i) == 0
    ensures i == |g.chains[b]|
  {
  }

  lemma FoundAt(nbuckets: nat, g: Links, a: Addr)
    requires Indexed(nbuckets, g) && a in g.keyOf
    ensures g.keyOf[a] in g.loc && g.loc[g.keyOf[a]] == a
  {
  }

  /** A walk that met no chunk of the key on its bucket's chain proves the key absent. */
  lemma ChainMiss(nbuckets: nat, g: Links, key: Bytes)
    requires Indexed(nbuckets, g)
    requires var s := g.chains[Bucket(key, nbuckets)];
             forall j :: 0 <= j < |s| ==> s[j] in g.keyOf && g.keyOf[s[j]] != key
    ensures key !in g.loc
  {
    hide Bucket;
    forall k | k in g.loc ensures g.loc[k] in g.chains[Bucket(k, nbuckets)] {
    }
  }

  function Chained(g: Links, k: Bytes, a: Addr, b: nat): Links
    requires b < |g.chains|
  {
    g.(chains := g.chains[b := [a] + g.chains[b]], loc := g.loc[k := a], keyOf := g.keyOf[a := k])
  }

  /** assoc_insert. */
  lemma ChainInsert(hnext: seq<Addr>, buckets: seq<Addr>, nbuckets: nat, g: Links, k: Bytes, a: Addr)
    requires ChainLists(hnext, buckets, g.chains) && Indexed(nbuckets, g)
    requires k !in g.loc && a !in g.keyOf && 0 < a < |hnext|
    ensures var b := Bucket(k, nbuckets);
            ChainLists(hnext[a := buckets[b]], buckets[b := a], Chained(g, k, a, b).chains)
    ensures Indexed(nbuckets, Chained(g, k, a, Bucket(k, nbuckets)))
  {
    hide Bucket;
    var b := Bucket(k, nbuckets);
    var g' := Chained(g, k, a, b);
    var hnext' := hnext[a := buckets[b]];
    assert a !in g.chains[b];
    SListPush(hnext, buckets[b], g.chains[b], a);
    forall j | 0 <= j < nbuckets && j != b ensures SList(hnext', buckets[j], g'.chains[j]) {
      assert a !in g.chains[j];
      SListFrame(hnext, hnext', buckets[j], g.chains[j]);
    }
    assert forall x :: x in g'.chains[b] <==> x == a || x in g.chains[b];
  }

  function Unchained(g: Links, k: Bytes, b: nat): Links
    requires k in g.loc && b < |g.chains|
  {
    g.(chains := g.chains[b := Without(g.chains[b], g.loc[k])], loc := g.loc - {k}, keyOf := g.keyOf - {g.loc[k]})
  }

  /** Splicing the i-th chunk out of its bucket's chain, as assoc_delete does through its slot pointer. */
  lemma ChainDelete(hnext: seq<Addr>, buckets: seq<Addr>, nbuckets: nat, g: Links, k: Bytes, i: nat)
    requires ChainLists(hnext, buckets, g.chains) && Indexed(nbuckets, g) && k in g.loc
    requires var s := g.chains[Bucket(k, nbuckets)]; i < |s| && s[i] == g.loc[k]
    ensures var b, a := Bucket(k, nbuckets), g.loc[k];
            var s := g.chains[b];
            && a < |hnext| && hnext[a] == At(s, i + 1)
            && (i == 0 ==> ChainLists(hnext[a := 0], buckets[b := hnext[a]], Unchained(g, k, b).chains))
            && (i > 0 ==> s[i - 1] < |hnext|
                          && ChainLists(hnext[a := 0][s[i - 1] := hnext[a]], buckets, Unchained(g, k, b).chains))
  {
    hide Bucket, Without;
    var b, a := Bucket(k, nbuckets), g.loc[k];
    var s := g.chains[b];
    assert hnext[s[i]] == At(s, i + 1);
    WithoutCut(s, i);
    hide Cut;
    SListCut(hnext, buckets[b], s, i, Without(s, a));
    var hnext' := if i == 0 then hnext[a := 0] else hnext[a := 0][s[i - 1] := hnext[a]];
    var cs := Unchained(g, k, b).chains;
    forall j | 0 <= j < nbuckets && j != b ensures SList(hnext', buckets[j], cs[j]) {
      assert cs[j] == g.chains[j];
      forall n | 0 <= n < |cs[j]| ensures hnext'[cs[j][n]] == hnext[cs[j][n]] {
        assert cs[j][n] in g.chains[j];
        assert s[i] in g.chains[b];
        assert i > 0 ==> s[i - 1] in g.chains[b];
      }
      SListFrame(hnext, hnext', buckets[j], cs[j]);
    }
  }

  lemma UnchainIndexed(nbuckets: nat, g: Links, k: Bytes)
    requires Indexed(nbuckets, g) && k in g.loc && NoDup(g.chains[Bucket(k, nbuckets)])
    ensures Indexed(nbuckets, Unchained(g, k, Bucket(k, nbuckets)))
  {
    hide Bucket;
    var b := Bucket(k, nbuckets);
    WithoutMembers(g.chains[b], g.loc[k]);
    hide Without;
    var g' := Unchained(g, k, b);
  }

  // ----- bytes

  /** memcpy of s to offset d. */
  function Splice(r: Bytes, d: nat, s: Bytes): (r': Bytes)
    requires d + |s| <= |r|
    ensures |r'| == |r|
  {
    r[..d] + s + r[d + |s|..]
  }

  /** The chunk at a holds entry e under key k. */
  ghost predicate Holds(cfg: Config, raw: Bytes, meta: seq<Meta>, cls: map<Addr, nat>, a: Addr, k: Bytes, e: C.Entry) {
    && cfg.Valid()
    && a in cls && a < |meta|
    && C.HasClass(cfg, k, |e.val|) && C.Class(cfg, k, |e.val|) == cls[a]
    && meta[a] == Meta(cls[a], e.flags, |k|, |e.val|)
    && a + C.ItemSize(k, |e.val|) <= |raw|
    && raw[a + HEADER..a + HEADER + |k|] == k
    && raw[a + HEADER + |k|..a + HEADER + |k| + |e.val|] == e.val
  }

  ghost predicate Content(cfg: Config, raw: Bytes, meta: seq<Meta>, g: Links, items: map<Bytes, C.Entry>) {
    && items.Keys == g.loc.Keys
    && (forall a :: a in g.keyOf ==>
          g.keyOf[a] in items && Holds(cfg, raw, meta, g.cls, a, g.keyOf[a], items[g.keyOf[a]]))
  }

  /** Comparing length and bytes of the stored key decides whether a chunk holds the key. */
  lemma KeyCompare(cfg: Config, raw: Bytes, meta: seq<Meta>, g: Links, items: map<Bytes, C.Entry>, a: Addr, key: Bytes)
    requires Content(cfg, raw, meta, g, items) && a in g.keyOf
    ensures a < |meta| && a + HEADER + meta[a].nkey <= |raw|
    ensures meta[a].nkey == |key| && raw[a + HEADER..a + HEADER + |key|] == key <==> g.keyOf[a] == key
  {
    assert Holds(cfg, raw, meta, g.cls, a, g.keyOf[a], items[g.keyOf[a]]);
    hide C.Class, C.HasClass;
  }

  /** Carved chunks are pairwise disjoint and lie between base and limit. */
  ghost predicate Pool(cfg: Config, base: Addr, limit: nat, cls: map<Addr, nat>) {
    && cfg.Valid()
    && (forall a :: a in cls ==> cls[a] < |cfg.sizes| && base <= a && a + cfg.sizes[cls[a]] <= limit)
    && (forall a, b :: a in cls && b in cls && a != b ==>
          a + cfg.sizes[cls[a]] <= b || b + cfg.sizes[cls[b]] <= a)
  }

  lemma Carve(cfg: Config, base: Addr, limit: nat, cls: map<Addr, nat>, id: nat)
    requires Pool(cfg, base, limit, cls) && id < |cfg.sizes| && base <= limit
    ensures limit !in cls && Pool(cfg, base, limit + cfg.sizes[id], cls[limit := id])
  {
  }

  lemma HoldsFrame(cfg: Config, raw: Bytes, raw': Bytes, meta: seq<Meta>, meta': seq<Meta>,
                   cls: map<Addr, nat>, a: Addr, k: Bytes, e: C.Entry)
    requires Holds(cfg, raw, meta, cls, a, k, e) && |raw'| == |raw| && |meta'| == |meta| && meta'[a] == meta[a]
    requires forall i :: a <= i < a + cfg.sizes[cls[a]] && i < |raw| ==> raw'[i] == raw[i]
    ensures Holds(cfg, raw', meta', cls, a, k, e)
  {
    hide C.Class;
    var p := a + HEADER;
    assert C.ItemSize(k, |e.val|) <= cfg.sizes[cls[a]];
    assert raw'[p..p + |k|] == raw[p..p + |k|];
    assert raw'[p + |k|..p + |k| + |e.val|] == raw[p + |k|..p + |k| + |e.val|];
  }

  // ----- against the abstract cache

  ghost predicate KeysOf(s: seq<Addr>, keyOf: map<Addr, Bytes>, keys: seq<Bytes>) {
    && |keys| == |s|
    && (forall i {:trigger s[i]} {:trigger keys[i]} :: 0 <= i < |s| ==> s[i] in keyOf && keys[i] == keyOf[s[i]])
  }

  ghost predicate Abstracts(cfg: Config, g: Links, used: nat, s: C.Cache) {
    && C.Wf(cfg, s)
    && |g.lru| == |g.free| == |s.lru|
    && (forall id {:trigger g.lru[id]} {:trigger s.lru[id]} :: 0 <= id < |s.lru| ==>
          KeysOf(g.lru[id], g.keyOf, s.lru[id]))
    && (forall id {:trigger g.free[id]} {:trigger s.free[id]} :: 0 <= id < |s.lru| ==> |g.free[id]| == s.free[id])
    && used == s.used
  }

  lemma {:induction false} KeysWithout(s: seq<Addr>, keyOf: map<Addr, Bytes>, keys: seq<Bytes>, a: Addr)
    requires KeysOf(s, keyOf, keys) && a in keyOf
    requires forall x, y :: x in keyOf && y in keyOf && keyOf[x] == keyOf[y] ==> x == y
    ensures KeysOf(Without(s, a), keyOf, Without(keys, keyOf[a]))
  {
    if s != [] {
      assert keys[0] == keyOf[s[0]];
      if s[0] == a {
      } else {
        KeysWithout(s[1..], keyOf, keys[1..], a);
      }
    }
  }

  /** The abstract recency sequences do not depend on keys of chunks that are on no LRU list. */
  lemma KeysFrame(s: seq<Addr>, keyOf: map<Addr, Bytes>, keyOf': map<Addr, Bytes>, keys: seq<Bytes>)
    requires KeysOf(s, keyOf, keys)
    requires forall x :: x in s ==> x in keyOf' && keyOf'[x] == keyOf[x]
    ensures KeysOf(s, keyOf', keys)
  {
  }

  // ----- taking an item out, putting one in

  /** Everything known about the chunk of a key. */
  lemma ItemFacts(cfg: Config, raw: Bytes, meta: seq<Meta>, nbuckets: nat, g: Links, items: map<Bytes, C.Entry>,
                  k: Bytes)
    requires Content(cfg, raw, meta, g, items) && Indexed(nbuckets, g) && Listed(g)
    requires Own(|cfg.sizes|, |meta|, g) && k in g.loc
    ensures var a := g.loc[k];
            && k in items && a in g.keyOf && g.keyOf[a] == k && a in g.cls && 0 < a < |meta| && a !in g.held
            && g.cls[a] < |cfg.sizes| && g.cls[a] < |g.lru| && a in g.lru[g.cls[a]]
            && Holds(cfg, raw, meta, g.cls, a, k, items[k])
  {
    hide Holds;
    var a := g.loc[k];
    assert Holds(cfg, raw, meta, g.cls, a, g.keyOf[a], items[g.keyOf[a]]);
    HoldsClass(cfg, raw, meta, g.cls, a, k, items[k]);
    assert a in g.lru[g.cls[a]];
  }

  lemma HoldsClass(cfg: Config, raw: Bytes, meta: seq<Meta>, cls: map<Addr, nat>, a: Addr, k: Bytes, e: C.Entry)
    requires Holds(cfg, raw, meta, cls, a, k, e)
    ensures a in cls && cls[a] < |cfg.sizes|
  {
  }

  function Removed(g: Links, k: Bytes, b: nat, id: nat): Links
    requires k in g.loc && b < |g.chains| && id < |g.lru|
  {
    Unlinked(Unchained(g, k, b), g.loc[k], id)
  }

  lemma RemoveListed(g: Links, k: Bytes, b: nat, id: nat)
    requires Listed(g) && k in g.loc && b < |g.chains| && id < |g.lru| && g.loc[k] in g.lru[id]
    requires NoDup(g.lru[id])
    ensures Listed(Removed(g, k, b, id))
  {
    WithoutMembers(g.lru[id], g.loc[k]);
    hide Without;
    var g' := Removed(g, k, b, id);
    assert g.loc[k] in g.keyOf && g.cls[g.loc[k]] == id;
  }

  lemma RemoveContent(cfg: Config, raw: Bytes, meta: seq<Meta>, nbuckets: nat, g: Links, items: map<Bytes, C.Entry>,
                      k: Bytes, b: nat, id: nat)
    requires Content(cfg, raw, meta, g, items) && Indexed(nbuckets, g)
    requires k in g.loc && b < |g.chains| && id < |g.lru|
    ensures Content(cfg, raw, meta, Removed(g, k, b, id), items - {k})
  {
    hide Holds, Without;
    var g' := Removed(g, k, b, id);
    forall a | a in g'.keyOf
      ensures g'.keyOf[a] in items - {k}
      ensures Holds(cfg, raw, meta, g'.cls, a, g'.keyOf[a], (items - {k})[g'.keyOf[a]])
    {
      assert a in g.keyOf && g'.keyOf[a] == g.keyOf[a] && a != g.loc[k];
    }
  }

  lemma RemoveAbstracts(cfg: Config, nbuckets: nat, g: Links, used: nat, s: C.Cache, k: Bytes, b: nat)
    requires Abstracts(cfg, g, used, s) && Indexed(nbuckets, g) && Listed(g)
    requires k in g.loc && k in s.items && b < |g.chains| && C.ClassIn(cfg, s, k) < |g.lru|
    requires g.loc[k] in g.cls && g.cls[g.loc[k]] == C.ClassIn(cfg, s, k)
    requires NoDup(g.lru[C.ClassIn(cfg, s, k)])
    ensures Abstracts(cfg, Removed(g, k, b, C.ClassIn(cfg, s, k)), used, C.Remove(cfg, s, k))
  {
    var a, id := g.loc[k], C.ClassIn(cfg, s, k);
    var g', s' := Removed(g, k, b, id), C.Remove(cfg, s, k);
    hide C.Wf, C.ClassIn, Without;
    KeysWithout(g.lru[id], g.keyOf, s.lru[id], a);
    forall j | 0 <= j < |s'.lru| ensures KeysOf(g'.lru[j], g'.keyOf, s'.lru[j]) {
      forall x | x in g'.lru[j] ensures x in g'.keyOf && g'.keyOf[x] == g.keyOf[x] {
        RemovedMember(g, k, b, id, j, x);
      }
      KeysFrame(g'.lru[j], g.keyOf, g'.keyOf, s'.lru[j]);
    }
  }

  lemma RemovedMember(g: Links, k: Bytes, b: nat, id: nat, j: nat, x: Addr)
    requires Listed(g) && k in g.loc && b < |g.chains| && id < |g.lru| && j < |g.lru|
    requires g.loc[k] in g.keyOf && g.loc[k] in g.cls && g.cls[g.loc[k]] == id
    requires x in Removed(g, k, b, id).lru[j] && NoDup(g.lru[id])
    ensures x in g.keyOf && x != g.loc[k]
  {
    WithoutMembers(g.lru[id], g.loc[k]);
    hide Without;
    assert x in g.lru[j];
  }

  /** assoc_insert and item_link for a held chunk. */
  function Added(g: Links, k: Bytes, a: Addr, b: nat, id: nat): Links
    requires b < |g.chains| && id < |g.lru|
  {
    Linked(Chained(g, k, a, b), a, id)
  }

  lemma AddListed(g: Links, k: Bytes, a: Addr, b: nat, id: nat)
    requires Listed(g) && b < |g.chains| && id < |g.lru| && a in g.cls && g.cls[a] == id && a !in g.keyOf
    ensures Listed(Added(g, k, a, b, id))
  {
    var g' := Added(g, k, a, b, id);
    assert forall x :: x in g'.lru[id] <==> x == a || x in g.lru[id];
  }

  /** All items but the one at a are in place: the state while the bytes at a are being written. */
  ghost predicate OpenContent(cfg: Config, raw: Bytes, meta: seq<Meta>, g: Links, items: map<Bytes, C.Entry>, a: Addr) {
    && items.Keys == g.loc.Keys
    && (forall b :: b in g.keyOf ==> g.keyOf[b] in items && (b != a ==>
          Holds(cfg, raw, meta, g.cls, b, g.keyOf[b], items[g.keyOf[b]])))
  }

  lemma AddContent(cfg: Config, raw: Bytes, meta: seq<Meta>, nbuckets: nat, g: Links, items: map<Bytes, C.Entry>,
                   k: Bytes, a: Addr, b: nat, id: nat, e: C.Entry)
    requires Content(cfg, raw, meta, g, items) && Indexed(nbuckets, g)
    requires k !in g.loc && a !in g.keyOf && b < |g.chains| && id < |g.lru|
    ensures OpenContent(cfg, raw, meta, Added(g, k, a, b, id), items[k := e], a)
  {
    hide Holds;
    var g' := Added(g, k, a, b, id);
    forall x | x in g'.keyOf && x != a
      ensures g'.keyOf[x] in items && Holds(cfg, raw, meta, g'.cls, x, g'.keyOf[x], items[k := e][g'.keyOf[x]])
    {
      assert x in g.keyOf && g'.keyOf[x] == g.keyOf[x] && g.keyOf[x] != k;
    }
  }

  lemma AddAbstracts(cfg: Config, g: Links, used: nat, s: C.Cache, k: Bytes, a: Addr, b: nat, id: nat, e: C.Entry)
    requires Abstracts(cfg, g, used, s) && Listed(g)
    requires k !in s.items && C.HasClass(cfg, k, |e.val|) && C.Class(cfg, k, |e.val|) == id
    requires a !in g.keyOf && b < |g.chains| && id < |g.lru|
    ensures Abstracts(cfg, Added(g, k, a, b, id), used, C.Insert(cfg, s, k, e))
  {
    var g', s' := Added(g, k, a, b, id), C.Insert(cfg, s, k, e);
    hide C.Wf, C.Class, C.HasClass;
    forall j | 0 <= j < |s'.lru| ensures KeysOf(g'.lru[j], g'.keyOf, s'.lru[j]) {
      forall x | x in g.lru[j] ensures x in g'.keyOf && g'.keyOf[x] == g.keyOf[x] {
        assert x in g.keyOf;
      }
      KeysFrame(g.lru[j], g.keyOf, g'.keyOf, s.lru[j]);
      if j == id {
        KeysCons(g.lru[j], g'.keyOf, s.lru[j], a, k);
      }
    }
  }

  lemma KeysCons(s: seq<Addr>, keyOf: map<Addr, Bytes>, keys: seq<Bytes>, a: Addr, k: Bytes)
    requires KeysOf(s, keyOf, keys) && a in keyOf && keyOf[a] == k
    ensures KeysOf([a] + s, keyOf, [k] + keys)
  {
    var s', keys' := [a] + s, [k] + keys;
    forall i | 0 <= i < |s'| ensures s'[i] in keyOf && keys'[i] == keyOf[s'[i]] {
      if i > 0 { assert s'[i] == s[i - 1] && keys'[i] == keys[i - 1]; }
    }
  }

  // ----- moving to the front, rewriting

  function Relinked(g: Links, a: Addr, id: nat): Links
    requires id < |g.lru|
  {
    Linked(Unlinked(g, a, id), a, id)
  }

  lemma RelinkListed(g: Links, a: Addr, id: nat)
    requires Listed(g) && id < |g.lru| && a in g.lru[id] && NoDup(g.lru[id]) && a !in g.held
    ensures Listed(Relinked(g, a, id)) && Relinked(g, a, id).held == g.held
    ensures Relinked(g, a, id).(lru := g.lru) == g
  {
    WithoutMembers(g.lru[id], a);
    hide Without;
    var g' := Relinked(g, a, id);
    assert forall x :: x in g'.lru[id] <==> x == a || x in Without(g.lru[id], a);
    assert g.held + {a} - {a} == g.held;
  }

  lemma RelinkAbstracts(cfg: Config, nbuckets: nat, g: Links, used: nat, s: C.Cache, k: Bytes)
    requires Abstracts(cfg, g, used, s) && Indexed(nbuckets, g) && Listed(g)
    requires k in g.loc && k in s.items && C.ClassIn(cfg, s, k) < |g.lru|
    ensures Abstracts(cfg, Relinked(g, g.loc[k], C.ClassIn(cfg, s, k)), used, C.Touch(cfg, s, k))
  {
    var a, id := g.loc[k], C.ClassIn(cfg, s, k);
    var g', s' := Relinked(g, a, id), C.Touch(cfg, s, k);
    hide C.Wf, C.ClassIn, Without;
    KeysWithout(g.lru[id], g.keyOf, s.lru[id], a);
    KeysCons(Without(g.lru[id], a), g.keyOf, Without(s.lru[id], k), a, k);
  }

  /** Only content depends on the values of the items. */
  lemma RewriteAbstracts(cfg: Config, g: Links, used: nat, s: C.Cache, k: Bytes, e: C.Entry)
    requires Abstracts(cfg, g, used, s) && k in s.items
    requires C.HasClass(cfg, k, |e.val|) && C.Class(cfg, k, |e.val|) == C.ClassIn(cfg, s, k)
    ensures Abstracts(cfg, g, used, C.Rewrite(cfg, s, k, e))
  {
  }

  lemma OpenForRewrite(cfg: Config, raw: Bytes, meta: seq<Meta>, nbuckets: nat, g: Links, items: map<Bytes, C.Entry>,
                       k: Bytes, e: C.Entry)
    requires Content(cfg, raw, meta, g, items) && Indexed(nbuckets, g) && k in g.loc
    ensures OpenContent(cfg, raw, meta, g, items[k := e], g.loc[k])
  {
    hide Holds;
  }

  /** Writing anywhere inside chunk a keeps all other items. */
  lemma WriteOpen(cfg: Config, base: Addr, limit: nat, raw: Bytes, raw': Bytes, meta: seq<Meta>, meta': seq<Meta>,
                  g: Links, items: map<Bytes, C.Entry>, a: Addr)
    requires OpenContent(cfg, raw, meta, g, items, a) && Pool(cfg, base, limit, g.cls) && a in g.cls
    requires |raw'| == |raw| && |meta'| == |meta|
    requires forall i :: 0 <= i < |raw| && !(a <= i < a + cfg.sizes[g.cls[a]]) ==> raw'[i] == raw[i]
    requires forall b :: 0 <= b < |meta| && b != a && b !in g.held ==> meta'[b] == meta[b]
    requires forall b :: b in g.keyOf ==> b !in g.held
    ensures OpenContent(cfg, raw', meta', g, items, a)
  {
    forall b | b in g.keyOf && b != a
      ensures Holds(cfg, raw', meta', g.cls, b, g.keyOf[b], items[g.keyOf[b]])
    {
      HoldsFrame(cfg, raw, raw', meta, meta', g.cls, b, g.keyOf[b], items[g.keyOf[b]]);
    }
  }

  lemma CloseContent(cfg: Config, raw: Bytes, meta: seq<Meta>, nbuckets: nat, g: Links, items: map<Bytes, C.Entry>,
                     k: Bytes)
    requires Indexed(nbuckets, g) && k in g.loc && OpenContent(cfg, raw, meta, g, items, g.loc[k])
    requires k in items && Holds(cfg, raw, meta, g.cls, g.loc[k], k, items[k])
    ensures Content(cfg, raw, meta, g, items)
  {
    hide Holds;
  }

  // ----- chunks moving between the pool, the free lists and the hands of an operation

  /** A chunk whose place changes without touching any item. */
  ghost predicate SameItems(g: Links, g': Links) {
    && g'.lru == g.lru && g'.chains == g.chains && g'.loc == g.loc && g'.keyOf == g.keyOf
    && (forall a :: a in g.cls ==> a in g'.cls && g'.cls[a] == g.cls[a])
  }

  lemma SameItemsKeeps(cfg: Config, raw: Bytes, meta: seq<Meta>, nbuckets: nat, g: Links, g': Links,
                       items: map<Bytes, C.Entry>)
    requires SameItems(g, g') && Content(cfg, raw, meta, g, items) && Listed(g) && Indexed(nbuckets, g)
    ensures Content(cfg, raw, meta, g', items) && Listed(g') && Indexed(nbuckets, g')
  {
    hide Holds, Bucket;
    forall a | a in g'.keyOf
      ensures Holds(cfg, raw, meta, g'.cls, a, g'.keyOf[a], items[g'.keyOf[a]])
      ensures a in g.cls
    {
      HoldsMoreClasses(cfg, raw, meta, g.cls, g'.cls, a, g.keyOf[a], items[g.keyOf[a]]);
    }
  }

  lemma HoldsMoreClasses(cfg: Config, raw: Bytes, meta: seq<Meta>, cls: map<Addr, nat>, cls': map<Addr, nat>,
                         a: Addr, k: Bytes, e: C.Entry)
    requires Holds(cfg, raw, meta, cls, a, k, e) && (a in cls ==> a in cls' && cls'[a] == cls[a])
    ensures a in cls && Holds(cfg, raw, meta, cls', a, k, e)
  {
  }

  /** Links and header fields of a held chunk are nobody else's. */
  lemma HeldWrite(next: seq<Addr>, prev: seq<Addr>, heads: seq<Addr>, tails: seq<Addr>, slabs: seq<Slab>,
                  g: Links, a: Addr, x: Addr, y: Addr)
    requires LruLists(next, prev, heads, tails, g.lru) && FreeLists(next, slabs, g.free)
    requires Own(|g.lru|, |next|, g) && a in g.held
    ensures a < |next| == |prev|
    ensures LruLists(next[a := x], prev[a := y], heads, tails, g.lru) && FreeLists(next[a := x], slabs, g.free)
  {
    forall j | 0 <= j < |g.lru| ensures DList(next[a := x], prev[a := y], heads[j], tails[j], g.lru[j]) {
      Apart(|next|, g, j, j, a);
      DListFrame(next, prev, next[a := x], prev[a := y], heads[j], tails[j], g.lru[j]);
    }
    forall j | 0 <= j < |g.free| ensures SList(next[a := x], slabs[j].freeItem, g.free[j]) {
      Apart(|next|, g, j, j, a);
      SListFrame(next, next[a := x], slabs[j].freeItem, g.free[j]);
    }
  }

  lemma HeldChain(hnext: seq<Addr>, buckets: seq<Addr>, nbuckets: nat, g: Links, a: Addr, x: Addr)
    requires ChainLists(hnext, buckets, g.chains) && Indexed(nbuckets, g) && a !in g.keyOf && a < |hnext|
    ensures ChainLists(hnext[a := x], buckets, g.chains)
  {
    hide Bucket;
    forall j | 0 <= j < nbuckets ensures SList(hnext[a := x], buckets[j], g.chains[j]) {
      assert a !in g.chains[j];
      SListFrame(hnext, hnext[a := x], buckets[j], g.chains[j]);
    }
  }

  lemma HeldMeta(cfg: Config, raw: Bytes, meta: seq<Meta>, g: Links, items: map<Bytes, C.Entry>, a: Addr, m: Meta)
    requires Content(cfg, raw, meta, g, items) && a !in g.keyOf && a < |meta|
    ensures Content(cfg, raw, meta[a := m], g, items)
  {
    forall b | b in g.keyOf ensures Holds(cfg, raw, meta[a := m], g.cls, b, g.keyOf[b], items[g.keyOf[b]]) {
      HoldsFrame(cfg, raw, raw, meta, meta[a := m], g.cls, b, g.keyOf[b], items[g.keyOf[b]]);
    }
  }

  /** Held chunks hold no item. */
  lemma HeldEmpty(cfg: Config, raw: Bytes, meta: seq<Meta>, g: Links, items: map<Bytes, C.Entry>, len: nat, a: Addr)
    requires Content(cfg, raw, meta, g, items) && Listed(g) && Own(|cfg.sizes|, len, g) && a in g.held
    ensures a !in g.keyOf
  {
    forall b | b in g.keyOf ensures b in g.cls && g.cls[b] < |g.lru| && b in g.lru[g.cls[b]] {
      HoldsClass(cfg, raw, meta, g.cls, b, g.keyOf[b], items[g.keyOf[b]]);
    }
  }

  lemma FreeAbstracts(cfg: Config, g: Links, used: nat, s: C.Cache, a: Addr, id: nat)
    requires Abstracts(cfg, g, used, s) && id < |g.free|
    ensures Abstracts(cfg, Freed(g, a, id), used, C.Release(cfg, s, id))
  {
  }

  lemma TakeAbstracts(cfg: Config, g: Links, used: nat, s: C.Cache, id: nat)
    requires Abstracts(cfg, g, used, s) && id < |g.free| && g.free[id] != []
    ensures s.free[id] > 0
    ensures Abstracts(cfg, Taken(g, id), used, C.TakeFree(cfg, s, id))
  {
  }

  /** A chunk carved off the pool, in hand. */
  function Carved(g: Links, a: Addr, id: nat): Links {
    g.(cls := g.cls[a := id], held := g.held + {a})
  }

  lemma CarveOwn(len: nat, g: Links, a: Addr, id: nat)
    requires Own(|g.lru|, len, g) && a !in g.cls && 0 < a < len && id < |g.lru|
    ensures Own(|g.lru|, len, Carved(g, a, id))
  {
    var g' := Carved(g, a, id);
    forall j, x | 0 <= j < |g.lru| && (x in g.lru[j] || x in g.free[j]) ensures x != a {
    }
  }

  /** The chunk at the tail of an LRU list belongs to the last key of the recency sequence. */
  lemma TailFacts(cfg: Config, next: seq<Addr>, prev: seq<Addr>, heads: seq<Addr>, tails: seq<Addr>, g: Links,
                  used: nat, s: C.Cache, nbuckets: nat, id: nat)
    requires LruLists(next, prev, heads, tails, g.lru) && Abstracts(cfg, g, used, s) && Indexed(nbuckets, g)
    requires id < |g.lru|
    ensures tails[id] == 0 <==> s.lru[id] == []
    ensures s.lru[id] != [] ==>
              var k := s.lru[id][|s.lru[id]| - 1];
              k in g.loc && g.loc[k] == tails[id]
  {
    var l := g.lru[id];
    assert DList(next, prev, heads[id], tails[id], l);
    assert KeysOf(l, g.keyOf, s.lru[id]);
    hide LruLists, Abstracts, DList, SList, Bucket;
    if l != [] {
      assert l[|l| - 1] in g.keyOf && g.keyOf[l[|l| - 1]] == s.lru[id][|l| - 1];
    }
  }

  lemma SplicedIn(r: Bytes, d: nat, s: Bytes)
    requires d + |s| <= |r|
    ensures Splice(r, d, s)[d..d + |s|] == s
  {
  }

  lemma SpliceKeeps(r: Bytes, d: nat, s: Bytes, lo: nat, hi: nat)
    requires d + |s| <= |r| && lo <= hi <= |r| && (hi <= d || d + |s| <= lo)
    ensures Splice(r, d, s)[lo..hi] == r[lo..hi]
  {
  }

  lemma TwoParts(r: Bytes, d: nat, x: Bytes, y: Bytes)
    requires d + |x| + |y| <= |r| && r[d..d + |x|] == x && r[d + |x|..d + |x| + |y|] == y
    ensures r[d..d + |x| + |y|] == x + y
  {
    assert r[d..d + |x| + |y|] == r[d..d + |x|] + r[d + |x|..d + |x| + |y|];
  }

  lemma PrependSplices(r: Bytes, lo: nat, d: nat, n: nat, v: Bytes)
    requires lo <= d && d + |v| + n <= |r|
    ensures var r2 := Splice(Splice(r, d + |v|, r[d..d + n]), d, v);
            r2[d..d + |v| + n] == v + r[d..d + n] && r2[lo..d] == r[lo..d]
  {
    var was := r[d..d + n];
    var r1 := Splice(r, d + |v|, was);
    SplicedIn(r, d + |v|, was);
    SplicedIn(r1, d, v);
    hide Splice;
    SpliceKeeps(r, d + |v|, was, lo, d);
    SpliceKeeps(r1, d, v, lo, d);
    SpliceKeeps(r1, d, v, d + |v|, d + |v| + n);
    TwoParts(Splice(r1, d, v), d, v, was);
  }

  lemma AppendSplice(r: Bytes, lo: nat, d: nat, n: nat, v: Bytes)
    requires lo <= d && d + |v| + n <= |r|
    ensures var r1 := Splice(r, d + n, v);
            r1[d..d + n + |v|] == r[d..d + n] + v && r1[lo..d] == r[lo..d]
  {
    SplicedIn(r, d + n, v);
    hide Splice;
    SpliceKeeps(r, d + n, v, lo, d);
    SpliceKeeps(r, d + n, v, d, d + n);
    TwoParts(Splice(r, d + n, v), d, r[d..d + n], v);
  }

  /** Two parts written one behind the other read back as their concatenation; what precedes them stays. */
  lemma GrownBytes(r: Bytes, lo: nat, d: nat, x: Bytes, y: Bytes)
    requires lo <= d && d + |x| + |y| <= |r|
    ensures var r2 := Splice(Splice(r, d, x), d + |x|, y);
            r2[d..d + |x| + |y|] == x + y && r2[lo..d] == r[lo..d]
  {
    var r1 := Splice(r, d, x);
    var r2 := Splice(r1, d + |x|, y);
    SplicedIn(r, d, x);
    SplicedIn(r1, d + |x|, y);
    hide Splice;
    SpliceKeeps(r, d, x, lo, d);
    SpliceKeeps(r1, d + |x|, y, lo, d);
    SpliceKeeps(r1, d + |x|, y, d, d + |x|);
    TwoParts(r2, d, x, y);
  }

  /** Copying a key and then two parts of a value; bytes elsewhere do not move meanwhile. */
  lemma JoinSplices(r: Bytes, k: nat, key: Bytes, x: Bytes, y: Bytes, lo: nat, hi: nat)
    requires k + |key| + |x| + |y| <= |r| && lo <= hi <= |r|
    requires hi <= k || k + |key| + |x| + |y| <= lo
    ensures var r1 := Splice(r, k, key);
            var r2 := Splice(r1, k + |key|, x);
            var r3 := Splice(r2, k + |key| + |x|, y);
            && r1[lo..hi] == r2[lo..hi] == r[lo..hi]
            && r3[k..k + |key|] == key && r3[k + |key|..k + |key| + |x| + |y|] == x + y
  {
    var r1 := Splice(r, k, key);
    SplicedIn(r, k, key);
    hide Splice;
    SpliceKeeps(r, k, key, lo, hi);
    SpliceKeeps(r1, k + |key|, x, lo, hi);
    GrownBytes(r1, k, k + |key|, x, y);
  }

  /** Overwriting the front of an area keeps its rest. */
  lemma SpliceFront(r: Bytes, d: nat, s: Bytes, n: nat)
    requires |s| <= n && d + n <= |r|
    ensures Splice(r, d, s)[d..d + n] == s + r[d..d + n][|s|..]
  {
  }

  /** Writing inside a chunk that holds no item keeps all items. */
  lemma WriteFree(cfg: Config, base: Addr, limit: nat, raw: Bytes, raw': Bytes, meta: seq<Meta>, g: Links,
                  items: map<Bytes, C.Entry>, a: Addr)
    requires Content(cfg, raw, meta, g, items) && Pool(cfg, base, limit, g.cls) && a in g.cls && a !in g.keyOf
    requires |raw'| == |raw|
    requires forall i :: 0 <= i < |raw| && !(a <= i < a + cfg.sizes[g.cls[a]]) ==> raw'[i] == raw[i]
    ensures Content(cfg, raw', meta, g, items)
  {
    forall b | b in g.keyOf
      ensures Holds(cfg, raw', meta, g.cls, b, g.keyOf[b], items[g.keyOf[b]])
    {
      HoldsFrame(cfg, raw, raw', meta, meta, g.cls, b, g.keyOf[b], items[g.keyOf[b]]);
    }
  }

  /** A chunk in hand is at neither end of any LRU list. */
  lemma HeldNotEnd(next: seq<Addr>, prev: seq<Addr>, heads: seq<Addr>, tails: seq<Addr>, g: Links, a: Addr, id: nat)
    requires LruLists(next, prev, heads, tails, g.lru) && Own(|g.lru|, |next|, g) && a in g.held && id < |g.lru|
    ensures heads[id] != a && tails[id] != a
  {
    var s := g.lru[id];
    assert DList(next, prev, heads[id], tails[id], s);
    Apart(|next|, g, id, id, a);
    hide LruLists, Own;
    if s != [] { assert s[0] in s && s[|s| - 1] in s; }
  }

  /** A chunk lies inside the raw area, apart from every other chunk. */
  lemma ChunkRoom(cfg: Config, base: Addr, limit: nat, cls: map<Addr, nat>, a: Addr)
    requires Pool(cfg, base, limit, cls) && a in cls
    ensures cls[a] < |cfg.sizes| && a + cfg.sizes[cls[a]] <= limit
  {
  }

  lemma ChunksApart(cfg: Config, base: Addr, limit: nat, cls: map<Addr, nat>, a: Addr, b: Addr)
    requires Pool(cfg, base, limit, cls) && a in cls && b in cls && a != b
    ensures cls[a] < |cfg.sizes| && cls[b] < |cfg.sizes|
    ensures a + cfg.sizes[cls[a]] <= b || b + cfg.sizes[cls[b]] <= a
  {
  }

  lemma LoadedNotHeld(cfg: Config, g: Links, nbuckets: nat, len: nat, raw: Bytes, meta: seq<Meta>,
                      items: map<Bytes, C.Entry>, a: Addr)
    requires Own(|cfg.sizes|, len, g) && Listed(g) && OpenContent(cfg, raw, meta, g, items, a)
    requires a in g.cls && cfg.Valid()
    ensures forall b :: b in g.keyOf ==> b !in g.held
  {
    forall b | b in g.keyOf ensures b in g.cls && g.cls[b] < |g.lru| && b in g.lru[g.cls[b]] {
      if b != a {
        HoldsClass(cfg, raw, meta, g.cls, b, g.keyOf[b], items[g.keyOf[b]]);
      }
    }
  }

  /** Content and index do not depend on the order of the LRU lists. */
  lemma RelinkFrame(cfg: Config, raw: Bytes, meta: seq<Meta>, nbuckets: nat, g: Links, g': Links,
                    items: map<Bytes, C.Entry>)
    requires Content(cfg, raw, meta, g, items) && Indexed(nbuckets, g) && g'.(lru := g.lru) == g
    ensures Content(cfg, raw, meta, g', items) && Indexed(nbuckets, g')
  {
    hide Holds, Bucket;
    assert g'.chains == g.chains && g'.loc == g.loc && g'.keyOf == g.keyOf && g'.cls == g.cls;
  }

  /** The free list of one class has grown by n chunks. */
  ghost predicate MoreFree(g: Links, g': Links, id: nat, n: nat) {
    && SameItems(g, g') && g'.held == g.held
    && id < |g.free| == |g'.free| && |g'.free[id]| == |g.free[id]| + n
    && (forall j :: 0 <= j < |g.free| && j != id ==> g'.free[j] == g.free[j])
  }

  /** Carving one chunk and pushing it on its free list. */
  lemma CarvePush(next: seq<Addr>, prev: seq<Addr>, heads: seq<Addr>, tails: seq<Addr>,
                  slabs: seq<Slab>, g: Links, a: Addr, id: nat)
    requires LruLists(next, prev, heads, tails, g.lru) && FreeLists(next, slabs, g.free)
    requires Own(|g.lru|, |next|, g) && a !in g.cls && 0 < a < |next| && id < |g.lru| == |slabs|
    ensures var g' := Freed(Carved(g, a, id), a, id);
            && LruLists(next[a := slabs[id].freeItem], prev, heads, tails, g'.lru)
            && FreeLists(next[a := slabs[id].freeItem], slabs[id := slabs[id].(freeItem := a)], g'.free)
            && Own(|g.lru|, |next|, g') && MoreFree(g, g', id, 1)
            && g'.cls == g.cls[a := id]
  {
    CarveOwn(|next|, g, a, id);
    assert a !in g.held;
    hide LruLists, FreeLists, Own;
    var g1 := Carved(g, a, id);
    PushFree(next, prev, heads, tails, slabs, g1, a, id);
    assert Freed(g1, a, id).held == g.held;
  }

  lemma MoreFreeStep(g: Links, g1: Links, g2: Links, id: nat, n: nat)
    requires MoreFree(g, g1, id, n) && MoreFree(g1, g2, id, 1)
    ensures MoreFree(g, g2, id, n + 1)
  {
  }

  lemma MoreFreeNone(g: Links, id: nat)
    requires id < |g.free|
    ensures MoreFree(g, g, id, 0)
  {
  }

  lemma MoreFreeSame(g: Links, g': Links, id: nat, n: nat)
    requires MoreFree(g, g', id, n)
    ensures SameItems(g, g') && g'.loc == g.loc && g'.held == g.held && |g'.free| == |g.free|
    ensures |g'.free[id]| == |g.free[id]| + n
  {
  }

  lemma PageAbstracts(cfg: Config, g: Links, g': Links, used: nat, s: C.Cache, id: nat)
    requires Abstracts(cfg, g, used, s) && id < |cfg.sizes| && MoreFree(g, g', id, cfg.counts[id])
    ensures Abstracts(cfg, g', used + cfg.PageBytes(id), C.AddPage(cfg, s, id))
  {
  }

  // ----- which fields of the links each part depends on

  lemma OwnFrame(classes: nat, len: nat, g: Links, g': Links)
    requires Own(classes, len, g)
    requires g'.lru == g.lru && g'.free == g.free && g'.cls == g.cls && g'.held == g.held
    ensures Own(classes, len, g')
  {
  }

  lemma IndexFrame(nbuckets: nat, g: Links, g': Links)
    requires Indexed(nbuckets, g)
    requires g'.chains == g.chains && g'.loc == g.loc && g'.keyOf == g.keyOf
    ensures Indexed(nbuckets, g')
  {
  }

  lemma ChunkFacts(cfg: Config, raw: Bytes, meta: seq<Meta>, nbuckets: nat, g: Links, used: nat, s: C.Cache, k: Bytes)
    requires Content(cfg, raw, meta, g, s.items) && Indexed(nbuckets, g) && Listed(g)
    requires Own(|cfg.sizes|, |meta|, g) && Abstracts(cfg, g, used, s) && k in g.loc
    ensures var a := g.loc[k];
            && k in s.items && a in g.keyOf && g.keyOf[a] == k && a in g.cls && 0 < a < |meta|
            && a !in g.held && g.cls[a] < |g.lru| == |cfg.sizes| && a in g.lru[g.cls[a]]
            && C.Wf(cfg, s) && g.cls[a] == C.ClassIn(cfg, s, k) && |g.chains| == nbuckets > 0
            && meta[a] == Meta(g.cls[a], s.items[k].flags, |k|, |s.items[k].val|)
            && cfg.Valid() && C.ItemSizeOf(|k|, |s.items[k].val|) <= cfg.Last()
            && cfg.ClassOf(C.ItemSizeOf(|k|, |s.items[k].val|)) == g.cls[a]
            && a + C.ItemSize(k, |s.items[k].val|) <= |raw|
            && C.ItemSize(k, |s.items[k].val|) <= cfg.sizes[g.cls[a]]
            && raw[a + HEADER..a + HEADER + |k|] == k
            && raw[a + HEADER + |k|..a + HEADER + |k| + |s.items[k].val|] == s.items[k].val
  {
    OwnFacts(|cfg.sizes|, |meta|, g, 0);
    ItemFacts(cfg, raw, meta, nbuckets, g, s.items, k);
    hide Content, Indexed, Listed, Own;
  }

  // ----- a new store

  function EmptyLinks(classes: nat, nbuckets: nat): Links {
    Links(seq(classes, i => []), seq(classes, i => []), seq(nbuckets, i => []), map[], {}, map[], map[])
  }

  lemma EmptyOk(cfg: Config, base: Addr, next: seq<Addr>, prev: seq<Addr>, hnext: seq<Addr>, heads: seq<Addr>,
                tails: seq<Addr>, buckets: seq<Addr>, slabs: seq<Slab>, raw: Bytes, meta: seq<Meta>)
    requires cfg.Valid() && |prev| == |next|
    requires |heads| == |tails| == |slabs| == |cfg.sizes| && |buckets| == cfg.nbuckets
    requires forall i :: 0 <= i < |heads| ==> heads[i] == 0 == tails[i] && slabs[i].freeItem == 0
    requires forall i :: 0 <= i < |buckets| ==> buckets[i] == 0
    ensures var g := EmptyLinks(|cfg.sizes|, cfg.nbuckets);
            && LruLists(next, prev, heads, tails, g.lru) && FreeLists(next, slabs, g.free)
            && Own(|cfg.sizes|, |next|, g) && ChainLists(hnext, buckets, g.chains) && Indexed(cfg.nbuckets, g)
            && Listed(g) && Content(cfg, raw, meta, g, map[]) && Pool(cfg, base, base, g.cls)
            && Abstracts(cfg, g, 0, Conservation.Bare(cfg))
  {
  }

  /** The chains hold each item once. */
  lemma ChainedItems(hnext: seq<Addr>, buckets: seq<Addr>, nbuckets: nat, g: Links)
    requires ChainLists(hnext, buckets, g.chains) && Indexed(nbuckets, g)
    ensures Total(g.chains) == |g.loc|
  {
    ChainsNoDup(hnext, buckets, g.chains);
    hide ChainLists, Total, NoDup, Partition;
    var owner := Owners(nbuckets, g);
    OwnersPartition(nbuckets, g);
    PartitionTotal(g.chains, owner);
    assert owner.Keys == g.keyOf.Keys;
    assert |owner| == |owner.Keys| && |g.keyOf| == |g.keyOf.Keys|;
    SameSize(g.loc, g.keyOf);
  }

  ghost function Owners(nbuckets: nat, g: Links): (m: map<Addr, nat>)
    requires nbuckets > 0
    ensures m.Keys == g.keyOf.Keys
  {
    map a | a in g.keyOf :: Bucket(g.keyOf[a], nbuckets)
  }

  lemma OwnersPartition(nbuckets: nat, g: Links)
    requires Indexed(nbuckets, g) && forall b :: 0 <= b < |g.chains| ==> NoDup(g.chains[b])
    ensures Partition(g.chains, Owners(nbuckets, g))
  {
    hide Bucket, NoDup;
  }

  lemma ChainsNoDup(hnext: seq<Addr>, buckets: seq<Addr>, cs: seq<seq<Addr>>)
    requires ChainLists(hnext, buckets, cs)
    ensures forall b :: 0 <= b < |cs| ==> NoDup(cs[b])
  {
    forall b | 0 <= b < |cs| ensures NoDup(cs[b]) {
      assert SList(hnext, buckets[b], cs[b]);
    }
  }

  lemma {:induction false} SameSize(loc: map<Bytes, Addr>, keyOf: map<Addr, Bytes>)
    requires forall k :: k in loc ==> loc[k] in keyOf && keyOf[loc[k]] == k
    requires forall a :: a in keyOf ==> keyOf[a] in loc && loc[keyOf[a]] == a
    ensures |loc| == |keyOf|
    decreases |loc|
  {
    if loc == map[] {
      forall a | a in keyOf ensures keyOf[a] in loc {
      }
      assert keyOf == map[];
    } else {
      var k :| k in loc;
      SameSize(loc - {k}, keyOf - {loc[k]});
      assert loc.Keys == (loc - {k}).Keys + {k};
      assert keyOf.Keys == (keyOf - {loc[k]}).Keys + {loc[k]};
    }
  }
}
