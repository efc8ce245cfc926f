/** Dump and load against the abstract store: what a reloaded store holds, in what order, and when that is
    everything the dumped one held. */
module Reload {
  import opened Basics
  import opened Lists
  import opened Slabs
  import opened Cache
  import Conservation
  import Runs
  import D = DumpFormat
  import opened Numbers

  // ----- what is dumped

  function RecordOf(s: Cache, k: Bytes): D.Record
    requires k in s.items
  {
    D.Record(k, s.items[k].val)
  }

  function RecordsOf(s: Cache, ks: seq<Bytes>): (r: seq<D.Record>)
    requires forall i :: 0 <= i < |ks| ==> ks[i] in s.items
    ensures |r| == |ks| && forall i :: 0 <= i < |ks| ==> r[i] == RecordOf(s, ks[i])
  {
    if ks == [] then [] else [RecordOf(s, ks[0])] + RecordsOf(s, ks[1..])
  }

  lemma ListedPresent(cfg: Config, s: Cache, id: nat)
    requires Wf(cfg, s) && id < |s.lru|
    ensures forall i :: 0 <= i < |s.lru[id]| ==> s.lru[id][i] in s.items
  {
    hide Class;
    forall i | 0 <= i < |s.lru[id]| ensures s.lru[id][i] in s.items {
      assert s.lru[id][i] in s.lru[id];
    }
  }

  /** The records in dump order: class by class, each from most to least recently used. */
  function Records(cfg: Config, s: Cache, from: nat): seq<D.Record>
    requires Wf(cfg, s) && from <= |s.lru|
    decreases |s.lru| - from
  {
    if from == |s.lru| then []
    else ListedPresent(cfg, s, from); RecordsOf(s, s.lru[from]) + Records(cfg, s, from + 1)
  }

  // ----- what is loaded

  ghost predicate PutDefined(cfg: Config, rs: seq<D.Record>)
    requires cfg.Valid()
  {
    forall i :: 0 <= i < |rs| ==> SetDefined(cfg, rs[i].key, |rs[i].val|)
  }

  /** Setting the records one after the other, up to the first that is refused. */
  function Put(cfg: Config, s: Cache, rs: seq<D.Record>): (r: (Cache, Reply))
    requires Inv(cfg, s) && PutDefined(cfg, rs)
    ensures Inv(cfg, r.0)
    decreases |rs|
  {
    if rs == [] then (s, Done(OK))
    else
      Conservation.SetKeeps(cfg, s, rs[0].key, rs[0].val, 0);
      var (t, reply) := Set(cfg, s, rs[0].key, rs[0].val, 0);
      if reply == Done(OK) then Put(cfg, t, rs[1..]) else (t, reply)
  }

  ghost predicate LoadDefined(cfg: Config, file: Bytes)
    requires cfg.Valid()
  {
    !D.LoadFile(file, D.BUFFER_SIZE).1.Undefined? && PutDefined(cfg, D.LoadFile(file, D.BUFFER_SIZE).0)
  }

  /** shmc_load. */
  function Load(cfg: Config, s: Cache, file: Bytes): (r: (Cache, Reply))
    requires Inv(cfg, s) && LoadDefined(cfg, file)
    ensures Inv(cfg, r.0)
  {
    var (rs, outcome) := D.LoadFile(file, D.BUFFER_SIZE);
    var (t, reply) := Put(cfg, s, rs);
    (t, if reply == Done(OK) && outcome == D.TooLarge then Done(ESize) else reply)
  }

  // ----- one record more

  function Reversed(s: seq<Bytes>): (r: seq<Bytes>)
    ensures |r| == |s| && forall i :: 0 <= i < |s| ==> r[i] == s[|s| - 1 - i]
  {
    if s == [] then [] else Reversed(s[1..]) + [s[0]]
  }

  lemma ReversedSnoc(s: seq<Bytes>, i: nat)
    requires i < |s|
    ensures Reversed(s[..i + 1]) == [s[i]] + Reversed(s[..i])
  {
  }

  /** t holds the items of s in the classes below c and in the first i places of class c. */
  ghost predicate Rebuilt(cfg: Config, s: Cache, t: Cache, c: nat, i: nat)
    requires Shape(cfg, s)
  {
    && Inv(cfg, t) && c <= |s.lru| && i <= (if c < |s.lru| then |s.lru[c]| else 0)
    && (forall j :: 0 <= j < |t.lru| ==>
          t.lru[j] == Reversed(if j < c then s.lru[j] else if j == c then s.lru[j][..i] else []))
    && (forall j :: 0 <= j < |t.pages| ==> t.pages[j] <= s.pages[j])
    && (forall k :: k in t.items ==> k in s.items && t.items[k] == Entry(s.items[k].val, 0))
  }

  lemma NotYet(cfg: Config, s: Cache, t: Cache, c: nat, i: nat)
    requires Wf(cfg, s) && Rebuilt(cfg, s, t, c, i) && c < |s.lru| && i < |s.lru[c]|
    ensures var k := s.lru[c][i]; k in s.items && ClassIn(cfg, s, k) == c && k !in t.items
  {
    var k := s.lru[c][i];
    assert k in s.lru[c];
    hide Class, Conserved;
    assert k !in t.lru[c];
  }

  /** There is always room: the old store held one more item of this class on pages that fitted. */
  lemma RoomLeft(cfg: Config, s: Cache, t: Cache, id: nat)
    requires Inv(cfg, s) && Inv(cfg, t) && id < |s.lru| && |t.lru[id]| < |s.lru[id]|
    requires forall j :: 0 <= j < |t.pages| ==> t.pages[j] <= s.pages[j]
    ensures var source := AllocSource(cfg, t, id); source.FromFree? || source.FromPool?
    ensures AllocSource(cfg, t, id).FromPool? ==> t.pages[id] < s.pages[id]
  {
    hide Recency;
    if t.free[id] == 0 {
      assert t.pages[id] != s.pages[id];
      var more := t.pages[id := t.pages[id] + 1];
      Conservation.PoolGrows(cfg, t.pages, 0, id);
      Conservation.PoolMonotone(cfg, more, s.pages, 0);
      hide PoolBytes;
    }
  }

  lemma PutOne(cfg: Config, s: Cache, t: Cache, c: nat, i: nat)
    requires Inv(cfg, s) && Rebuilt(cfg, s, t, c, i) && c < |s.lru| && i < |s.lru[c]| && s.lru[c][i] in s.items
    requires cfg.SizeOk(ItemSize(s.lru[c][i], |s.items[s.lru[c][i]].val|))
    ensures var k := s.lru[c][i];
            && SetDefined(cfg, k, |s.items[k].val|)
            && var (t', reply) := Set(cfg, t, k, s.items[k].val, 0);
            reply == Done(OK) && Rebuilt(cfg, s, t', c, i + 1)
  {
    var k := s.lru[c][i];
    var v := s.items[k].val;
    NotYet(cfg, s, t, c, i);
    RoomLeft(cfg, s, t, c);
    Conservation.SetKeeps(cfg, t, k, v, 0);
    SetNew(cfg, t, k, v);
    hide Class, Conserved, Recency, Set, Reversed;
    RebuiltStep(cfg, s, t, Set(cfg, t, k, v, 0).0, c, i);
  }

  /** A set of a new key for which there is room. */
  lemma SetNew(cfg: Config, t: Cache, k: Bytes, v: Bytes)
    requires Wf(cfg, t) && k !in t.items && cfg.SizeOk(ItemSize(k, |v|)) && HasClass(cfg, k, |v|)
    requires var id := Class(cfg, k, |v|);
             id < |t.lru| && (AllocSource(cfg, t, id).FromFree? || AllocSource(cfg, t, id).FromPool?)
    ensures var (t', reply) := Set(cfg, t, k, v, 0);
            var id := Class(cfg, k, |v|);
            && reply == Done(OK) && t'.items == t.items[k := Entry(v, 0)] && t'.lru == t.lru[id := [k] + t.lru[id]]
            && (t'.pages == if AllocSource(cfg, t, id).FromPool? then t.pages[id := t.pages[id] + 1] else t.pages)
            && t'.used <= t.used + cfg.PageBytes(id)
  {
    AllocRoom(cfg, t, Class(cfg, k, |v|));
    hide Class, Recency, Shape, Alloc, AllocSource;
  }

  lemma RebuiltStep(cfg: Config, s: Cache, t: Cache, t': Cache, c: nat, i: nat)
    requires Wf(cfg, s) && Rebuilt(cfg, s, t, c, i) && c < |s.lru| && i < |s.lru[c]| && Inv(cfg, t')
    requires s.lru[c][i] in s.items && |t.lru| == |t.pages| == |s.lru| == |s.pages|
    requires var k := s.lru[c][i];
             && t'.items == t.items[k := Entry(s.items[k].val, 0)] && t'.lru == t.lru[c := [k] + t.lru[c]]
             && (t'.pages == t.pages || (t.pages[c] < s.pages[c] && t'.pages == t.pages[c := t.pages[c] + 1]))
    ensures Rebuilt(cfg, s, t', c, i + 1)
  {
    ReversedSnoc(s.lru[c], i);
    hide Inv, Recency, Class, Reversed;
  }

  lemma AllocRoom(cfg: Config, t: Cache, id: nat)
    requires Wf(cfg, t) && id < |t.lru| && (AllocSource(cfg, t, id).FromFree? || AllocSource(cfg, t, id).FromPool?)
    ensures Alloc(cfg, t, id).lru == t.lru && Alloc(cfg, t, id).items == t.items
    ensures Alloc(cfg, t, id).pages
         == if AllocSource(cfg, t, id).FromPool? then t.pages[id := t.pages[id] + 1] else t.pages
    ensures Alloc(cfg, t, id).used <= t.used + cfg.PageBytes(id)
  {
    hide Recency;
  }

  // ----- all records

  lemma {:induction false} PutSplit(cfg: Config, s: Cache, a: seq<D.Record>, b: seq<D.Record>)
    requires Inv(cfg, s) && PutDefined(cfg, a) && PutDefined(cfg, b) && Put(cfg, s, a).1 == Done(OK)
    ensures PutDefined(cfg, a + b) && Put(cfg, s, a + b) == Put(cfg, Put(cfg, s, a).0, b)
    decreases |a|
  {
    hide Set, Inv, SetDefined, Put;
    InvParts(cfg, s);
    if a == [] {
      PutNone(cfg, s, a);
      assert a + b == b;
    } else {
      ConsAppend(a, b);
      DefinedAppend(cfg, a, b);
      hide PutDefined;
      PutCons(cfg, s, a);
      PutCons(cfg, s, a + b);
      PutSplit(cfg, Set(cfg, s, a[0].key, a[0].val, 0).0, a[1..], b);
    }
  }

  lemma ConsAppend(a: seq<D.Record>, b: seq<D.Record>)
    requires a != []
    ensures a + b != [] && (a + b)[0] == a[0] && (a + b)[1..] == a[1..] + b
  {
  }

  lemma DefinedAppend(cfg: Config, a: seq<D.Record>, b: seq<D.Record>)
    requires cfg.Valid() && PutDefined(cfg, a) && PutDefined(cfg, b)
    ensures PutDefined(cfg, a + b)
  {
    hide SetDefined;
  }

  /** The last record of a list, put after the others. */
  lemma PutSnoc(cfg: Config, s: Cache, a: seq<D.Record>, r: D.Record)
    requires Inv(cfg, s) && PutDefined(cfg, a) && SetDefined(cfg, r.key, |r.val|) && Put(cfg, s, a).1 == Done(OK)
    requires Set(cfg, Put(cfg, s, a).0, r.key, r.val, 0).1 == Done(OK)
    ensures PutDefined(cfg, a + [r])
    ensures Put(cfg, s, a + [r]) == Set(cfg, Put(cfg, s, a).0, r.key, r.val, 0)
  {
    assert PutDefined(cfg, [r]);
    hide Inv, Set;
    PutSplit(cfg, s, a, [r]);
    var t := Put(cfg, s, a).0;
    Conservation.SetKeeps(cfg, t, r.key, r.val, 0);
    assert [r][1..] == [];
  }

  /** A load sets records with flags 0 up to the first that is refused, whose reply it gives, and none behind it. */
  lemma {:induction false} PutStops(cfg: Config, s: Cache, rs: seq<D.Record>) returns (n: nat)
    requires Inv(cfg, s) && PutDefined(cfg, rs)
    ensures n <= |rs| && PutDefined(cfg, rs[..n]) && Put(cfg, s, rs[..n]).1 == Done(OK)
    ensures n == |rs| ==> Put(cfg, s, rs).1 == Done(OK)
    ensures n < |rs| ==>
              var t := Put(cfg, s, rs[..n]).0;
              && Inv(cfg, t) && SetDefined(cfg, rs[n].key, |rs[n].val|)
              && Put(cfg, s, rs) == Set(cfg, t, rs[n].key, rs[n].val, 0) && Put(cfg, s, rs).1 != Done(OK)
    decreases |rs|
  {
    hide Set, Inv, SetDefined, Put;
    InvParts(cfg, s);
    if rs == [] {
      n := 0;
      PutNone(cfg, s, rs[..0]);
      assert rs[..0] == rs;
    } else {
      PutCons(cfg, s, rs);
      var (t, reply) := Set(cfg, s, rs[0].key, rs[0].val, 0);
      if reply == Done(OK) {
        n := PutStops(cfg, t, rs[1..]);
        assert rs[..n + 1][0] == rs[0] && rs[..n + 1][1..] == rs[1..][..n];
        PutCons(cfg, s, rs[..n + 1]);
        n := n + 1;
      } else {
        n := 0;
        assert rs[..0] == [];
        PutNone(cfg, s, rs[..0]);
      }
    }
  }

  /** Every item passes item_size_ok, as everything that came in through set does. */
  ghost predicate SizesOk(cfg: Config, s: Cache) {
    forall k :: k in s.items ==> cfg.SizeOk(ItemSize(k, |s.items[k].val|))
  }

  lemma PutStep(cfg: Config, s: Cache, t: Cache, a: seq<D.Record>, c: nat, i: nat)
    requires Inv(cfg, s) && SizesOk(cfg, s) && c < |s.lru| && i < |s.lru[c]| && s.lru[c][i] in s.items
    requires Inv(cfg, t) && PutDefined(cfg, a) && Put(cfg, t, a).1 == Done(OK)
    requires Rebuilt(cfg, s, Put(cfg, t, a).0, c, i)
    ensures var rs := a + [RecordOf(s, s.lru[c][i])];
            PutDefined(cfg, rs) && Put(cfg, t, rs).1 == Done(OK) && Rebuilt(cfg, s, Put(cfg, t, rs).0, c, i + 1)
  {
    InvParts(cfg, s);
    InvParts(cfg, t);
    hide Inv, Set, Rebuilt, Put, PutDefined;
    PutOne(cfg, s, Put(cfg, t, a).0, c, i);
    PutSnoc(cfg, t, a, RecordOf(s, s.lru[c][i]));
  }

  lemma InvParts(cfg: Config, s: Cache)
    requires Inv(cfg, s)
    ensures cfg.Valid() && Wf(cfg, s)
  {
  }

  lemma TakeSnoc(rs: seq<D.Record>, i: nat)
    requires i < |rs|
    ensures rs[..i + 1] == rs[..i] + [rs[i]]
  {
  }

  lemma {:induction false} PutClass(cfg: Config, s: Cache, t: Cache, c: nat, i: nat)
    requires Inv(cfg, s) && SizesOk(cfg, s) && Inv(cfg, t) && Rebuilt(cfg, s, t, c, 0) && c < |s.lru| && i <= |s.lru[c]|
    requires forall j :: 0 <= j < |s.lru[c]| ==> s.lru[c][j] in s.items
    ensures var rs := RecordsOf(s, s.lru[c])[..i];
            PutDefined(cfg, rs) && Put(cfg, t, rs).1 == Done(OK) && Rebuilt(cfg, s, Put(cfg, t, rs).0, c, i)
    decreases i
  {
    InvParts(cfg, s);
    hide Inv, Set, Rebuilt, Put, PutDefined, RecordsOf, SizesOk, Shape, Recency, HasClass, SetDefined;
    var all := RecordsOf(s, s.lru[c]);
    if i == 0 {
      PutNone(cfg, t, all[..i]);
    } else {
      PutClass(cfg, s, t, c, i - 1);
      var a := all[..i - 1];
      PutStep(cfg, s, t, a, c, i - 1);
      TakeSnoc(all, i - 1);
      assert all[..i] == a + [RecordOf(s, s.lru[c][i - 1])];
    }
  }

  lemma PutNone(cfg: Config, t: Cache, rs: seq<D.Record>)
    requires Inv(cfg, t) && rs == []
    ensures PutDefined(cfg, rs) && Put(cfg, t, rs) == (t, Done(OK))
  {
    hide Inv;
  }

  lemma NextClass(cfg: Config, s: Cache, t: Cache, c: nat)
    requires Wf(cfg, s) && c < |s.lru| && Rebuilt(cfg, s, t, c, |s.lru[c]|)
    ensures Rebuilt(cfg, s, t, c + 1, 0)
  {
    assert s.lru[c][..|s.lru[c]|] == s.lru[c];
    if c + 1 < |s.lru| { assert s.lru[c + 1][..0] == []; }
    hide Inv, Recency;
  }

  lemma {:induction false} PutAll(cfg: Config, s: Cache, t: Cache, c: nat)
    requires Inv(cfg, s) && SizesOk(cfg, s) && Rebuilt(cfg, s, t, c, 0)
    ensures var rs := Records(cfg, s, c);
            PutDefined(cfg, rs) && Put(cfg, t, rs).1 == Done(OK) && Rebuilt(cfg, s, Put(cfg, t, rs).0, |s.lru|, 0)
    decreases |s.lru| - c
  {
    if c < |s.lru| {
      ListedPresent(cfg, s, c);
      var rs := RecordsOf(s, s.lru[c]);
      assert rs[..|rs|] == rs;
      PutClass(cfg, s, t, c, |rs|);
      hide Rebuilt, Inv, Put, RecordsOf;
      var t' := Put(cfg, t, rs).0;
      NextClass(cfg, s, t', c);
      PutAll(cfg, s, t', c + 1);
      PutSplit(cfg, t, rs, Records(cfg, s, c + 1));
    }
  }

  lemma FreshRebuilt(cfg: Config, s: Cache)
    requires Inv(cfg, s) && Conservation.FirstPagesFit(cfg)
    ensures Inv(cfg, Conservation.Fresh(cfg)) && Rebuilt(cfg, s, Conservation.Fresh(cfg), 0, 0)
  {
    Conservation.FreshInv(cfg);
    Conservation.FormattingFacts(cfg, |cfg.sizes|);
    assert s.lru[0][..0] == [];
    hide Recency;
  }

  /** What a reloaded store must have in common with the dumped one: the same keys and values, all flags
      zero, every recency sequence turned round, and no more pages anywhere. */
  ghost predicate Reproduces(cfg: Config, s: Cache, t: Cache)
    requires Inv(cfg, s)
  {
    && t.items.Keys == s.items.Keys
    && (forall k :: k in t.items && k in s.items ==> t.items[k] == Entry(s.items[k].val, 0))
    && |t.lru| == |s.lru| && (forall j :: 0 <= j < |t.lru| ==> t.lru[j] == Reversed(s.lru[j]))
    && |t.pages| == |s.pages| && (forall j :: 0 <= j < |t.pages| ==> t.pages[j] <= s.pages[j])
  }

  lemma RebuiltReproduces(cfg: Config, s: Cache, t: Cache)
    requires Inv(cfg, s) && Rebuilt(cfg, s, t, |s.lru|, 0)
    ensures Reproduces(cfg, s, t)
  {
    forall k | k in s.items ensures k in t.items {
      var c := ClassIn(cfg, s, k);
      assert k in s.lru[c];
      var i :| 0 <= i < |s.lru[c]| && s.lru[c][i] == k;
      assert t.lru[c][|s.lru[c]| - 1 - i] == k;
      assert k in t.lru[c];
    }
    hide Class, Conserved;
  }

  /** Setting the dumped records one by one in a new store never fails and never evicts: the result is the
      old store with recency turned round. */
  lemma PutReproduces(cfg: Config, s: Cache)
    requires Inv(cfg, s) && SizesOk(cfg, s) && Conservation.FirstPagesFit(cfg)
    ensures Inv(cfg, Conservation.Fresh(cfg)) && PutDefined(cfg, Records(cfg, s, 0))
    ensures var (t, reply) := Put(cfg, Conservation.Fresh(cfg), Records(cfg, s, 0));
            reply == Done(OK) && Reproduces(cfg, s, t)
  {
    FreshRebuilt(cfg, s);
    InvParts(cfg, s);
    hide Inv, Rebuilt, Put, Records, Reproduces;
    PutAll(cfg, s, Conservation.Fresh(cfg), 0);
    RebuiltReproduces(cfg, s, Put(cfg, Conservation.Fresh(cfg), Records(cfg, s, 0)).0);
  }

  // ----- when reloading gives back everything

  ghost predicate NulFreeItems(s: Cache) {
    forall k :: k in s.items ==> NUL !in k && NUL !in s.items[k].val
  }

  /** Every length fits the int that the dump is written with. */
  ghost predicate LengthsFit(s: Cache) {
    forall k :: k in s.items ==> D.Fits(D.Record(k, s.items[k].val))
  }

  /** As long as item_size_max is an int, they all do. */
  lemma LengthsOfItems(cfg: Config, s: Cache)
    requires Shape(cfg, s) && cfg.itemSizeMax <= INT_MAX
    ensures LengthsFit(s)
  {
  }

  lemma RecordsFit(cfg: Config, s: Cache)
    requires Wf(cfg, s) && LengthsFit(s)
    ensures D.AllFit(Records(cfg, s, 0))
  {
    RecordsSame(cfg, s);
    hide Records, Shape, Recency, D.Fits;
  }

  lemma {:induction false} RecordsMembers(cfg: Config, s: Cache, from: nat)
    requires Wf(cfg, s) && from <= |s.lru|
    ensures forall r :: r in Records(cfg, s, from) ==> r.key in s.items && r == RecordOf(s, r.key)
    ensures forall k :: k in s.items && ClassIn(cfg, s, k) >= from ==> RecordOf(s, k) in Records(cfg, s, from)
    decreases |s.lru| - from
  {
    if from < |s.lru| {
      ListedPresent(cfg, s, from);
      RecordsMembers(cfg, s, from + 1);
      var mine, rest := RecordsOf(s, s.lru[from]), Records(cfg, s, from + 1);
      forall k | k in s.items && ClassIn(cfg, s, k) == from ensures RecordOf(s, k) in mine {
        assert k in s.lru[from];
        var i :| 0 <= i < |s.lru[from]| && s.lru[from][i] == k;
        assert mine[i] == RecordOf(s, k);
      }
      hide Class, RecordsOf;
    }
  }

  lemma {:induction false} RecordsCount(cfg: Config, s: Cache, from: nat)
    requires Wf(cfg, s) && from <= |s.lru|
    ensures Total(s.lru[..from]) + |Records(cfg, s, from)| == Total(s.lru)
    decreases |s.lru| - from
  {
    if from < |s.lru| {
      ListedPresent(cfg, s, from);
      RecordsCount(cfg, s, from + 1);
      assert s.lru[..from + 1][..from] == s.lru[..from];
    } else {
      assert s.lru[..from] == s.lru;
    }
  }

  /** The dump holds every item once. */
  lemma RecordsComplete(cfg: Config, s: Cache)
    requires Wf(cfg, s)
    ensures |Records(cfg, s, 0)| == |s.items|
    ensures D.NulFree(Records(cfg, s, 0)) <==> NulFreeItems(s)
    ensures SizesOk(cfg, s) <==> RecordSizesOk(cfg, Records(cfg, s, 0))
  {
    hide Records, Shape, Recency, Class, D.NulFree, NulFreeItems, SizesOk, RecordSizesOk, SameRecords;
    RecordsCount(cfg, s, 0);
    assert s.lru[..0] == [] && Total<Bytes>([]) == 0;
    Runs.ItemsListed(cfg, s);
    RecordsSame(cfg, s);
    SameNulFree(s, Records(cfg, s, 0));
    SameSizes(cfg, s, Records(cfg, s, 0));
  }

  /** Every record is an item, and every item a record. */
  ghost predicate SameRecords(s: Cache, rs: seq<D.Record>) {
    && (forall i :: 0 <= i < |rs| ==> rs[i].key in s.items && rs[i].val == s.items[rs[i].key].val)
    && (forall k :: k in s.items ==> D.Record(k, s.items[k].val) in rs)
  }

  lemma RecordsSame(cfg: Config, s: Cache)
    requires Wf(cfg, s)
    ensures SameRecords(s, Records(cfg, s, 0))
  {
    RecordsMembers(cfg, s, 0);
    var rs := Records(cfg, s, 0);
    hide Records, Shape, Recency, Class;
    forall i | 0 <= i < |rs| ensures rs[i].key in s.items && rs[i].val == s.items[rs[i].key].val {
      assert rs[i] in rs;
    }
  }

  lemma SameNulFree(s: Cache, rs: seq<D.Record>)
    requires SameRecords(s, rs)
    ensures D.NulFree(rs) <==> NulFreeItems(s)
  {
    if D.NulFree(rs) {
      forall k | k in s.items ensures NUL !in k && NUL !in s.items[k].val {
        var i :| 0 <= i < |rs| && rs[i] == D.Record(k, s.items[k].val);
      }
    }
  }

  lemma SameSizes(cfg: Config, s: Cache, rs: seq<D.Record>)
    requires SameRecords(s, rs)
    ensures SizesOk(cfg, s) <==> RecordSizesOk(cfg, rs)
  {
    if RecordSizesOk(cfg, rs) {
      forall k | k in s.items ensures cfg.SizeOk(ItemSize(k, |s.items[k].val|)) {
        var i :| 0 <= i < |rs| && rs[i] == D.Record(k, s.items[k].val);
        assert RecordSizeOk(cfg, rs[i]);
      }
    }
  }

  ghost predicate RecordSizesOk(cfg: Config, rs: seq<D.Record>) {
    forall i :: 0 <= i < |rs| ==> RecordSizeOk(cfg, rs[i])
  }

  predicate RecordSizeOk(cfg: Config, r: D.Record) {
    cfg.SizeOk(ItemSize(r.key, |r.val|))
  }

  /** One record put leaves at most one item more, no NUL that was not there, and is refused if too large. */
  lemma SetOne(cfg: Config, s: Cache, r: D.Record)
    requires Inv(cfg, s) && SetDefined(cfg, r.key, |r.val|)
    ensures var (t, reply) := Set(cfg, s, r.key, r.val, 0);
            && |t.items| <= |s.items| + 1
            && (NUL !in r.key && NUL !in r.val && NulFreeItems(s) ==> NulFreeItems(t))
            && (reply == Done(OK) ==> RecordSizeOk(cfg, r))
  {
    SetItems(cfg, s, r.key, r.val);
    hide Set, Inv, Shape, Recency, SetDefined;
    var t := Set(cfg, s, r.key, r.val, 0).0;
    KeysCount(t, s, r.key);
    NulFreeStep(s, t, r);
  }

  /** The items after a set are among those before and the new one. */
  ghost predicate AtMostOneMore(s: Cache, t: Cache, k: Bytes, v: Bytes) {
    forall x :: x in t.items ==> (x == k && t.items[x].val == v) || (x in s.items && t.items[x] == s.items[x])
  }

  lemma SetItems(cfg: Config, s: Cache, k: Bytes, v: Bytes)
    requires Wf(cfg, s) && SetDefined(cfg, k, |v|)
    ensures var (t, reply) := Set(cfg, s, k, v, 0);
            AtMostOneMore(s, t, k, v) && (reply == Done(OK) ==> cfg.SizeOk(ItemSize(k, |v|)))
  {
    hide Recency, Shape, Class, Insert, Discard, Alloc, AllocSource;
  }

  lemma NulFreeStep(s: Cache, t: Cache, r: D.Record)
    requires AtMostOneMore(s, t, r.key, r.val)
    ensures NUL !in r.key && NUL !in r.val && NulFreeItems(s) ==> NulFreeItems(t)
  {
  }

  lemma KeysCount(t: Cache, s: Cache, k: Bytes)
    requires forall x :: x in t.items ==> x == k || x in s.items
    ensures |t.items| <= |s.items| + 1
  {
    assert t.items.Keys <= s.items.Keys + {k};
    CardMono(t.items.Keys, s.items.Keys + {k});
    assert |t.items| == |t.items.Keys| && |s.items| == |s.items.Keys|;
  }

  lemma {:induction false} CardMono<T>(a: set<T>, b: set<T>)
    requires a <= b
    ensures |a| <= |b|
    decreases |a|
  {
    if x :| x in a { CardMono(a - {x}, b - {x}); }
  }

  lemma {:induction false} PutAny(cfg: Config, s: Cache, rs: seq<D.Record>)
    requires Inv(cfg, s) && PutDefined(cfg, rs)
    ensures var (t, reply) := Put(cfg, s, rs);
            && |t.items| <= |s.items| + |rs|
            && (D.NulFree(rs) && NulFreeItems(s) ==> NulFreeItems(t))
            && (reply == Done(OK) ==> RecordSizesOk(cfg, rs))
    decreases |rs|
  {
    hide Set, Inv, NulFreeItems, RecordSizeOk, SetDefined;
    if rs != [] {
      PutCons(cfg, s, rs);
      SetOne(cfg, s, rs[0]);
      var (t, reply) := Set(cfg, s, rs[0].key, rs[0].val, 0);
      hide Put, PutDefined;
      if reply == Done(OK) {
        PutAny(cfg, t, rs[1..]);
        assert forall i :: 1 <= i < |rs| ==> rs[i] == rs[1..][i - 1];
      }
    }
  }

  lemma PutCons(cfg: Config, s: Cache, rs: seq<D.Record>)
    requires Inv(cfg, s) && PutDefined(cfg, rs) && rs != []
    ensures Wf(cfg, s) && SetDefined(cfg, rs[0].key, |rs[0].val|) && PutDefined(cfg, rs[1..])
    ensures var (t, reply) := Set(cfg, s, rs[0].key, rs[0].val, 0);
            Inv(cfg, t) && Put(cfg, s, rs) == if reply == Done(OK) then Put(cfg, t, rs[1..]) else (t, reply)
  {
    Conservation.SetKeeps(cfg, s, rs[0].key, rs[0].val, 0);
    hide Set;
  }

  ghost predicate SameContents(s: Cache, t: Cache) {
    t.items.Keys == s.items.Keys && forall k :: k in s.items && k in t.items ==> t.items[k].val == s.items[k].val
  }

  /** What a caller can check before dumping. */
  ghost predicate Dumpable(cfg: Config, s: Cache)
    requires Wf(cfg, s)
  {
    && NulFreeItems(s) && SizesOk(cfg, s)
    && D.LinesFit(Records(cfg, s, 0), D.BUFFER_SIZE) && !D.EndsOnBoundary(Records(cfg, s, 0), D.BUFFER_SIZE)
  }

  /** A store without NULs never makes load read past the slab table, or a number that is no length. */
  lemma NulFreeLoadDefined(cfg: Config, s: Cache)
    requires Inv(cfg, s) && NulFreeItems(s) && LengthsFit(s)
    ensures LoadDefined(cfg, D.File(Records(cfg, s, 0)))
  {
    hide D.LoadFrom, D.File, D.Reached, D.NulFree, D.AllFit, NulFreeItems, LengthsFit, Records, Inv, Shape, Recency,
         PutDefined;
    InvParts(cfg, s);
    RecordsComplete(cfg, s);
    RecordsFit(cfg, s);
    RecordsPut(cfg, s, D.Reached(Records(cfg, s, 0), D.BUFFER_SIZE).0);
    D.LoadExact(Records(cfg, s, 0), D.BUFFER_SIZE);
    ReachedOutcome(Records(cfg, s, 0), D.BUFFER_SIZE);
  }

  /** Every item has a class. */
  lemma RecordsPut(cfg: Config, s: Cache, n: nat)
    requires Wf(cfg, s) && n <= |Records(cfg, s, 0)|
    ensures PutDefined(cfg, Records(cfg, s, 0)[..n])
  {
    RecordsSame(cfg, s);
    hide Records, Recency, Class;
  }

  lemma {:induction false} ReachedOutcome(rs: seq<D.Record>, cap: nat)
    ensures !D.Reached(rs, cap).1.Undefined?
    decreases |rs|
  {
    hide D.File;
    var c := D.Whole(rs, cap);
    if c > 0 { ReachedOutcome(rs[c..], cap); }
  }

  /** Loading the dump of a store into a new store of the same configuration succeeds with the same keys and
      values exactly when no key or value holds a NUL, every item passes item_size_ok, no line is longer than
      the buffer, and no buffer fill but the last ends with the end of a line. */
  lemma ReloadIff(cfg: Config, s: Cache)
    requires Inv(cfg, s) && Conservation.FirstPagesFit(cfg) && LengthsFit(s)
    requires LoadDefined(cfg, D.File(Records(cfg, s, 0)))
    ensures Inv(cfg, Conservation.Fresh(cfg))
    ensures var (t, reply) := Load(cfg, Conservation.Fresh(cfg), D.File(Records(cfg, s, 0)));
            && (reply == Done(OK) && SameContents(s, t) <==> Dumpable(cfg, s))
            && (Dumpable(cfg, s) ==> Reproduces(cfg, s, t))
  {
    Conservation.FreshInv(cfg);
    InvParts(cfg, s);
    hide Inv, Records, Dumpable, Load, LoadDefined, SameContents, Reproduces, D.File;
    var rs, s0 := Records(cfg, s, 0), Conservation.Fresh(cfg);
    if Dumpable(cfg, s) {
      ReloadIf(cfg, s);
    }
    if Load(cfg, s0, D.File(rs)).1 == Done(OK) && SameContents(s, Load(cfg, s0, D.File(rs)).0) {
      ReloadOnlyIf(cfg, s, s0, rs);
    }
  }

  lemma ReloadIf(cfg: Config, s: Cache)
    requires Inv(cfg, s) && Conservation.FirstPagesFit(cfg) && LengthsFit(s)
    requires LoadDefined(cfg, D.File(Records(cfg, s, 0)))
    requires Dumpable(cfg, s)
    ensures Inv(cfg, Conservation.Fresh(cfg))
    ensures var (t, reply) := Load(cfg, Conservation.Fresh(cfg), D.File(Records(cfg, s, 0)));
            reply == Done(OK) && SameContents(s, t) && Reproduces(cfg, s, t)
  {
    InvParts(cfg, s);
    RecordsComplete(cfg, s);
    RecordsFit(cfg, s);
    hide Inv, Records, Put, SizesOk, NulFreeItems, D.File, D.LoadFile, D.LinesFit, D.EndsOnBoundary, D.NulFree,
         D.AllFit, LengthsFit, PutDefined, Shape, Recency, Reproduces, SameContents, RecordSizeOk;
    PutReproduces(cfg, s);
    D.LoadIff(Records(cfg, s, 0), D.BUFFER_SIZE);
    ReproducesContents(cfg, s, Put(cfg, Conservation.Fresh(cfg), Records(cfg, s, 0)).0);
  }

  lemma ReproducesContents(cfg: Config, s: Cache, t: Cache)
    requires Inv(cfg, s) && Reproduces(cfg, s, t)
    ensures SameContents(s, t)
  {
    hide Inv;
  }

  lemma SameContentsFacts(s: Cache, t: Cache)
    requires SameContents(s, t)
    ensures |t.items| == |s.items|
    ensures NulFreeItems(t) ==> NulFreeItems(s)
  {
    assert |t.items| == |t.items.Keys| && |s.items| == |s.items.Keys|;
  }

  lemma ReloadOnlyIf(cfg: Config, s: Cache, s0: Cache, rs: seq<D.Record>)
    requires Inv(cfg, s) && Inv(cfg, s0) && s0.items == map[] && rs == Records(cfg, s, 0)
    requires LengthsFit(s) && LoadDefined(cfg, D.File(rs))
    requires Load(cfg, s0, D.File(rs)).1 == Done(OK) && SameContents(s, Load(cfg, s0, D.File(rs)).0)
    ensures Dumpable(cfg, s)
  {
    InvParts(cfg, s);
    assert NulFreeItems(s0);
    RecordsFit(cfg, s);
    hide Inv, Records, Put, SizesOk, NulFreeItems, D.File, D.LoadFrom, D.LinesFit, D.EndsOnBoundary, D.NulFree,
         D.AllFit, LengthsFit, D.Reached, PutDefined, Shape, Recency, SameContents, RecordSizeOk;
    RecordsComplete(cfg, s);
    var (got, outcome) := D.LoadFile(D.File(rs), D.BUFFER_SIZE);
    var t := Load(cfg, s0, D.File(rs)).0;
    SameContentsFacts(s, t);
    D.FileNulFree(rs);
    D.LoadNulFree([], D.File(rs), D.BUFFER_SIZE);
    PutAny(cfg, s0, got);
    D.LoadExact(rs, D.BUFFER_SIZE);
    D.LoadIff(rs, D.BUFFER_SIZE);
    assert |got| == |rs|;
    assert got == rs;
  }
}
