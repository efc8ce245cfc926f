/** Two stores that a dump followed by a load does not bring back: one whose last item is dropped unnoticed, and
    one whose counter makes the load fail. */
module Instances {
  import opened Basics
  import opened Slabs
  import opened Cache
  import Conservation
  import Counter
  import D = DumpFormat
  import opened Numbers
  import opened Reload
  import Runs

  // ----- new items of one class

  /** The keys, last record first. */
  function Newest(rs: seq<D.Record>): (r: seq<Bytes>)
    ensures |r| == |rs|
  {
    if rs == [] then [] else Newest(rs[1..]) + [rs[0].key]
  }

  ghost predicate InClass(cfg: Config, rs: seq<D.Record>, c: nat)
    requires cfg.Valid()
  {
    forall i :: 0 <= i < |rs| ==> FitsClass(cfg, rs[i], c)
  }

  predicate FitsClass(cfg: Config, r: D.Record, c: nat)
    requires cfg.Valid()
  {
    cfg.SizeOk(ItemSize(r.key, |r.val|)) && HasClass(cfg, r.key, |r.val|) && Class(cfg, r.key, |r.val|) == c
  }

  ghost predicate NewKeys(s: Cache, rs: seq<D.Record>) {
    && (forall i :: 0 <= i < |rs| ==> rs[i].key !in s.items)
    && (forall i, j :: 0 <= i < j < |rs| ==> rs[i].key != rs[j].key)
  }

  /** t holds the items of s and the records. */
  ghost predicate Joined(s: Cache, t: Cache, rs: seq<D.Record>) {
    && (forall i :: 0 <= i < |rs| ==> rs[i].key in t.items && t.items[rs[i].key] == Entry(rs[i].val, 0))
    && (forall k :: k in t.items ==> (k in s.items || exists i :: 0 <= i < |rs| && rs[i].key == k))
    && (forall k :: k in s.items ==> k in t.items && t.items[k] == s.items[k])
  }

  lemma FitsDefined(cfg: Config, rs: seq<D.Record>, c: nat)
    requires cfg.Valid() && InClass(cfg, rs, c)
    ensures PutDefined(cfg, rs)
    ensures rs != [] ==> FitsClass(cfg, rs[0], c) && InClass(cfg, rs[1..], c)
  {
    hide Class;
  }

  /** Records of one class under new keys, with pages to spare: each is set in front of those before it. */
  lemma {:induction false} PutNew(cfg: Config, s: Cache, rs: seq<D.Record>, c: nat)
    requires Inv(cfg, s) && c < |s.lru| && InClass(cfg, rs, c) && NewKeys(s, rs)
    requires s.used + |rs| * cfg.PageBytes(c) < cfg.memLimit
    ensures PutDefined(cfg, rs)
    ensures var (t, reply) := Put(cfg, s, rs);
            reply == Done(OK) && t.lru == s.lru[c := Newest(rs) + s.lru[c]] && Joined(s, t, rs)
    decreases |rs|
  {
    InvParts(cfg, s);
    FitsDefined(cfg, rs, c);
    hide Set, Put, PutDefined, Inv, InClass, SetDefined, FitsClass, Wf, Joined, NewKeys,
         Config.PageBytes, Newest;
    if rs == [] {
      PutNone(cfg, s, rs);
      NothingJoined(s, rs, s.lru[c]);
    } else {
      var t := PutFirst(cfg, s, rs, c);
      PutNew(cfg, t, rs[1..], c);
      PutOn(cfg, s, t, Put(cfg, t, rs[1..]).0, rs, c);
    }
  }

  lemma PutFirst(cfg: Config, s: Cache, rs: seq<D.Record>, c: nat) returns (t: Cache)
    requires rs != [] && Inv(cfg, s) && c < |s.lru| && InClass(cfg, rs, c) && NewKeys(s, rs) && PutDefined(cfg, rs)
    requires s.used + |rs| * cfg.PageBytes(c) < cfg.memLimit
    ensures rs[0].key !in s.items && t.items == s.items[rs[0].key := Entry(rs[0].val, 0)]
    ensures t.lru == s.lru[c := [rs[0].key] + s.lru[c]]
    ensures PutDefined(cfg, rs[1..]) && Inv(cfg, t) && Put(cfg, s, rs) == Put(cfg, t, rs[1..])
    ensures InClass(cfg, rs[1..], c) && NewKeys(t, rs[1..])
    ensures t.used + |rs[1..]| * cfg.PageBytes(c) < cfg.memLimit
  {
    InvParts(cfg, s);
    FitsDefined(cfg, rs, c);
    NewKeysFirst(s, rs);
    hide Set, Put, PutDefined, Inv, InClass, SetDefined, FitsClass, Wf, NewKeys, Config.PageBytes;
    MorePages(|rs|, cfg.PageBytes(c));
    PutCons(cfg, s, rs);
    SetFirst(cfg, s, rs[0], c);
    t := Set(cfg, s, rs[0].key, rs[0].val, 0).0;
    NewKeysRest(s, t, rs);
  }

  lemma NewKeysFirst(s: Cache, rs: seq<D.Record>)
    requires rs != [] && NewKeys(s, rs)
    ensures rs[0].key !in s.items
  {
  }

  lemma PutOn(cfg: Config, s: Cache, t: Cache, u: Cache, rs: seq<D.Record>, c: nat)
    requires rs != [] && c < |s.lru| && rs[0].key !in s.items && t.items == s.items[rs[0].key := Entry(rs[0].val, 0)]
    requires t.lru == s.lru[c := [rs[0].key] + s.lru[c]]
    requires u.lru == t.lru[c := Newest(rs[1..]) + t.lru[c]] && Joined(t, u, rs[1..])
    ensures u.lru == s.lru[c := Newest(rs) + s.lru[c]] && Joined(s, u, rs)
  {
    hide Joined, Newest;
    JoinedFirst(s, t, u, rs);
    NewestFirst(rs, s.lru[c]);
  }

  lemma NothingJoined(s: Cache, rs: seq<D.Record>, l: seq<Bytes>)
    requires rs == []
    ensures Joined(s, s, rs) && Newest(rs) + l == l
  {
  }

  lemma NewestFirst(rs: seq<D.Record>, l: seq<Bytes>)
    requires rs != []
    ensures Newest(rs[1..]) + ([rs[0].key] + l) == Newest(rs) + l
  {
  }

  lemma MorePages(n: nat, page: nat)
    requires n > 0
    ensures page + (n - 1) * page == n * page && (n - 1) * page >= 0
  {
  }

  lemma SetFirst(cfg: Config, s: Cache, r: D.Record, c: nat)
    requires Wf(cfg, s) && c < |s.lru| && FitsClass(cfg, r, c) && r.key !in s.items
    requires s.used + cfg.PageBytes(c) < cfg.memLimit
    ensures var (t, reply) := Set(cfg, s, r.key, r.val, 0);
            && reply == Done(OK) && t.items == s.items[r.key := Entry(r.val, 0)]
            && t.lru == s.lru[c := [r.key] + s.lru[c]] && t.used <= s.used + cfg.PageBytes(c)
  {
    hide Recency, Class, Set;
    SetNew(cfg, s, r.key, r.val);
  }

  lemma NewKeysRest(s: Cache, t: Cache, rs: seq<D.Record>)
    requires rs != [] && NewKeys(s, rs) && t.items.Keys == s.items.Keys + {rs[0].key}
    ensures NewKeys(t, rs[1..])
  {
  }

  lemma JoinedFirst(s: Cache, t: Cache, u: Cache, rs: seq<D.Record>)
    requires rs != [] && rs[0].key !in s.items && t.items == s.items[rs[0].key := Entry(rs[0].val, 0)]
    requires Joined(t, u, rs[1..])
    ensures Joined(s, u, rs)
  {
    forall i | 0 <= i < |rs| ensures rs[i].key in u.items && u.items[rs[i].key] == Entry(rs[i].val, 0) {
      if i > 0 { assert rs[i] == rs[1..][i - 1]; }
    }
    forall k | k in u.items && k !in s.items ensures exists i :: 0 <= i < |rs| && rs[i].key == k {
      if k in t.items {
        assert rs[0].key == k;
      } else {
        var i :| 0 <= i < |rs[1..]| && rs[1..][i].key == k;
        assert rs[i + 1].key == k;
      }
    }
  }

  /** The dump of a store with items of one class only. */
  lemma {:induction false} RecordsOneClass(cfg: Config, s: Cache, c: nat, from: nat)
    requires Wf(cfg, s) && c < |s.lru| && from <= |s.lru|
    requires forall j :: 0 <= j < |s.lru| && j != c ==> s.lru[j] == []
    requires forall i :: 0 <= i < |s.lru[c]| ==> s.lru[c][i] in s.items
    ensures Records(cfg, s, from) == if from <= c then RecordsOf(s, s.lru[c]) else []
    decreases |s.lru| - from
  {
    hide Wf, Records, RecordsOf;
    RecordsStep(cfg, s, from);
    if from < |s.lru| {
      RecordsOneClass(cfg, s, c, from + 1);
      EmptyRecords(s, s.lru[from]);
    }
  }

  lemma RecordsStep(cfg: Config, s: Cache, from: nat)
    requires Wf(cfg, s) && from <= |s.lru|
    ensures from == |s.lru| ==> Records(cfg, s, from) == []
    ensures from < |s.lru| ==> forall i :: 0 <= i < |s.lru[from]| ==> s.lru[from][i] in s.items
    ensures from < |s.lru| ==> Records(cfg, s, from) == RecordsOf(s, s.lru[from]) + Records(cfg, s, from + 1)
  {
    if from < |s.lru| { ListedPresent(cfg, s, from); }
    hide Wf, RecordsOf;
  }

  lemma EmptyRecords(s: Cache, ks: seq<Bytes>)
    requires forall i :: 0 <= i < |ks| ==> ks[i] in s.items
    ensures ks == [] ==> RecordsOf(s, ks) == []
  {
  }

  /** Loading stops with the records reached, and reports no error for the others. */
  lemma LoadPart(cfg: Config, s: Cache, c: nat, n: nat)
    requires Inv(cfg, s) && SizesOk(cfg, s) && Conservation.FirstPagesFit(cfg) && c < |s.lru| && n < |s.lru[c]|
    requires forall j :: 0 <= j < |s.lru| && j != c ==> s.lru[j] == []
    requires forall i :: 0 <= i < |s.lru[c]| ==> s.lru[c][i] in s.items
    requires var rs := RecordsOf(s, s.lru[c]); D.LoadFile(D.File(rs), D.BUFFER_SIZE) == (rs[..n], D.Complete)
    ensures Inv(cfg, Conservation.Fresh(cfg)) && LoadDefined(cfg, D.File(Records(cfg, s, 0)))
    ensures var (t, reply) := Load(cfg, Conservation.Fresh(cfg), D.File(Records(cfg, s, 0)));
            && reply == Done(OK) && s.lru[c][n] !in t.items
            && (forall k :: k in t.items <==> k in s.lru[c][..n])
  {
    InvParts(cfg, s);
    FreshRebuilt(cfg, s);
    RecordsOneClass(cfg, s, c, 0);
    hide Set, Put, Records, PutDefined, D.File, D.LoadFile, SizesOk, Recency, Conserved, Shape, RecordsOf;
    EmptyClasses(cfg, s, Conservation.Fresh(cfg), c);
    hide Inv, Rebuilt;
    PutClass(cfg, s, Conservation.Fresh(cfg), c, n);
    var t := Put(cfg, Conservation.Fresh(cfg), RecordsOf(s, s.lru[c])[..n]).0;
    NotYet(cfg, s, t, c, n);
    OnlyThose(cfg, s, t, c, n);
  }

  lemma EmptyClasses(cfg: Config, s: Cache, t: Cache, c: nat)
    requires Wf(cfg, s) && Rebuilt(cfg, s, t, 0, 0) && c < |s.lru|
    requires forall j :: 0 <= j < |s.lru| && j != c ==> s.lru[j] == []
    ensures Rebuilt(cfg, s, t, c, 0)
  {
    hide Inv, Recency;
    assert s.lru[c][..0] == [] && s.lru[0][..0] == [];
  }

  lemma OnlyThose(cfg: Config, s: Cache, t: Cache, c: nat, n: nat)
    requires Wf(cfg, s) && Rebuilt(cfg, s, t, c, n) && c < |s.lru| && n <= |s.lru[c]|
    requires forall j :: 0 <= j < |s.lru| && j != c ==> s.lru[j] == []
    ensures forall k :: k in t.items <==> k in s.lru[c][..n]
  {
    hide Class, Conserved;
    var there := s.lru[c][..n];
    forall j | 0 <= j < |t.lru| && j != c ensures t.lru[j] == [] {}
    forall k | k in there ensures k in t.items {
      var i :| 0 <= i < n && there[i] == k;
      assert t.lru[c][n - 1 - i] == k;
      assert k in t.lru[c];
    }
    forall k | k in t.items ensures k in there {
      var id := ClassIn(cfg, t, k);
      assert k in t.lru[id];
      assert id == c;
      var i :| 0 <= i < n && t.lru[c][i] == k;
      assert there[n - 1 - i] == k;
    }
  }

  // ----- the default store

  function DefaultTable(): (r: seq<nat>)
    ensures |r| == 13 && r[11] == 262144 && r[12] == 524288
  {
    [128, 256, 512, 1024, 2048, 4096, 8192, 16384, 32768, 65536, 131072, 262144, 524288]
  }

  lemma DefaultSchedule()
    ensures Sizes(DEFAULT_ATTR) == DefaultTable()
  {
    var a := DEFAULT_ATTR;
    hide Schedule;
    PastTheEnd(a, 1048576);
    DoublingSchedule(a, 524288);
    DoublingSchedule(a, 262144);
    DoublingSchedule(a, 131072);
    DoublingSchedule(a, 65536);
    assert Schedule(a, 65536) == [65536, 131072, 262144, 524288];
    DoublingSchedule(a, 32768);
    DoublingSchedule(a, 16384);
    DoublingSchedule(a, 8192);
    DoublingSchedule(a, 4096);
    assert Schedule(a, 4096) == [4096, 8192, 16384, 32768] + Schedule(a, 65536);
    DoublingSchedule(a, 2048);
    DoublingSchedule(a, 1024);
    DoublingSchedule(a, 512);
    DoublingSchedule(a, 256);
    DoublingSchedule(a, 128);
    assert Schedule(a, 128) == [128, 256, 512, 1024, 2048] + Schedule(a, 4096);
  }

  lemma DefaultPages(id: nat)
    requires id < 13
    ensures DefaultTable()[id] > 0 && DefaultTable()[id] * (1048576 / DefaultTable()[id]) == 1048576
  {
  }

  lemma DefaultSizes()
    ensures var cfg := ConfigOf(DEFAULT_ATTR);
            && cfg.Valid() && |cfg.sizes| == 13 && cfg.sizes[11] == 262144 && cfg.sizes[12] == 524288
            && Increasing(cfg.sizes) && (forall id :: 0 <= id < 13 ==> cfg.PageBytes(id) == 1048576)
            && cfg.itemSizeMax == 1048576 && cfg.memLimit == 67108864
  {
    hide Sizes, DefaultTable;
    DefaultSchedule();
    ConfigValid(DEFAULT_ATTR);
    var cfg := ConfigOf(DEFAULT_ATTR);
    forall id | 0 <= id < 13 ensures cfg.PageBytes(id) == 1048576 {
      DefaultPages(id);
    }
  }

  lemma {:induction false} EqualPages(cfg: Config, page: nat, from: nat)
    requires cfg.Valid() && from <= |cfg.sizes| && forall id :: 0 <= id < |cfg.sizes| ==> cfg.PageBytes(id) == page
    ensures PoolBytes(cfg, Conservation.Ones(|cfg.sizes|), from) == (|cfg.sizes| - from) * page
    decreases |cfg.sizes| - from
  {
    hide Config.PageBytes;
    if from < |cfg.sizes| {
      EqualPages(cfg, page, from + 1);
      MorePages(|cfg.sizes| - from, page);
    }
  }

  lemma DefaultFresh()
    ensures var cfg := ConfigOf(DEFAULT_ATTR);
            && cfg.Valid() && Conservation.FirstPagesFit(cfg) && Inv(cfg, Conservation.Fresh(cfg))
            && var s := Conservation.Fresh(cfg);
            |s.lru| == 13 && s.items == map[] && s.used == 13631488 && forall j :: 0 <= j < 13 ==> s.lru[j] == []
  {
    DefaultSizes();
    hide ConfigOf, Config.Valid;
    EqualFresh(ConfigOf(DEFAULT_ATTR), 1048576);
  }

  lemma EqualFresh(cfg: Config, page: nat)
    requires cfg.Valid() && (forall id :: 0 <= id < |cfg.sizes| ==> cfg.PageBytes(id) == page)
    requires |cfg.sizes| * page < cfg.memLimit
    ensures Conservation.FirstPagesFit(cfg) && Inv(cfg, Conservation.Fresh(cfg))
    ensures var s := Conservation.Fresh(cfg);
            && |s.lru| == |cfg.sizes| && s.items == map[] && s.used == |cfg.sizes| * page
            && forall j :: 0 <= j < |s.lru| ==> s.lru[j] == []
  {
    hide Conservation.Fresh, PoolBytes, Recency, Config.PageBytes;
    EqualPages(cfg, page, 0);
    Conservation.FreshInv(cfg);
    FreshParts(cfg);
  }

  lemma FreshParts(cfg: Config)
    requires cfg.Valid()
    ensures var s := Conservation.Fresh(cfg);
            && |s.lru| == |cfg.sizes| && s.items == map[]
            && s.used == PoolBytes(cfg, Conservation.Ones(|cfg.sizes|), 0)
            && forall j :: 0 <= j < |s.lru| ==> s.lru[j] == []
  {
    Conservation.FormattingFacts(cfg, |cfg.sizes|);
    assert Conservation.Fresh(cfg).pages == Conservation.Ones(|cfg.sizes|);
    hide PoolBytes, Recency;
  }

  /** An item with a one-byte key and a value of n letters a. */
  function Letters(k: byte, n: nat): (r: D.Record)
    ensures |r.val| == n && r.key == [k]
  {
    D.Record([k], seq(n, i => 97))
  }

  lemma LettersText(k: byte, n: nat)
    requires 100_000 <= n < 1_000_000 && k != NUL
    ensures |D.Text(Letters(k, n))| == n + 12 && NUL !in Letters(k, n).key && NUL !in Letters(k, n).val
  {
    assert |Counter.Print(n)| == 6 by {
      assert n / 10 / 10 / 10 / 10 / 10 < 10 <= n / 10 / 10 / 10 / 10;
      assert |Counter.Print(n / 10 / 10 / 10 / 10)| == 2;
      assert |Counter.Print(n / 10 / 10)| == 4;
    }
    assert |Counter.Print(1)| == 1;
    assert NUL !in Letters(k, n).val;
  }

  lemma LettersFit(k: byte, n: nat)
    requires 300_000 <= n <= 350_000
    ensures ConfigOf(DEFAULT_ATTR).Valid() && FitsClass(ConfigOf(DEFAULT_ATTR), Letters(k, n), 12)
  {
    DefaultSizes();
    hide ConfigOf, Letters;
  }

  lemma ThreeLines(a: D.Record, b: D.Record, c: D.Record)
    ensures |D.File([a, b, c])| == |D.Text(a)| + |D.Text(b)| + |D.Text(c)|
  {
    hide D.Text;
    assert [a, b, c][1..] == [b, c] && [b, c][1..] == [c] && [c][1..] == [];
    assert D.File([c]) == D.Text(c) + D.File([]);
    assert D.File([b, c]) == D.Text(b) + D.File([c]);
  }

  /** Three lines that fill the buffer, and one behind them. */
  lemma ThreeLoaded(a: D.Record, b: D.Record, c: D.Record, e: D.Record)
    requires D.NulFree([a, b, c, e]) && D.AllFit([a, b, c, e])
    requires |D.Text(a)| + |D.Text(b)| + |D.Text(c)| == D.BUFFER_SIZE
    ensures D.LoadFile(D.File([a, b, c, e]), D.BUFFER_SIZE) == ([a, b, c], D.Complete)
  {
    hide D.Text, D.File, D.LoadFile;
    ThreeLines(a, b, c);
    assert [a, b, c] + [e] == [a, b, c, e];
    D.BoundaryStops([a, b, c], [e], D.BUFFER_SIZE);
  }

  /** Four items of a store with the default attributes, in the order of its dump. */
  function Four(): (r: seq<D.Record>)
    ensures |r| == 4
  {
    [Letters(97, 350_000), Letters(98, 350_000), Letters(99, 349_564), Letters(100, 300_000)]
  }

  lemma FourFacts()
    ensures var r := Four();
            && D.NulFree(r) && D.AllFit(r) && |D.Text(r[0])| + |D.Text(r[1])| + |D.Text(r[2])| == D.BUFFER_SIZE
            && r[0].key == [97] && r[1].key == [98] && r[2].key == [99] && r[3].key == [100]
  {
    hide D.Text, Letters, D.NulFree, D.AllFit;
    var a, b, c, e := Letters(97, 350_000), Letters(98, 350_000), Letters(99, 349_564), Letters(100, 300_000);
    LettersText(97, 350_000);
    LettersText(98, 350_000);
    LettersText(99, 349_564);
    LettersText(100, 300_000);
    FourPlain(a, b, c, e);
  }

  lemma FourPlain(a: D.Record, b: D.Record, c: D.Record, e: D.Record)
    requires NUL !in a.key && NUL !in b.key && NUL !in c.key && NUL !in e.key
    requires NUL !in a.val && NUL !in b.val && NUL !in c.val && NUL !in e.val
    requires |a.key| == |b.key| == |c.key| == |e.key| == 1
    requires |a.val| <= 350_000 && |b.val| <= 350_000 && |c.val| <= 350_000 && |e.val| <= 350_000
    ensures D.NulFree([a, b, c, e]) && D.AllFit([a, b, c, e])
  {
  }

  lemma FourFit()
    ensures var r := Four();
            && ConfigOf(DEFAULT_ATTR).Valid()
            && InClass(ConfigOf(DEFAULT_ATTR), r, 12) && InClass(ConfigOf(DEFAULT_ATTR), [r[3], r[2], r[1], r[0]], 12)
  {
    hide Letters, FitsClass, ConfigOf, Config.Valid, InClass;
    var a, b, c, e := Letters(97, 350_000), Letters(98, 350_000), Letters(99, 349_564), Letters(100, 300_000);
    LettersFit(97, 350_000);
    LettersFit(98, 350_000);
    LettersFit(99, 349_564);
    LettersFit(100, 300_000);
    FourInClass(ConfigOf(DEFAULT_ATTR), a, b, c, e, 12);
    FourInClass(ConfigOf(DEFAULT_ATTR), e, c, b, a, 12);
  }

  lemma FourInClass(cfg: Config, a: D.Record, b: D.Record, c: D.Record, e: D.Record, id: nat)
    requires cfg.Valid() && FitsClass(cfg, a, id) && FitsClass(cfg, b, id) && FitsClass(cfg, c, id)
    requires FitsClass(cfg, e, id)
    ensures InClass(cfg, [a, b, c, e], id)
  {
    hide FitsClass, Config.Valid;
  }

  lemma NewestOfFour(a: D.Record, b: D.Record, c: D.Record, e: D.Record)
    ensures Newest([e, c, b, a]) == [a.key, b.key, c.key, e.key]
  {
    assert [e, c, b, a][1..] == [c, b, a] && [c, b, a][1..] == [b, a] && [b, a][1..] == [a] && [a][1..] == [];
    assert Newest([a]) == [a.key];
    assert Newest([b, a]) == [a.key, b.key];
    assert Newest([c, b, a]) == [a.key, b.key, c.key];
  }

  /** A store that holds the four records as its only class with items. */
  ghost predicate Holds(cfg: Config, s: Cache, rs: seq<D.Record>, c: nat) {
    && Inv(cfg, s) && c < |s.lru| && (forall j :: 0 <= j < |s.lru| && j != c ==> s.lru[j] == [])
    && |s.lru[c]| == |rs|
    && (forall i :: 0 <= i < |rs| ==>
          s.lru[c][i] == rs[i].key && rs[i].key in s.items && s.items[rs[i].key].val == rs[i].val)
  }

  lemma HeldRecords(cfg: Config, s: Cache, rs: seq<D.Record>, c: nat)
    requires Holds(cfg, s, rs, c)
    ensures Wf(cfg, s) && Records(cfg, s, 0) == RecordsOf(s, s.lru[c]) == rs
  {
    RecordsOneClass(cfg, s, c, 0);
    hide Inv, Records, Recency, Shape;
  }

  lemma FourHeld(cfg: Config, s: Cache, a: D.Record, b: D.Record, c: D.Record, e: D.Record, id: nat)
    requires Inv(cfg, s) && s.items == map[] && id < |s.lru| && forall j :: 0 <= j < |s.lru| ==> s.lru[j] == []
    requires InClass(cfg, [e, c, b, a], id) && s.used + 4 * cfg.PageBytes(id) < cfg.memLimit
    requires a.key != b.key && a.key != c.key && a.key != e.key && b.key != c.key && b.key != e.key && c.key != e.key
    ensures PutDefined(cfg, [e, c, b, a])
    ensures var (t, reply) := Put(cfg, s, [e, c, b, a]); reply == Done(OK) && Holds(cfg, t, [a, b, c, e], id)
  {
    hide Inv, InClass, Put, PutDefined, Config.PageBytes, Newest, Config.Valid;
    var rs := [e, c, b, a];
    PutNew(cfg, s, rs, id);
    NewestOfFour(a, b, c, e);
    var t := Put(cfg, s, rs).0;
    assert rs[0] == e && rs[1] == c && rs[2] == b && rs[3] == a;
    assert [a.key, b.key, c.key, e.key] + [] == [a.key, b.key, c.key, e.key];
  }

  lemma HeldSizes(cfg: Config, s: Cache, rs: seq<D.Record>, c: nat)
    requires Holds(cfg, s, rs, c) && InClass(cfg, rs, c)
    ensures SizesOk(cfg, s)
  {
    HeldRecords(cfg, s, rs, c);
    RecordsComplete(cfg, s);
    hide Holds, Inv, Class;
  }

  /** Four items set in a new store with the default attributes.  Loading its dump into another new store
      reports success, and the item used least recently is not there. */
  lemma LoadLosesItem()
    ensures var cfg, r := ConfigOf(DEFAULT_ATTR), Four();
            && cfg.Valid() && Inv(cfg, Conservation.Fresh(cfg)) && PutDefined(cfg, [r[3], r[2], r[1], r[0]])
            && var (s, stored) := Put(cfg, Conservation.Fresh(cfg), [r[3], r[2], r[1], r[0]]);
            && stored == Done(OK) && Records(cfg, s, 0) == r && r[3].key in s.items
            && LoadDefined(cfg, D.File(Records(cfg, s, 0)))
            && var (t, reply) := Load(cfg, Conservation.Fresh(cfg), D.File(Records(cfg, s, 0)));
            reply == Done(OK) && t.items.Keys == {r[0].key, r[1].key, r[2].key}
  {
    hide ConfigOf, Config.Valid, Inv, Conservation.Fresh, Conservation.FirstPagesFit, Put, PutDefined, Load,
         LoadDefined,
         Records, RecordsOf, D.File, D.LoadFile, D.Text, D.NulFree, D.AllFit, Four, InClass, SizesOk, Config.PageBytes;
    var cfg, r := ConfigOf(DEFAULT_ATTR), Four();
    DefaultSizes();
    DefaultFresh();
    FourFacts();
    FourFit();
    assert r == [r[0], r[1], r[2], r[3]];
    FourHeld(cfg, Conservation.Fresh(cfg), r[0], r[1], r[2], r[3], 12);
    var s := Put(cfg, Conservation.Fresh(cfg), [r[3], r[2], r[1], r[0]]).0;
    HeldRecords(cfg, s, r, 12);
    HeldSizes(cfg, s, r, 12);
    ThreeLoaded(r[0], r[1], r[2], r[3]);
    assert r[..3] == [r[0], r[1], r[2]];
    LoadPart(cfg, s, 12, 3);
    assert s.lru[12][..3] == [r[0].key, r[1].key, r[2].key];
  }

  // ----- counters do not come back

  /** A store with a counter in it never comes back whole: the terminator in the cell cuts its line short. */
  lemma CounterNotReloaded(cfg: Config, s: Cache, k: Bytes, n: nat, before: Bytes)
    requires Inv(cfg, s) && Conservation.FirstPagesFit(cfg) && LengthsFit(s)
    requires LoadDefined(cfg, D.File(Records(cfg, s, 0)))
    requires n < U64 && |before| == CELL && k in s.items && s.items[k].val == Counter.Cell(n, before)
    ensures Inv(cfg, Conservation.Fresh(cfg))
    ensures var (t, reply) := Load(cfg, Conservation.Fresh(cfg), D.File(Records(cfg, s, 0)));
            !(reply == Done(OK) && SameContents(s, t))
  {
    InvParts(cfg, s);
    Counter.CellHoldsNul(n, before);
    hide Inv, Wf, Load, LoadDefined, Records, SameContents, Counter.Cell, Conservation.FirstPagesFit;
    ReloadIff(cfg, s);
  }

  /** The line of a counter: its value area is announced in full and written up to the terminator. */
  lemma CounterText(k: Bytes, n: nat, before: Bytes)
    requires n < U64 && |before| == CELL && NUL !in k
    ensures D.Text(D.Record(k, Counter.Cell(n, before)))
         == Counter.Print(|k|) + [SPACE]
          + (Counter.Print(CELL) + [SPACE] + (k + [SPACE] + Counter.Print(n) + [NEWLINE]))
  {
    CounterCStr(n, before);
    hide Counter.Print, Counter.Cell, D.CStr;
    Grouped(Counter.Print(|k|), Counter.Print(CELL), k, Counter.Print(n));
  }

  lemma Grouped(p: Bytes, q: Bytes, k: Bytes, v: Bytes)
    ensures p + [SPACE] + q + [SPACE] + k + [SPACE] + v + [NEWLINE]
         == p + [SPACE] + (q + [SPACE] + (k + [SPACE] + v + [NEWLINE]))
  {
  }

  lemma CounterCStr(n: nat, before: Bytes)
    requires n < U64 && |before| == CELL
    ensures D.CStr(Counter.Cell(n, before)) == Counter.Print(n)
  {
    var c, m := Counter.Cell(n, before), |Counter.Print(n)|;
    Counter.CellHoldsNul(n, before);
    assert !Counter.IsDigit(NUL);
    hide Counter.Print, Counter.Cell, D.CStr;
    assert c[m] == c[..m + 1][m];
    assert forall j :: 0 <= j < m ==> c[j] == c[..m + 1][j];
    CStrUpTo(c, m);
    assert c[..m] == c[..m + 1][..m];
  }

  lemma {:induction false} CStrUpTo(s: Bytes, i: nat)
    requires i < |s| && s[i] == NUL && forall j :: 0 <= j < i ==> s[j] != NUL
    ensures D.CStr(s) == s[..i]
  {
    if i > 0 {
      CStrUpTo(s[1..], i - 1);
    }
  }

  /** A record whose line is shorter than it announces, at the end of a file. */
  lemma ShortLine(k: nat, n: nat, body: Bytes)
    requires k + 1 + n + 1 > |body| && IsCount(k) && IsCount(n)
    requires |Counter.Print(k)| + |Counter.Print(n)| + 2 + |body| <= D.BUFFER_SIZE
    ensures var file := Counter.Print(k) + [SPACE] + (Counter.Print(n) + [SPACE] + body);
            D.LoadFile(file, D.BUFFER_SIZE) == ([], D.TooLarge)
  {
    var file := Counter.Print(k) + [SPACE] + (Counter.Print(n) + [SPACE] + body);
    PrintedNumber(k);
    PrintedNumber(n);
    hide Counter.Print, ToNumber, D.ParseRecord;
    D.ParseNumbers(Counter.Print(k), Counter.Print(n), body);
    assert [] + file[..|file|] == file;
  }

  /** The store of one chunk after "a" was incremented: its only item is a counter that holds 1. */
  function OneCounter(): Cache {
    var k: Bytes := [97];
    Cache(map[k := Entry(Counter.Cell(1, Counter.Blank()), 0)], [[k]], [0], [1], 104)
  }

  lemma CountOne()
    ensures var cfg, s0 := Runs.OneChunk(), Cache(map[], [[]], [1], [1], 104);
            && Wf(cfg, s0) && ArithDefined(cfg, s0, [97])
            && Arith(cfg, s0, [97], 1, true, None) == (OneCounter(), Number(1, None))
  {
    var cfg, s0 := Runs.OneChunk(), Cache(map[], [[]], [1], [1], 104);
    var k: Bytes := [97];
    assert Wf(cfg, s0);
    assert AllocSource(cfg, s0, 0) == FromFree;
    assert Class(cfg, k, CELL) == 0;
    hide Counter.Cell, Counter.Blank;
    var a := Alloc(cfg, s0, 0);
    assert a == Cache(map[], [[]], [0], [1], 104);
    assert [k] + [] == [k];
    assert a.lru[0 := [k]] == [[k]];
  }

  /** The counter's line announces 21 bytes and holds one: the load takes it for an item larger than its buffer,
      and leaves the new store empty. */
  lemma CounterLost()
    ensures var cfg, s0 := Runs.OneChunk(), Conservation.Fresh(Runs.OneChunk());
            && Inv(cfg, s0) && ArithDefined(cfg, s0, [97])
            && var (s, reply) := Arith(cfg, s0, [97], 1, true, None);
            && reply == Number(1, None) && Inv(cfg, s) && [97] in s.items
            && LoadDefined(cfg, D.File(Records(cfg, s, 0)))
            && Load(cfg, s0, D.File(Records(cfg, s, 0))) == (s0, Done(ESize)) && s0.items == map[]
  {
    hide Runs.OneChunk, Config.Valid, Arith, Inv, Wf, Records, Load, LoadDefined;
    var cfg, s0 := Runs.OneChunk(), Conservation.Fresh(Runs.OneChunk());
    Runs.OneChunkFresh();
    Conservation.FreshInv(cfg);
    CountOne();
    Conservation.ArithKeeps(cfg, s0, [97], 1, true, None);
    InvParts(cfg, OneCounter());
    OneCounterFile();
    LoadNone(cfg, s0, D.File(Records(cfg, OneCounter(), 0)));
  }

  /** A file that yields no record. */
  lemma LoadNone(cfg: Config, s: Cache, file: Bytes)
    requires Inv(cfg, s) && D.LoadFile(file, D.BUFFER_SIZE) == ([], D.TooLarge)
    ensures LoadDefined(cfg, file) && Load(cfg, s, file) == (s, Done(ESize))
  {
    hide D.LoadFile, Inv;
  }

  lemma OneCounterFile()
    requires Wf(Runs.OneChunk(), OneCounter())
    ensures D.LoadFile(D.File(Records(Runs.OneChunk(), OneCounter(), 0)), D.BUFFER_SIZE) == ([], D.TooLarge)
  {
    Counter.CellFits(1);
    Counter.CellFits(CELL);
    hide Runs.OneChunk, Config.Valid, Records, RecordsOf, D.LoadFile, D.Text, Counter.Cell, Counter.Print, Wf;
    var s, k := OneCounter(), [97];
    assert s.lru[0] == [k] && k in s.items;
    RecordsOneClass(Runs.OneChunk(), s, 0, 0);
    OneRecord(s, k);
    var r := D.Record(k, Counter.Cell(1, Counter.Blank()));
    CounterText(k, 1, Counter.Blank());
    assert D.File([r]) == D.Text(r) by { assert [r][1..] == []; assert D.Text(r) + [] == D.Text(r); }
    ShortLine(1, CELL, k + [SPACE] + Counter.Print(1) + [NEWLINE]);
  }

  lemma OneRecord(s: Cache, k: Bytes)
    requires k in s.items
    ensures RecordsOf(s, [k]) == [RecordOf(s, k)]
  {
    assert [k][1..] == [];
  }

  const XS: Bytes := [120, 120, 120, 120, 120, 120, 120, 120, 120, 120, 120, 120]
  const UVW: Bytes := [117, 118, 119]

  /** "5" and a newline, "1 13 b " and twelve x: what the dump has where the counter's 21 bytes should be. */
  function Swallowed(): (r: Bytes)
    ensures |r| == CELL
  {
    [53, 10, 49, 32, 49, 51, 32, 98, 32] + XS
  }

  /** A newline, "1 3 c uvw" and a newline. */
  function Behind(): (r: Bytes)
    ensures |r| == 11
  {
    [10, 49, 32, 51, 32, 99, 32] + UVW + [10]
  }

  /** A counter that holds 5, "b" with thirteen x, and "c". */
  function Three(): seq<D.Record> {
    [D.Record([97], Counter.Cell(5, Counter.Blank())), D.Record([98], XS + [120]), D.Record([99], UVW)]
  }

  /** The counter swallows the start of the next line.  The load goes on behind it, at a newline that atoi skips, and
      reports success although "b" is lost and "a" holds text. */
  lemma CounterSwallows()
    ensures D.LoadFile(D.File(Three()), D.BUFFER_SIZE)
         == ([D.Record([97], Swallowed()), D.Record([99], UVW)], D.Complete)
  {
    hide D.ParseRecord, D.LoadFile, D.File, Three, Swallowed, Behind;
    SwallowingFile();
    SwallowingLine();
    LineBehind();
    TwoParsed(D.File(Three()), D.Record([97], Swallowed()), 29, D.Record([99], UVW), 11);
  }

  function Body(): (r: Bytes)
    ensures |r| == 35 && r[..1] == [97] && r[2..23] == Swallowed() && r[24..] == Behind()
  {
    [97, 32] + Swallowed() + [120] + Behind()
  }

  lemma SwallowingFile()
    ensures D.File(Three()) == [49] + [SPACE] + ([50, 49] + [SPACE] + Body())
  {
    hide Counter.Print, Counter.Cell, Counter.Blank, D.Text, D.File, Body;
    ThreeTexts(Three()[0], Three()[1], Three()[2]);
    CounterText([97], 5, Counter.Blank());
    OtherTexts();
    SmallNumbers();
    Glued();
  }

  lemma Glued()
    ensures [49] + [SPACE] + ([50, 49] + [SPACE] + ([97] + [SPACE] + [53] + [NEWLINE]))
          + ([49, 32, 49, 51, 32, 98, 32] + XS + [120, 10]) + ([49, 32, 51, 32, 99, 32] + UVW + [10])
         == [49] + [SPACE] + ([50, 49] + [SPACE] + Body())
  {
  }

  lemma SwallowingLine()
    ensures var file := [49] + [SPACE] + ([50, 49] + [SPACE] + Body());
            D.ParseRecord(file) == D.Parsed(D.Record([97], Swallowed()), 29) && |file| == 40 && file[29..] == Behind()
  {
    hide D.ParseRecord, ToNumber, Body, Swallowed, Behind, Counter.Print;
    SmallNumbers();
    D.ParseNumbers([49], [50, 49], Body());
    var file := [49] + [SPACE] + ([50, 49] + [SPACE] + Body());
    assert file[29..] == Body()[24..];
  }

  lemma LineBehind()
    ensures D.ParseRecord(Behind()) == D.Parsed(D.Record([99], UVW), 11)
  {
    hide D.ParseRecord, ToNumber, Counter.Print;
    SmallNumbers();
    var after: Bytes := [99, 32] + UVW + [10];
    assert Behind() == [10, 49] + [SPACE] + ([51] + [SPACE] + after);
    D.ParseNumbers([10, 49], [51], after);
    assert after[..1] == [99] && after[2..5] == UVW;
  }

  lemma ThreeTexts(a: D.Record, b: D.Record, c: D.Record)
    ensures D.File([a, b, c]) == D.Text(a) + D.Text(b) + D.Text(c)
  {
    hide D.Text;
    assert [a, b, c][1..] == [b, c] && [b, c][1..] == [c] && [c][1..] == [];
    assert D.File([c]) == D.Text(c) + D.File([]) == D.Text(c);
    assert D.File([b, c]) == D.Text(b) + D.File([c]);
    assert D.Text(a) + (D.Text(b) + D.Text(c)) == D.Text(a) + D.Text(b) + D.Text(c);
  }

  lemma OtherTexts()
    ensures D.Text(D.Record([98], XS + [120])) == [49, 32, 49, 51, 32, 98, 32] + XS + [120, 10]
    ensures D.Text(D.Record([99], UVW)) == [49, 32, 51, 32, 99, 32] + UVW + [10]
  {
    SmallPrints();
    hide Counter.Print, D.CStr, D.Text;
    PlainText(98, XS + [120], [49], [49, 51]);
    PlainText(99, UVW, [49], [51]);
    Flat([49], [49, 51], 98, XS + [120]);
    Flat([49], [51], 99, UVW);
    Shown();
  }

  lemma SmallPrints()
    ensures Counter.Print(1) == [49] && Counter.Print(3) == [51] && Counter.Print(13) == [49, 51]
  {
    assert Counter.Print(13) == Counter.Print(1) + [51];
  }

  lemma Shown()
    ensures ([49] + [SPACE] + [49, 51] + [SPACE, 98, SPACE]) + (XS + [120]) + [NEWLINE]
         == [49, 32, 49, 51, 32, 98, 32] + XS + [120, 10]
    ensures ([49] + [SPACE] + [51] + [SPACE, 99, SPACE]) + UVW + [NEWLINE] == [49, 32, 51, 32, 99, 32] + UVW + [10]
  {
    assert [49] + [SPACE] + [49, 51] + [SPACE, 98, SPACE] == [49, 32, 49, 51, 32, 98, 32];
    assert [49] + [SPACE] + [51] + [SPACE, 99, SPACE] == [49, 32, 51, 32, 99, 32];
  }

  lemma Flat(p: Bytes, q: Bytes, k: byte, v: Bytes)
    ensures p + [SPACE] + q + [SPACE] + [k] + [SPACE] + v + [NEWLINE]
         == (p + [SPACE] + q + [SPACE, k, SPACE]) + v + [NEWLINE]
  {
  }

  lemma PlainText(k: byte, v: Bytes, p: Bytes, q: Bytes)
    requires k != NUL && NUL !in v && p == Counter.Print(1) && q == Counter.Print(|v|)
    ensures D.Text(D.Record([k], v)) == p + [SPACE] + q + [SPACE] + [k] + [SPACE] + v + [NEWLINE]
  {
    hide Counter.Print;
    assert D.CStr([k]) == [k] && D.CStr(v) == v;
  }

  lemma SmallNumbers()
    ensures Counter.Print(1) == [49] && Counter.Print(5) == [53] && Counter.Print(CELL) == [50, 49]
    ensures ToNumber([49]) == 1 && ToNumber([50, 49]) == CELL && ToNumber([10, 49]) == 1 && ToNumber([51]) == 3
  {
    PrintedNumber(1);
    PrintedNumber(3);
    PrintedNumber(CELL);
    assert [10, 49][1..] == [49];
    assert SkipSpace([10, 49]) == SkipSpace([49]);
  }

  /** A file of two records that fits the buffer. */
  lemma TwoParsed(file: Bytes, a: D.Record, at: nat, b: D.Record, end: nat)
    requires |file| == at + end <= D.BUFFER_SIZE && at > 0 && end > 0
    requires D.ParseRecord(file) == D.Parsed(a, at) && D.ParseRecord(file[at..]) == D.Parsed(b, end)
    ensures D.LoadFile(file, D.BUFFER_SIZE) == ([a, b], D.Complete)
  {
    hide D.ParseRecord, D.ParseAll, D.Tame;
    var rest := file[at..];
    assert rest[end..] == [] && [b] + [] == [b] && [a] + [b] == [a, b];
    D.ParseAllNone([]);
    D.ParseAllCons(rest, b, end, []);
    D.ParseAllCons(file, a, at, rest);
    assert [] + file[..|file|] == file && file[|file|..] == [];
    D.LoadStep([], file, D.BUFFER_SIZE, |file|, file, [a, b], |file|);
    D.LoadEnd(file, [], D.BUFFER_SIZE);
    assert [a, b] + [] == [a, b];
  }
}
