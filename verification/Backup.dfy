/** shmc_dump and shmc_load over the real structures: the walk along the LRU lists, and the buffered loop
    that sets records as it finds them. */
module Backup {
  import opened Basics
  import opened Lists
  import opened Slabs
  import opened Store
  import opened Heap
  import C = Cache
  import Conservation
  import Counter
  import D = DumpFormat
  import opened Numbers
  import R = Reload

  // ----- dump

  /** One step along an LRU list, with what is known of the item there. */
  lemma ListStep(m: Shmc, id: nat, i: nat)
    requires m.Good() && id < |m.abs.lru| && i <= |m.abs.lru[id]|
    ensures |m.g.lru| == |m.abs.lru| == m.heads.Length && |m.g.lru[id]| == |m.abs.lru[id]|
    ensures m.heads[id] == At(m.g.lru[id], 0)
    ensures i < |m.abs.lru[id]| ==>
              var a, k := m.g.lru[id][i], m.abs.lru[id][i];
              && a > 0 && a < m.next.Length && m.next[a] == At(m.g.lru[id], i + 1)
              && k in m.g.loc && m.g.loc[k] == a
  {
    m.LengthsAgree();
    assert KeysOf(m.g.lru[id], m.g.keyOf, m.abs.lru[id]);
    assert DList(m.next[..], m.prev[..], m.heads[..][id], m.tails[..][id], m.g.lru[id]);
    hide FreeLists, ChainLists, Own, Listed, Content, Pool, Config.Valid, C.Wf, LruLists, Abstracts;
    if i < |m.abs.lru[id]| {
      assert m.g.lru[id][i] in m.g.keyOf;
    }
  }

  lemma HeadsLength(m: Shmc)
    requires m.Good()
    ensures m.heads.Length == |m.abs.lru|
  {
    m.LengthsAgree();
  }

  /** What is still to be written when the walk is at place i of list id. */
  ghost function Left(cfg: Config, s: C.Cache, id: nat, i: nat): seq<D.Record>
    requires C.Wf(cfg, s) && id < |s.lru| && i <= |s.lru[id]|
  {
    R.ListedPresent(cfg, s, id);
    R.RecordsOf(s, s.lru[id])[i..] + R.Records(cfg, s, id + 1)
  }

  lemma LeftStep(cfg: Config, s: C.Cache, id: nat, i: nat)
    requires C.Wf(cfg, s) && id < |s.lru| && i <= |s.lru[id]|
    ensures i == |s.lru[id]| ==> Left(cfg, s, id, i) == R.Records(cfg, s, id + 1)
    ensures i < |s.lru[id]| ==>
              s.lru[id][i] in s.items
              && Left(cfg, s, id, i) == [R.RecordOf(s, s.lru[id][i])] + Left(cfg, s, id, i + 1)
    ensures Left(cfg, s, id, 0) == R.Records(cfg, s, id)
  {
    R.ListedPresent(cfg, s, id);
    var mine, rest := R.RecordsOf(s, s.lru[id]), R.Records(cfg, s, id + 1);
    hide R.RecordsOf, C.Shape, C.Recency;
    if i < |s.lru[id]| {
      DropFirst(mine, rest, i);
    }
    DropEnds(mine, rest);
  }

  lemma DropFirst(mine: seq<D.Record>, rest: seq<D.Record>, i: nat)
    requires i < |mine|
    ensures mine[i..] + rest == [mine[i]] + (mine[i + 1..] + rest)
  {
    assert mine[i..] == [mine[i]] + mine[i + 1..];
  }

  lemma DropEnds(mine: seq<D.Record>, rest: seq<D.Record>)
    ensures mine[|mine|..] + rest == rest && mine[0..] + rest == mine + rest
  {
  }

  lemma FileCons(file: Bytes, r: D.Record, rest: seq<D.Record>)
    ensures file + D.File([r] + rest) == (file + D.Text(r)) + D.File(rest)
  {
    hide D.Text;
    assert ([r] + rest)[1..] == rest;
  }

  /** shmc_dump_nolock: what it writes is the text of the records, class by class, most recent first. */
  method Dump(m: Shmc) returns (file: Bytes)
    requires C.Wf(m.cfg, m.abs) && R.LengthsFit(m.abs) && m.Good()
    ensures file == D.File(R.Records(m.cfg, m.abs, 0))
  {
    hide Shmc.Good, C.Shape, C.Recency, D.Text, D.File, R.Records, Left;
    file := [];
    assert file + D.File(R.Records(m.cfg, m.abs, 0)) == D.File(R.Records(m.cfg, m.abs, 0));
    HeadsLength(m);
    for id := 0 to m.heads.Length
      invariant file + D.File(R.Records(m.cfg, m.abs, id)) == D.File(R.Records(m.cfg, m.abs, 0))
    {
      file := DumpList(m, id, file);
    }
    LastFile(m.cfg, m.abs, file);
  }

  lemma LastFile(cfg: Config, s: C.Cache, file: Bytes)
    requires C.Wf(cfg, s)
    ensures file + D.File(R.Records(cfg, s, |s.lru|)) == file
  {
  }

  /** The inner loop: one LRU list, from its head. */
  method DumpList(m: Shmc, id: nat, before: Bytes) returns (file: Bytes)
    requires C.Wf(m.cfg, m.abs) && id < m.heads.Length == |m.abs.lru| && m.Good()
    ensures file + D.File(R.Records(m.cfg, m.abs, id + 1)) == before + D.File(R.Records(m.cfg, m.abs, id))
  {
    hide Shmc.Good, C.Shape, C.Recency, D.Text, D.File, R.Records, Left;
    file := before;
    ListStep(m, id, 0);
    var item := m.heads[id];
    ghost var i: nat := 0;
    LeftStep(m.cfg, m.abs, id, 0);
    while item != 0
      invariant i <= |m.abs.lru[id]| && item == At(m.g.lru[id], i)
      invariant file + D.File(Left(m.cfg, m.abs, id, i)) == before + D.File(R.Records(m.cfg, m.abs, id))
      decreases |m.abs.lru[id]| - i
    {
      ListStep(m, id, i);
      LeftStep(m.cfg, m.abs, id, i);
      m.KeyFacts(m.abs.lru[id][i]);
      var nkey, nval := m.meta[item].nkey, m.meta[item].nval;
      var r := D.Record(m.raw[item + HEADER..item + HEADER + nkey],
                        m.raw[item + HEADER + nkey..item + HEADER + nkey + nval]);
      FileCons(file, r, Left(m.cfg, m.abs, id, i + 1));
      file := file + D.Text(r);
      item := m.next[item];
      i := i + 1;
    }
    ListStep(m, id, i);
    LeftStep(m.cfg, m.abs, id, i);
  }

  // ----- load: one record

  /** atoi on the string in front of the NUL at end. */
  method AtoiAt(buffer: array<byte>, from: nat, ghost end: nat) returns (n: int)
    requires from <= end < buffer.Length && buffer[end] == NUL
    ensures n == ToNumber(buffer[from..end])
  {
    var i := from;
    while IsSpace(buffer[i])
      invariant from <= i <= end
      invariant SkipSpace(buffer[from..end]) == SkipSpace(buffer[i..end])
      decreases end - i
    {
      assert buffer[i..end][1..] == buffer[i + 1..end];
      i := i + 1;
    }
    assert SkipSpace(buffer[i..end]) == buffer[i..end];
    var minus := buffer[i] == MINUS;
    ghost var digits := if Signed(buffer[i..end]) then buffer[i..end][1..] else buffer[i..end];
    if minus || buffer[i] == PLUS {
      i := i + 1;
    }
    assert digits == buffer[i..end];
    n := 0;
    while Counter.IsDigit(buffer[i])
      invariant from <= i <= end && n >= 0
      invariant Digits(digits, 0) == Digits(buffer[i..end], n)
      decreases end - i
    {
      assert buffer[i..end][1..] == buffer[i + 1..end];
      n := n * 10 + Counter.DigitValue(buffer[i]);
      i := i + 1;
    }
    if minus { n := -n; }
  }

  /** The space behind a number is overwritten while atoi reads it, and put back. */
  method NumberAt(buffer: array<byte>, from: nat, end: nat) returns (n: int)
    requires from <= end < buffer.Length && buffer[end] == SPACE
    modifies buffer
    ensures buffer[..] == old(buffer[..])
    ensures n == ToNumber(buffer[from..end])
  {
    buffer[end] := NUL;
    n := AtoiAt(buffer, from, end);
    assert buffer[from..end] == old(buffer[from..end]);
    buffer[end] := SPACE;
    assert buffer[..] == old(buffer[..]);
  }

  method ParseAt(buffer: array<byte>, from: nat, to: nat) returns (p: D.Parsed)
    requires from <= to <= buffer.Length
    requires !D.ParseRecord(buffer[from..to]).Wild?
    modifies buffer
    ensures buffer[..] == old(buffer[..])
    ensures p == D.ParseRecord(old(buffer[from..to]))
  {
    hide ToNumber, D.Find, D.ParseRecord, D.ParseBody;
    ghost var buf := buffer[from..to];
    var sp := D.Memchr(buffer, from, to, SPACE);
    if sp == to || sp + 1 == to { NoNumber(buf); return D.Partial; }
    FoundByte(buf, SPACE);
    var nkey := NumberAt(buffer, from, sp);
    var nvalp := sp + 1;
    assert buffer[from..sp] == buf[..sp - from];
    assert buffer[nvalp..to] == buf[nvalp - from..];
    ghost var rest := buf[nvalp - from..];
    var sp2 := D.Memchr(buffer, nvalp, to, SPACE);
    if sp2 == to || sp2 + 1 == to { OneNumber(buf, rest); return D.Partial; }
    FoundByte(rest, SPACE);
    var nval := NumberAt(buffer, nvalp, sp2);
    var key := sp2 + 1;
    assert buffer[nvalp..sp2] == rest[..sp2 - nvalp];
    assert buffer[key..to] == rest[key - nvalp..];
    TwoNumbers(buf, rest, buffer[key..to]);
    p := BodyAt(buffer, key, to, nkey, nval, key - from);
  }

  lemma NoNumber(buf: Bytes)
    requires D.Find(buf, SPACE) == |buf| || D.Find(buf, SPACE) + 1 == |buf|
    ensures D.ParseRecord(buf) == D.Partial
  {
    hide D.Find, ToNumber, D.ParseBody;
  }

  lemma OneNumber(buf: Bytes, rest: Bytes)
    requires D.Find(buf, SPACE) + 1 < |buf| && rest == buf[D.Find(buf, SPACE) + 1..]
    requires D.Find(rest, SPACE) == |rest| || D.Find(rest, SPACE) + 1 == |rest|
    requires !D.ParseRecord(buf).Wild?
    ensures D.ParseRecord(buf) == D.Partial
  {
    hide D.Find, ToNumber, D.ParseBody;
  }

  lemma TwoNumbers(buf: Bytes, rest: Bytes, body: Bytes)
    requires D.Find(buf, SPACE) + 1 < |buf| && rest == buf[D.Find(buf, SPACE) + 1..]
    requires D.Find(rest, SPACE) + 1 < |rest| && body == rest[D.Find(rest, SPACE) + 1..]
    requires !D.ParseRecord(buf).Wild?
    ensures var sp, sp2 := D.Find(buf, SPACE), D.Find(rest, SPACE);
            && IsCount(ToNumber(buf[..sp])) && IsCount(ToNumber(rest[..sp2]))
            && D.ParseRecord(buf) == D.ParseBody(ToNumber(buf[..sp]), ToNumber(rest[..sp2]), body, sp + sp2 + 2)
  {
    hide D.Find, ToNumber, D.ParseBody;
  }

  /** The key and the value, if all of them is in the buffer. */
  method BodyAt(buffer: array<byte>, key: nat, to: nat, nkey: nat, nval: nat, at: nat) returns (p: D.Parsed)
    requires key <= to <= buffer.Length
    ensures p == D.ParseBody(nkey, nval, buffer[key..to], at)
  {
    hide D.ParseBody;
    ghost var body := buffer[key..to];
    if key + nkey + 1 + nval + 1 > to { NoBody(nkey, nval, body, at); return D.Partial; }
    var val := key + nkey + 1;
    WithinSlice(buffer[..], key, to, 0, nkey);
    WithinSlice(buffer[..], key, to, nkey + 1, nkey + 1 + nval);
    assert buffer[..][key..to] == body;
    assert buffer[..][key..key + nkey] == buffer[key..key + nkey];
    assert buffer[..][val..val + nval] == buffer[val..val + nval];
    WholeBody(nkey, nval, body, at, buffer[key..key + nkey], buffer[val..val + nval]);
    p := D.Parsed(D.Record(buffer[key..key + nkey], buffer[val..val + nval]), at + nkey + 1 + nval + 1);
  }

  lemma WithinSlice(s: Bytes, from: nat, to: nat, a: nat, b: nat)
    requires from <= to <= |s| && a <= b <= to - from
    ensures s[from..to][a..b] == s[from + a..from + b]
  {
    var x, y := s[from..to][a..b], s[from + a..from + b];
    assert |x| == |y|;
    forall i | 0 <= i < |x| ensures x[i] == y[i] {
      assert x[i] == s[from..to][a + i] == s[from + a + i];
    }
  }

  lemma NoBody(nkey: nat, nval: nat, body: Bytes, at: nat)
    requires nkey + 1 + nval + 1 > |body|
    ensures D.ParseBody(nkey, nval, body, at) == D.Partial
  {
  }

  lemma WholeBody(nkey: nat, nval: nat, body: Bytes, at: nat, key: Bytes, val: Bytes)
    requires nkey + 1 + nval + 1 <= |body| && key == body[0..nkey] && val == body[nkey + 1..nkey + 1 + nval]
    ensures D.ParseBody(nkey, nval, body, at) == D.Parsed(D.Record(key, val), at + nkey + 1 + nval + 1)
  {
    assert body[0..nkey] == body[..nkey];
  }

  lemma FoundByte(s: Bytes, c: byte)
    requires D.Find(s, c) < |s|
    ensures s[D.Find(s, c)] == c
  {
  }

  // ----- load: the loop

  /** The rest of a file can be loaded: every number is a count, and every record set has a class. */
  ghost predicate Loadable(cfg: Config, kept: Bytes, rest: Bytes)
    requires cfg.Valid() && |kept| <= D.BUFFER_SIZE
  {
    && !D.LoadFrom(kept, rest, D.BUFFER_SIZE).1.Undefined?
    && R.PutDefined(cfg, D.LoadFrom(kept, rest, D.BUFFER_SIZE).0)
  }

  /** What loading the rest of a file comes to: kept is in the buffer, rest still in the file. */
  ghost function LoadRest(cfg: Config, s: C.Cache, kept: Bytes, rest: Bytes): (C.Cache, C.Reply)
    requires C.Inv(cfg, s) && |kept| <= D.BUFFER_SIZE && Loadable(cfg, kept, rest)
  {
    var (rs, outcome) := D.LoadFrom(kept, rest, D.BUFFER_SIZE);
    Ended(R.Put(cfg, s, rs), outcome)
  }

  ghost function Ended(r: (C.Cache, C.Reply), outcome: D.Outcome): (C.Cache, C.Reply) {
    (r.0, if r.1 == C.Done(C.OK) && outcome == D.TooLarge then C.Done(C.ESize) else r.1)
  }

  ghost predicate Elsewhere(m: Shmc, buffer: array<byte>) {
    && buffer != m.raw && buffer as object != m.meta && buffer as object != m.slabs
    && buffer as object !in {m.next, m.prev, m.hnext, m.heads, m.tails, m.buckets}
  }

  lemma TameFirst(buf: Bytes)
    requires D.Tame(buf)
    ensures !D.ParseRecord(buf).Wild?
  {
    hide D.ParseRecord;
  }

  lemma ConsMore(r: D.Record, rs: seq<D.Record>, more: seq<D.Record>)
    ensures ([r] + rs) + more == [r] + (rs + more)
    ensures (([r] + rs) + more)[0] == r && (([r] + rs) + more)[1..] == rs + more
  {
  }

  /** The inner loop: sets every whole record in the buffer, up to the first that is refused. */
  method Drain(m: Shmc, buffer: array<byte>, nbuffer: nat, ghost more: seq<D.Record>)
    returns (offset: nat, rc: C.Reply)
    requires nbuffer <= buffer.Length && Elsewhere(m, buffer)
    requires m.cfg.Valid() && R.PutDefined(m.cfg, D.ParseAll(buffer[..nbuffer]).0 + more)
    requires D.Tame(buffer[..nbuffer])
    requires C.Inv(m.cfg, m.abs) && m.Valid()
    modifies m.hnext, m.buckets, m.next, m.prev, m.heads, m.tails, m.slabs, m.meta, m.raw
    modifies m`memUsed, m`nitems, m`g, m`abs
    modifies buffer
    ensures m.Valid() && buffer[..] == old(buffer[..]) && offset <= nbuffer
    ensures var rs := D.ParseAll(old(buffer[..nbuffer])).0 + more;
            if rc == C.Done(C.OK) then
              && offset == D.ParseAll(old(buffer[..nbuffer])).1 && R.PutDefined(m.cfg, more)
              && R.Put(m.cfg, old(m.abs), rs) == R.Put(m.cfg, m.abs, more)
            else R.Put(m.cfg, old(m.abs), rs) == (m.abs, rc)
  {
    hide C.Inv, Shmc.Good, D.ParseAll, D.Tame, D.ParseRecord, R.Put, R.PutDefined, C.SetDefined, C.Set, Config.Valid;
    offset, rc := 0, C.Done(C.OK);
    ghost var all := D.ParseAll(buffer[..nbuffer]);
    assert buffer[0..nbuffer] == buffer[..nbuffer];
    while rc == C.Done(C.OK)
      invariant m.Valid() && C.Inv(m.cfg, m.abs) && buffer[..] == old(buffer[..]) && offset <= nbuffer
      invariant var left := D.ParseAll(buffer[offset..nbuffer]);
                if rc == C.Done(C.OK) then
                  && offset + left.1 == all.1 && R.PutDefined(m.cfg, left.0 + more)
                  && R.Put(m.cfg, old(m.abs), all.0 + more) == R.Put(m.cfg, m.abs, left.0 + more)
                else R.Put(m.cfg, old(m.abs), all.0 + more) == (m.abs, rc)
      invariant D.Tame(buffer[offset..nbuffer])
      decreases nbuffer - offset, if rc == C.Done(C.OK) then 1 else 0
    {
      ghost var buf := buffer[offset..nbuffer];
      TameFirst(buf);
      var p := ParseAt(buffer, offset, nbuffer);
      if p.Partial? {
        D.ParseAllNone(buf);
        assert [] + more == more;
        break;
      }
      assert buf[p.used..] == buffer[offset + p.used..nbuffer];
      D.ParseAllCons(buf, p.r, p.used, buf[p.used..]);
      ConsMore(p.r, D.ParseAll(buf[p.used..]).0, more);
      R.PutCons(m.cfg, m.abs, D.ParseAll(buf).0 + more);
      rc := m.Set(p.r.key, p.r.val, 0);
      if rc == C.Done(C.OK) {
        offset := offset + p.used;
      }
    }
  }

  lemma RestStep(cfg: Config, s: C.Cache, kept: Bytes, rest: Bytes, n: nat, buf: Bytes)
    requires C.Inv(cfg, s) && |kept| <= D.BUFFER_SIZE
    requires n == Min(D.BUFFER_SIZE - |kept|, |rest|) > 0 && buf == kept + rest[..n]
    requires Loadable(cfg, kept, rest)
    ensures |buf| <= D.BUFFER_SIZE && D.Tame(buf)
    ensures D.ParseAll(buf).1 == 0 ==> D.ParseAll(buf).0 == [] && LoadRest(cfg, s, kept, rest) == (s, C.Done(C.ESize))
    ensures D.ParseAll(buf).1 > 0 ==>
              var (rs, used) := D.ParseAll(buf);
              var (more, outcome) := D.LoadFrom(if used == |buf| then buf else buf[used..], rest[n..], D.BUFFER_SIZE);
              && R.PutDefined(cfg, rs + more) && !outcome.Undefined?
              && LoadRest(cfg, s, kept, rest) == Ended(R.Put(cfg, s, rs + more), outcome)
  {
    hide D.ParseAll, D.Tame, C.Inv, C.Set;
  }

  /** fread behind the first offset bytes. */
  method Fread(buffer: array<byte>, offset: nat, file: Bytes, pos: nat) returns (n: nat)
    requires offset <= buffer.Length && pos <= |file|
    modifies buffer
    ensures n == Min(buffer.Length - offset, |file| - pos)
    ensures buffer[..offset + n] == old(buffer[..offset]) + file[pos..pos + n]
  {
    n := Min(buffer.Length - offset, |file| - pos);
    forall i | 0 <= i < n { buffer[offset + i] := file[pos + i]; }
  }

  /** memmove of what is left to the front. */
  method MoveDown(buffer: array<byte>, from: nat, to: nat)
    requires from <= to <= buffer.Length
    modifies buffer
    ensures buffer[..to - from] == old(buffer[from..to])
  {
    forall i | 0 <= i < to - from { buffer[i] := buffer[from + i]; }
  }

  lemma RestEnd(cfg: Config, s: C.Cache, kept: Bytes, rest: Bytes)
    requires C.Inv(cfg, s) && |kept| <= D.BUFFER_SIZE && Min(D.BUFFER_SIZE - |kept|, |rest|) == 0
    requires Loadable(cfg, kept, rest)
    ensures LoadRest(cfg, s, kept, rest) == (s, C.Done(C.OK))
  {
    hide C.Inv;
  }

  lemma RestGoesOn(cfg: Config, s: C.Cache, kept: Bytes, rest: Bytes, rs: seq<D.Record>, outcome: D.Outcome)
    requires C.Inv(cfg, s) && |kept| <= D.BUFFER_SIZE && (rs, outcome) == D.LoadFrom(kept, rest, D.BUFFER_SIZE)
    requires R.PutDefined(cfg, rs) && !outcome.Undefined?
    ensures Loadable(cfg, kept, rest)
    ensures Ended(R.Put(cfg, s, rs), outcome) == LoadRest(cfg, s, kept, rest)
  {
  }

  lemma LoadIsRest(cfg: Config, s: C.Cache, kept: Bytes, file: Bytes)
    requires C.Inv(cfg, s) && R.LoadDefined(cfg, file) && kept == []
    ensures Loadable(cfg, kept, file)
    ensures LoadRest(cfg, s, kept, file) == R.Load(cfg, s, file)
  {
    hide C.Inv, D.LoadFrom;
  }

  lemma PutNothing(cfg: Config, s: C.Cache)
    requires C.Inv(cfg, s)
    ensures var none: seq<D.Record> := [];
            none + none == none && R.PutDefined(cfg, none) && R.Put(cfg, s, none) == (s, C.Done(C.OK))
  {
    hide C.Inv;
  }

  lemma TakeRest(file: Bytes, pos: nat, n: nat)
    requires pos + n <= |file|
    ensures file[pos..][..n] == file[pos..pos + n] && file[pos..][n..] == file[pos + n..]
  {
  }

  /** One turn of the outer loop, after the buffer has been filled up to nbuffer. */
  method Turn(m: Shmc, buffer: array<byte>, nbuffer: nat, ghost kept: Bytes, ghost rest: Bytes, ghost n: nat)
    returns (offset: nat, rc: C.Reply)
    requires nbuffer <= buffer.Length == D.BUFFER_SIZE && Elsewhere(m, buffer)
    requires |kept| <= D.BUFFER_SIZE && n == Min(D.BUFFER_SIZE - |kept|, |rest|) > 0
    requires buffer[..nbuffer] == kept + rest[..n]
    requires C.Inv(m.cfg, m.abs) && Loadable(m.cfg, kept, rest) && m.Valid()
    modifies m.hnext, m.buckets, m.next, m.prev, m.heads, m.tails, m.slabs, m.meta, m.raw
    modifies m`memUsed, m`nitems, m`g, m`abs
    modifies buffer
    ensures m.Valid() && offset <= D.BUFFER_SIZE
    ensures rc != C.Done(C.OK) ==> LoadRest(m.cfg, old(m.abs), kept, rest) == (m.abs, rc)
    ensures rc == C.Done(C.OK) ==>
              && Loadable(m.cfg, buffer[..offset], rest[n..])
              && LoadRest(m.cfg, old(m.abs), kept, rest) == LoadRest(m.cfg, m.abs, buffer[..offset], rest[n..])
  {
    hide C.Inv, Shmc.Good, D.ParseAll, D.Tame, D.LoadFrom, Loadable, R.Put, R.PutDefined, C.Set, Config.Valid, LoadRest;
    ghost var buf := buffer[..nbuffer];
    R.InvParts(m.cfg, m.abs);
    RestStep(m.cfg, m.abs, kept, rest, n, buf);
    ghost var used := D.ParseAll(buf).1;
    ghost var next := if used == |buf| then buf else buf[used..];
    ghost var (more, outcome) := if used == 0 then ([], D.Complete) else D.LoadFrom(next, rest[n..], D.BUFFER_SIZE);
    if used == 0 { PutNothing(m.cfg, m.abs); }
    offset, rc := Drain(m, buffer, nbuffer, more);
    if used == 0 { PutNothing(m.cfg, m.abs); }
    if rc == C.Done(C.OK) {
      if offset == 0 {
        rc := C.Done(C.ESize);
      } else {
        if nbuffer != offset {
          MoveDown(buffer, offset, nbuffer);
          offset := nbuffer - offset;
        }
        assert buffer[..offset] == next;
        RestGoesOn(m.cfg, m.abs, next, rest[n..], more, outcome);
      }
    }
  }

  /** shmc_load_nolock on a file with that content. */
  method Load(m: Shmc, file: Bytes) returns (rc: C.Reply)
    requires C.Inv(m.cfg, m.abs) && R.LoadDefined(m.cfg, file) && m.Valid()
    modifies m.hnext, m.buckets, m.next, m.prev, m.heads, m.tails, m.slabs, m.meta, m.raw
    modifies m`memUsed, m`nitems, m`g, m`abs
    ensures m.Valid()
    ensures (m.abs, rc) == R.Load(m.cfg, old(m.abs), file)
  {
    hide C.Inv, Shmc.Good, D.ParseAll, D.Tame, D.LoadFrom, Loadable, R.Put, R.PutDefined, R.LoadDefined, R.Load, C.Set,
         Config.Valid, LoadRest;
    var buffer := new byte[D.BUFFER_SIZE];
    rc := C.Done(C.OK);
    var pos: nat, offset: nat := 0, 0;
    R.InvParts(m.cfg, m.abs);
    assert buffer[..0] == [] && file[0..] == file;
    LoadIsRest(m.cfg, m.abs, buffer[..0], file[0..]);
    while true
      invariant buffer.Length == D.BUFFER_SIZE && Elsewhere(m, buffer) && m.cfg.Valid()
      invariant m.Valid() && C.Inv(m.cfg, m.abs) && offset <= D.BUFFER_SIZE && pos <= |file| && rc == C.Done(C.OK)
      invariant Loadable(m.cfg, buffer[..offset], file[pos..])
      invariant LoadRest(m.cfg, m.abs, buffer[..offset], file[pos..]) == R.Load(m.cfg, old(m.abs), file)
      decreases |file| - pos
    {
      ghost var kept, rest := buffer[..offset], file[pos..];
      var nread := Fread(buffer, offset, file, pos);
      TakeRest(file, pos, nread);
      if nread == 0 {
        RestEnd(m.cfg, m.abs, kept, rest);
        break;
      }
      pos := pos + nread;
      offset, rc := Turn(m, buffer, nread + offset, kept, rest, nread);
      if rc != C.Done(C.OK) { break; }
    }
  }

  /** A store is dumped and the file loaded into a new one with the same configuration.  The load succeeds with the
      same keys and values exactly when the store is dumpable; then every recency list of the new store is that of
      the old one turned round. */
  method Copy(m: Shmc, base: nat) returns (copy: Shmc, rc: C.Reply)
    requires C.Inv(m.cfg, m.abs) && Conservation.FirstPagesFit(m.cfg) && base > 0 && R.LengthsFit(m.abs)
    requires R.LoadDefined(m.cfg, D.File(R.Records(m.cfg, m.abs, 0))) && m.Valid()
    ensures fresh(copy) && copy.cfg == m.cfg && copy.Valid()
    ensures rc == C.Done(C.OK) && R.SameContents(m.abs, copy.abs) <==> R.Dumpable(m.cfg, m.abs)
    ensures R.Dumpable(m.cfg, m.abs) ==> R.Reproduces(m.cfg, m.abs, copy.abs)
  {
    hide C.Inv, Shmc.Good, R.LoadDefined, R.Load, R.Dumpable, R.SameContents, R.Reproduces, R.Records, D.File,
         Conservation.FirstPagesFit, Config.Valid;
    R.InvParts(m.cfg, m.abs);
    R.ReloadIff(m.cfg, m.abs);
    var file := Dump(m);
    copy := new Shmc(m.cfg, base);
    rc := Load(copy, file);
  }
}
