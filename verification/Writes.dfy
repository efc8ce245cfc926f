/** The sending half of a memcached connection (netshell/mcshell.cc): which bytes of a reply have gone out
    after any sequence of partial writes. */
module Writes {
  import opened Basics
  import opened Connection

  /** \r\nEND\r\n */
  const TRAILER: Bytes := [13, 10, 69, 78, 68, 13, 10]

  /** struct iovec over the buffer it points into. */
  datatype Iov = Iov(buf: Bytes, base: nat, len: nat)

  predicate InBuffer(v: Iov) {
    v.base + v.len <= |v.buf|
  }

  ghost predicate AllIn(vs: seq<Iov>) {
    forall i :: 0 <= i < |vs| ==> InBuffer(vs[i])
  }

  function Piece(v: Iov): (r: Bytes)
    requires InBuffer(v)
    ensures |r| == v.len
  {
    v.buf[v.base..v.base + v.len]
  }

  ghost function Data(vs: seq<Iov>): (r: Bytes)
    requires AllIn(vs)
  {
    if vs == [] then [] else assert InBuffer(vs[0]); Piece(vs[0]) + Data(vs[1..])
  }

  function Total(vs: seq<Iov>): nat {
    if vs == [] then 0 else vs[0].len + Total(vs[1..])
  }

  /** How much a socket takes before it first refuses: a call may take any positive number of bytes. */
  function Taken(script: seq<nat>): nat {
    if script == [] || script[0] == 0 then 0 else script[0] + Taken(script[1..])
  }

  lemma {:induction false} DataLength(vs: seq<Iov>)
    requires AllIn(vs)
    ensures |Data(vs)| == Total(vs)
  {
    if vs != [] { DataLength(vs[1..]); }
  }

  /** What the accounting loop makes of the vector when nn bytes went out. */
  function Advance(vs: seq<Iov>, nn: nat): (r: seq<Iov>)
    ensures |r| == |vs|
  {
    if vs == [] then []
    else if vs[0].len >= nn then [Iov(vs[0].buf, vs[0].base + nn, vs[0].len - nn)] + vs[1..]
    else [vs[0].(len := 0)] + Advance(vs[1..], nn - vs[0].len)
  }

  /** The vector then covers exactly the bytes that are still to go. */
  lemma {:induction false} AdvanceDrops(vs: seq<Iov>, nn: nat)
    requires AllIn(vs) && nn <= Total(vs)
    ensures AllIn(Advance(vs, nn)) && nn <= |Data(vs)| && Data(Advance(vs, nn)) == Data(vs)[nn..]
    ensures Total(Advance(vs, nn)) == Total(vs) - nn
    decreases |vs|
  {
    DataLength(vs);
    if vs != [] {
      var v, rest := vs[0], vs[1..];
      assert InBuffer(v) && AllIn(rest);
      if v.len >= nn {
        AdvanceFirst(v, rest, nn);
      } else {
        AdvanceDrops(rest, nn - v.len);
        AdvanceLater(v, rest, nn);
      }
      assert vs == [v] + rest;
    }
  }

  lemma AdvanceFirst(v: Iov, rest: seq<Iov>, nn: nat)
    requires InBuffer(v) && AllIn(rest) && nn <= v.len
    ensures var vs := [v] + rest;
            AllIn(vs) && AllIn(Advance(vs, nn)) && nn <= |Data(vs)| && Data(Advance(vs, nn)) == Data(vs)[nn..]
            && Total(Advance(vs, nn)) == Total(vs) - nn
  {
    var vs, w := [v] + rest, Iov(v.buf, v.base + nn, v.len - nn);
    assert Advance(vs, nn) == [w] + rest;
    assert ([w] + rest)[1..] == rest && vs[1..] == rest;
    assert Piece(w) == Piece(v)[nn..];
    hide Piece;
    assert Piece(v)[nn..] + Data(rest) == (Piece(v) + Data(rest))[nn..];
  }

  lemma AdvanceLater(v: Iov, rest: seq<Iov>, nn: nat)
    requires InBuffer(v) && AllIn(rest) && v.len < nn <= v.len + Total(rest)
    requires var m := nn - v.len;
             AllIn(Advance(rest, m)) && m <= |Data(rest)| && Data(Advance(rest, m)) == Data(rest)[m..]
             && Total(Advance(rest, m)) == Total(rest) - m
    ensures var vs := [v] + rest;
            AllIn(vs) && AllIn(Advance(vs, nn)) && nn <= |Data(vs)| && Data(Advance(vs, nn)) == Data(vs)[nn..]
            && Total(Advance(vs, nn)) == Total(vs) - nn
  {
    var vs, m, w := [v] + rest, nn - v.len, v.(len := 0);
    assert vs[1..] == rest;
    assert Advance(vs, nn) == [w] + Advance(rest, m);
    assert ([w] + Advance(rest, m))[1..] == Advance(rest, m);
    assert Piece(w) == [];
    hide Piece, Advance;
    assert [] + Data(rest)[m..] == (Piece(v) + Data(rest))[nn..];
  }

  lemma {:induction false} TotalZero(vs: seq<Iov>)
    ensures Total(vs) == 0 <==> forall i :: 0 <= i < |vs| ==> vs[i].len == 0
  {
    if vs != [] {
      TotalZero(vs[1..]);
      assert forall i :: 1 <= i < |vs| ==> vs[i] == vs[1..][i - 1];
    }
  }

  lemma AdvanceAt(vs: seq<Iov>, i: nat, nn: nat)
    requires i < |vs|
    ensures Total(vs[i..]) == vs[i].len + Total(vs[i + 1..])
    ensures vs[i].len >= nn ==> Advance(vs[i..], nn) == [Iov(vs[i].buf, vs[i].base + nn, vs[i].len - nn)] + vs[i + 1..]
    ensures vs[i].len < nn ==> Advance(vs[i..], nn) == [vs[i].(len := 0)] + Advance(vs[i + 1..], nn - vs[i].len)
  {
    assert vs[i..][0] == vs[i] && vs[i..][1..] == vs[i + 1..];
  }

  function Entry(v: Iov, nn: nat): Iov {
    if v.len >= nn then Iov(v.buf, v.base + nn, v.len - nn) else v.(len := 0)
  }

  /** The accounting loop after i entries, with nn bytes still to be accounted for. */
  ghost predicate Progress(was: seq<Iov>, now: seq<Iov>, i: nat, nn: nat, nsucc: nat, sent: nat) {
    && i <= |was| == |now| && now[i..] == was[i..]
    && (forall j :: 0 <= j < i - 1 ==> now[j].len == 0)
    && (if nn > 0 then
          && nn <= Total(was[i..]) && nsucc == i && (i > 0 ==> now[i - 1].len == 0)
          && Advance(was, sent) == now[..i] + Advance(was[i..], nn)
        else
          && i > 0 && nsucc == (if now[i - 1].len == 0 then i else i - 1)
          && Advance(was, sent) == now)
  }

  lemma ProgressStart(was: seq<Iov>, sent: nat)
    requires 0 < sent <= Total(was)
    ensures Progress(was, was, 0, sent, 0, sent)
  {
    assert was[0..] == was && was[..0] == [];
  }

  lemma ProgressStep(was: seq<Iov>, now: seq<Iov>, i: nat, nn: nat, nsucc: nat, sent: nat)
    requires Progress(was, now, i, nn, nsucc, sent) && i < |was| && nn > 0
    ensures now[i] == was[i]
    ensures var v := Entry(now[i], nn);
            Progress(was, now[i := v], i + 1, if now[i].len >= nn then 0 else nn - now[i].len,
                     if v.len == 0 then nsucc + 1 else nsucc, sent)
  {
    hide Advance, Total;
    assert now[i..][0] == was[i..][0] && now[i..][1..] == was[i..][1..];
    assert now[i + 1..] == was[i + 1..];
    AdvanceAt(was, i, nn);
    var v := Entry(now[i], nn);
    var now' := now[i := v];
    assert now'[..i + 1] == now[..i] + [v] && now'[i + 1..] == now[i + 1..];
    if now[i].len >= nn {
      assert now' == now[..i] + ([v] + was[i + 1..]);
    } else {
      assert now[..i] + ([v] + Advance(was[i + 1..], nn - now[i].len))
          == now'[..i + 1] + Advance(was[i + 1..], nn - now[i].len);
    }
  }

  lemma ProgressEnd(was: seq<Iov>, now: seq<Iov>, i: nat, nn: nat, nsucc: nat, sent: nat)
    requires Progress(was, now, i, nn, nsucc, sent) && (i == |was| || nn == 0) && was != [] && was[|was| - 1].len > 0
    ensures now == Advance(was, sent)
    ensures nsucc == |was| <==> Total(now) == 0
  {
    hide Advance;
    TotalZero(now);
    if i < |was| {
      assert now[i..][|was| - 1 - i] == was[i..][|was| - 1 - i];
    }
  }

  /** The accounting loop after one writev. */
  method Account(iov: array<Iov>, niov: nat, sent: nat) returns (nsucc: nat)
    requires 0 < niov <= iov.Length && 0 < sent <= Total(iov[..niov]) && iov[niov - 1].len > 0
    modifies iov
    ensures iov[..niov] == Advance(old(iov[..niov]), sent)
    ensures nsucc == niov <==> Total(iov[..niov]) == 0
  {
    hide Advance, Total, Progress;
    var nn: nat := sent;
    nsucc := 0;
    ghost var was := iov[..niov];
    ProgressStart(was, sent);
    var i: nat := 0;
    while i < niov && nn > 0
      invariant i <= niov && Progress(was, iov[..niov], i, nn, nsucc, sent)
    {
      ProgressStep(was, iov[..niov], i, nn, nsucc, sent);
      ghost var now := iov[..niov];
      if iov[i].len >= nn {
        iov[i] := Iov(iov[i].buf, iov[i].base + nn, iov[i].len - nn);
        nn := 0;
      } else {
        nn := nn - iov[i].len;
        iov[i] := iov[i].(len := 0);
      }
      assert iov[..niov] == now[i := iov[i]];
      if iov[i].len == 0 { nsucc := nsucc + 1; }
      i := i + 1;
    }
    ProgressEnd(was, iov[..niov], i, nn, nsucc, sent);
  }

  /** Entries end where their buffers end, and one that has lost bytes has only finished ones before it. */
  ghost predicate Ordered(vs: seq<Iov>) {
    && (forall i :: 0 <= i < |vs| ==>
          vs[i].len <= |vs[i].buf| && (vs[i].len > 0 ==> vs[i].base + vs[i].len == |vs[i].buf|))
    && (forall i :: 0 <= i < |vs| ==> InBuffer(vs[i]))
    && (forall i, j :: 0 <= i < j < |vs| && vs[j].len < |vs[j].buf| ==> vs[i].len == 0)
  }

  ghost predicate SameBuffers(vs: seq<Iov>, ws: seq<Iov>) {
    |vs| == |ws| && forall i :: 0 <= i < |vs| ==> vs[i].buf == ws[i].buf
  }

  lemma {:induction false} AdvanceOrdered(vs: seq<Iov>, nn: nat)
    requires Ordered(vs) && 0 < nn <= Total(vs)
    ensures Ordered(Advance(vs, nn)) && SameBuffers(vs, Advance(vs, nn))
    decreases |vs|
  {
    hide Ordered;
    if vs != [] {
      var v, rest := vs[0], vs[1..];
      TailOrdered(vs);
      if v.len < nn {
        AdvanceOrdered(rest, nn - v.len);
        hide Advance;
        ConsOrdered(v.(len := 0), Advance(rest, nn - v.len));
      } else {
        FirstOrdered(vs, nn);
      }
    }
  }

  lemma TailOrdered(vs: seq<Iov>)
    requires Ordered(vs) && vs != []
    ensures Ordered(vs[1..]) && InBuffer(vs[0])
  {
  }

  lemma FirstOrdered(vs: seq<Iov>, nn: nat)
    requires Ordered(vs) && vs != [] && 0 < nn <= vs[0].len
    ensures Ordered([Iov(vs[0].buf, vs[0].base + nn, vs[0].len - nn)] + vs[1..])
  {
    var ws := [Iov(vs[0].buf, vs[0].base + nn, vs[0].len - nn)] + vs[1..];
    assert forall i :: 0 < i < |vs| ==> ws[i] == vs[i];
  }

  lemma ConsOrdered(v: Iov, more: seq<Iov>)
    requires Ordered(more) && v.len == 0 && InBuffer(v)
    ensures Ordered([v] + more)
  {
    var vs := [v] + more;
    assert forall i :: 0 < i < |vs| ==> vs[i] == more[i - 1];
  }

  /** writev on a socket that takes at most script[k] bytes now, and nothing if that is 0. */
  method Writev(iov: array<Iov>, niov: nat, script: seq<nat>, k: nat) returns (nn: int)
    requires niov <= iov.Length
    ensures nn
         == if k < |script| && script[k] > 0 && Total(iov[..niov]) > 0 then Min(script[k], Total(iov[..niov])) else -1
  {
    var total := 0;
    for i := niov downto 0
      invariant total == Total(iov[i..niov])
    {
      assert iov[i..niov][1..] == iov[i + 1..niov];
      total := total + iov[i].len;
    }
    assert iov[0..niov] == iov[..niov];
    nn := if k < |script| && script[k] > 0 && total > 0 then Min(script[k], total) else -1;
  }

  /** The loop of onWrite: so far bytes have gone out. */
  ghost predicate Sending(vs: seq<Iov>, todo: Bytes, script: seq<nat>, k: nat, soFar: nat) {
    && Ordered(vs) && AllIn(vs) && soFar <= |todo| && Data(vs) == todo[soFar..] && Total(vs) == |todo| - soFar
    && k <= |script| && soFar + Taken(script[k..]) == Taken(script)
  }

  /** One writev that takes nn bytes, and the accounting after it. */
  lemma SendingStep(vs: seq<Iov>, todo: Bytes, script: seq<nat>, k: nat, soFar: nat, nn: nat)
    requires Sending(vs, todo, script, k, soFar) && k < |script| && script[k] > 0
    requires nn == Min(script[k], Total(vs)) > 0
    ensures var ws := Advance(vs, nn);
            && SameBuffers(vs, ws) && Ordered(ws) && AllIn(ws) && Data(ws) == todo[soFar + nn..]
            && Total(ws) == |todo| - (soFar + nn)
            && (Total(ws) > 0 ==> Sending(ws, todo, script, k + 1, soFar + nn))
            && (Total(ws) == 0 ==> Taken(script) >= |todo|)
  {
    AdvanceDrops(vs, nn);
    AdvanceOrdered(vs, nn);
    assert script[k..][1..] == script[k + 1..];
    assert Taken(script[k..]) == script[k] + Taken(script[k + 1..]);
    hide Advance, Total, Data, Ordered, AllIn, Taken;
  }

  lemma SendingStuck(vs: seq<Iov>, todo: Bytes, script: seq<nat>, k: nat, soFar: nat)
    requires Sending(vs, todo, script, k, soFar) && (k == |script| || script[k] == 0)
    ensures soFar == Taken(script)
  {
    assert Taken(script[k..]) == 0;
  }

  lemma LastSent(vs: seq<Iov>)
    requires Ordered(vs) && vs != [] && vs[|vs| - 1].len == 0 && forall i :: 0 < i < |vs| ==> vs[i].buf != []
    ensures Total(vs) == 0
  {
    TotalZero(vs);
    hide Total;
    forall i | 0 <= i < |vs| ensures vs[i].len == 0 {
      if i < |vs| - 1 { OrderedLast(vs, i); }
    }
  }

  /** As long as bytes are to go, some are in the last buffer. */
  lemma LastUnsent(vs: seq<Iov>)
    requires Ordered(vs) && Total(vs) > 0 && forall i :: 0 < i < |vs| ==> vs[i].buf != []
    ensures vs != [] && vs[|vs| - 1].len > 0
  {
    hide Ordered;
    if vs != [] && vs[|vs| - 1].len == 0 { LastSent(vs); }
  }

  lemma OrderedLast(vs: seq<Iov>, i: nat)
    requires Ordered(vs) && i < |vs| - 1 && vs[|vs| - 1].len < |vs[|vs| - 1].buf|
    ensures vs[i].len == 0
  {
  }

  /** The fields of a connection that onWrite uses.  A reply without a body has an empty one and no trailer. */
  class Sender {
    var state: ConnState
    var resHeader: Bytes
    var resHeaderBytes: nat
    var resBody: Bytes
    var resBodyBytes: nat
    var resTailBytes: nat

    /** Bytes go out in order. */
    ghost predicate Valid()
      reads this
    {
      && resHeaderBytes <= |resHeader| && resBodyBytes <= |resBody| && resTailBytes <= |TRAILER|
      && (resBodyBytes > 0 ==> resHeaderBytes == |resHeader|)
      && (resTailBytes > 0 ==> resBodyBytes == |resBody| && resBody != [])
    }

    /** What is still to go out. */
    ghost function Pending(): Bytes
      reads this
      requires Valid()
    {
      if resBody == [] then resHeader[resHeaderBytes..]
      else resHeader[resHeaderBytes..] + (resBody[resBodyBytes..] + TRAILER[resTailBytes..])
    }

    constructor (header: Bytes, body: Bytes)
      ensures Valid() && state == Write
      ensures Pending() == if body == [] then header else header + (body + TRAILER)
    {
      state := Write;
      resHeader, resHeaderBytes, resBody, resBodyBytes, resTailBytes := header, 0, body, 0, 0;
    }

    /** The vector onWrite sets up. */
    method Vector(iov: array<Iov>) returns (niov: nat)
      requires Valid() && iov.Length == 3
      modifies iov
      ensures niov == if resBody != [] then 3 else 1
      ensures iov[0].buf == resHeader && (niov == 3 ==> iov[1].buf == resBody && iov[2].buf == TRAILER)
      ensures Ordered(iov[..niov]) && AllIn(iov[..niov]) && Data(iov[..niov]) == Pending()
    {
      iov[0] := Iov(resHeader, resHeaderBytes, |resHeader| - resHeaderBytes);
      niov := 1;
      ghost var h, b, t := resHeader[resHeaderBytes..], resBody[resBodyBytes..], TRAILER[resTailBytes..];
      if resBody != [] {
        iov[1] := Iov(resBody, resBodyBytes, |resBody| - resBodyBytes);
        iov[2] := Iov(TRAILER, resTailBytes, |TRAILER| - resTailBytes);
        niov := 3;
        assert iov[..3] == [iov[0], iov[1], iov[2]];
        ThreePieces(iov[0], iov[1], iov[2]);
        assert Piece(iov[0]) == h && Piece(iov[1]) == b && Piece(iov[2]) == t;
      } else {
        assert iov[..1] == [iov[0]];
        OnePiece(iov[0]);
      }
    }

    /** onWrite against a socket that takes script[0] bytes, then script[1], and so on, as far as there are
        any to take, and refuses with errno after that or at a 0. */
    method OnWrite(script: seq<nat>, errno: int, eventOk: bool) returns (dm: DmState, all: bool)
      requires Valid() && Pending() != []
      modifies this
      ensures Valid()
      ensures all <==> Taken(script) >= |old(Pending())|
      ensures all ==> resBody == [] && state == (if eventOk then Read else Close) && (dm.DmStop? <==> eventOk)
      ensures !all ==> Pending() == old(Pending())[Taken(script)..]
      ensures !all ==> if errno == -1 then dm == DmStop && state == old(state) else dm == DmGoOn && state == Close
    {
      hide Advance, Data, Ordered, AllIn, Taken, Sending, Total, Piece, Valid, Pending;
      var iov := new Iov[3](_ => Iov([], 0, 0));
      var niov := Vector(iov);
      ghost var todo := Pending();
      SendingStart(iov[..niov], todo, script);
      var nsucc: nat;
      ghost var k: nat, soFar: nat;
      nsucc, k, soFar := SendLoop(iov, niov, script, todo);
      all := nsucc == niov;
      if nsucc == niov {
        dm := Finish(eventOk);
      } else {
        dm := Suspend(iov, niov, errno, todo, script, k, soFar);
      }
    }

    /** Everything is out. */
    method Finish(eventOk: bool) returns (dm: DmState)
      requires Valid()
      modifies this
      ensures Valid() && resBody == [] && state == (if eventOk then Read else Close) && (dm.DmStop? <==> eventOk)
    {
      resBody, resBodyBytes, resTailBytes := [], 0, 0;
      if eventOk {
        state := Read;
        dm := DmStop;
      } else {
        state := Close;
        dm := DmGoOn;
      }
    }

    /** The socket has refused. */
    method Suspend(iov: array<Iov>, niov: nat, errno: int, ghost todo: Bytes, ghost script: seq<nat>, ghost k: nat,
                   ghost soFar: nat)
      returns (dm: DmState)
      requires iov.Length == 3 && niov == (if resBody != [] then 3 else 1) && Valid()
      requires iov[0].buf == resHeader && (niov == 3 ==> iov[1].buf == resBody && iov[2].buf == TRAILER)
      requires Sending(iov[..niov], todo, script, k, soFar) && soFar == Taken(script)
      modifies this
      ensures Valid() && Taken(script) <= |todo| && Pending() == todo[Taken(script)..]
      ensures if errno == -1 then dm == DmStop && state == old(state) else dm == DmGoOn && state == Close
    {
      hide Advance, Data, Ordered, AllIn, Taken, Sending, Total, Piece;
      StoreCounts(iov, niov, todo, script, k, soFar);
      if errno == -1 {
        dm := DmStop;
      } else {
        state := Close;
        dm := DmGoOn;
      }
    }

    /** The byte counts are stored for the next call. */
    method StoreCounts(iov: array<Iov>, niov: nat, ghost todo: Bytes, ghost script: seq<nat>, ghost k: nat,
                       ghost soFar: nat)
      requires iov.Length == 3 && niov == (if resBody != [] then 3 else 1)
      requires iov[0].buf == resHeader && (niov == 3 ==> iov[1].buf == resBody && iov[2].buf == TRAILER)
      requires resBody == [] ==> resBodyBytes == 0 && resTailBytes == 0
      requires Sending(iov[..niov], todo, script, k, soFar) && soFar == Taken(script)
      modifies this
      ensures Valid() && Taken(script) <= |todo| && Pending() == todo[Taken(script)..]
      ensures state == old(state)
    {
      hide Advance, Data, Ordered, AllIn, Taken, Sending, Total, Piece;
      if resBody != [] {
        assert iov[..niov] == [iov[0], iov[1], iov[2]];
        ThreeCounts(iov[0], iov[1], iov[2], todo, script, k, soFar);
      } else {
        assert iov[..niov] == [iov[0]];
        OneCount(iov[0], todo, script, k, soFar);
      }
      resHeaderBytes := |resHeader| - iov[0].len;
      if resBody != [] {
        resBodyBytes := |resBody| - iov[1].len;
        resTailBytes := |TRAILER| - iov[2].len;
      }
    }
  }

  /** EAGAIN, what a refused write leaves in errno. */
  const EAGAIN := 11

  /** A reply of eight bytes of which the socket takes three at once: the connection is closed with five bytes
      unsent. */
  method RefusedWriteCloses() returns (c: Sender, dm: DmState, all: bool)
    ensures c.Valid() && !all && dm == DmGoOn && c.state == Close && c.Pending() == [82, 69, 68, 13, 10]
  {
    var stored: Bytes := [83, 84, 79, 82, 69, 68, 13, 10];
    c := new Sender(stored, []);
    dm, all := c.OnWrite([3], EAGAIN, true);
  }

  /** "VALUE k 0 1" and the value "a": what is to go out is both, and the end of a get reply. */
  method GetReply() returns (c: Sender)
    ensures c.Valid()
    ensures c.Pending() == [86, 65, 76, 85, 69, 32, 107, 32, 48, 32, 49, 13, 10, 97, 13, 10, 69, 78, 68, 13, 10]
  {
    c := new Sender([86, 65, 76, 85, 69, 32, 107, 32, 48, 32, 49, 13, 10], [97]);
  }

  /** The writev loop of onWrite. */
  method SendLoop(iov: array<Iov>, niov: nat, script: seq<nat>, ghost todo: Bytes)
    returns (nsucc: nat, ghost k: nat, ghost soFar: nat)
    requires 0 < niov <= iov.Length && Sending(iov[..niov], todo, script, 0, 0) && Total(iov[..niov]) > 0
    requires forall i :: 0 < i < niov ==> iov[i].buf != []
    modifies iov
    ensures forall i :: 0 <= i < niov ==> iov[i].buf == old(iov[i].buf)
    ensures nsucc == niov <==> Taken(script) >= |todo|
    ensures nsucc != niov ==> Sending(iov[..niov], todo, script, k, soFar) && soFar == Taken(script)
  {
    hide Advance, Data, Ordered, AllIn, Taken, Sending, Total, Piece;
    nsucc, k, soFar := 0, 0, 0;
    var turn: nat := 0;
    ghost var vs := iov[..niov];
    SendingFacts(vs, todo, script, k, soFar);
    while true
      invariant turn == k && vs == iov[..niov] && k <= |script| && Sending(vs, todo, script, k, soFar) && Total(vs) > 0
      invariant forall i :: 0 <= i < niov ==> iov[i].buf == old(iov[i].buf)
      decreases |script| - turn
    {
      nsucc := 0;
      SendingFacts(vs, todo, script, k, soFar);
      SendingLast(vs, todo, script, k, soFar);
      var nn := Writev(iov, niov, script, turn);
      if nn < 0 {
        SendingStuck(vs, todo, script, k, soFar);
        break;
      }
      SendingStep(vs, todo, script, k, soFar, nn);
      nsucc := Account(iov, niov, nn);
      BuffersKept(vs, iov[..niov]);
      soFar := soFar + nn;
      vs := iov[..niov];
      if nsucc == niov { break; }
      turn := turn + 1;
      k := k + 1;
    }
  }

  lemma SendingFacts(vs: seq<Iov>, todo: Bytes, script: seq<nat>, k: nat, soFar: nat)
    requires Sending(vs, todo, script, k, soFar)
    ensures k <= |script| && soFar <= |todo| && Total(vs) == |todo| - soFar
  {
    hide Data, Total, Ordered, AllIn, Taken;
  }

  lemma BuffersKept(vs: seq<Iov>, ws: seq<Iov>)
    requires SameBuffers(vs, ws)
    ensures forall i :: 0 <= i < |vs| ==> vs[i].buf == ws[i].buf
  {
  }

  lemma SendingLast(vs: seq<Iov>, todo: Bytes, script: seq<nat>, k: nat, soFar: nat)
    requires Sending(vs, todo, script, k, soFar) && Total(vs) > 0 && forall i :: 0 < i < |vs| ==> vs[i].buf != []
    ensures vs != [] && vs[|vs| - 1].len > 0
  {
    LastUnsent(vs);
  }

  lemma SendingData(vs: seq<Iov>, todo: Bytes, script: seq<nat>, k: nat, soFar: nat)
    requires Sending(vs, todo, script, k, soFar)
    ensures Ordered(vs) && AllIn(vs) && soFar <= |todo| && Data(vs) == todo[soFar..]
  {
    hide Data, Total, Ordered, AllIn, Taken;
  }

  lemma PieceIsEnd(vs: seq<Iov>, i: nat)
    requires Ordered(vs) && i < |vs|
    ensures InBuffer(vs[i]) && vs[i].len <= |vs[i].buf| && Piece(vs[i]) == vs[i].buf[|vs[i].buf| - vs[i].len..]
  {
  }

  lemma DoneBefore(vs: seq<Iov>, i: nat, j: nat)
    requires Ordered(vs) && i < j < |vs| && vs[j].len < |vs[j].buf|
    ensures vs[i].len == 0
  {
  }

  /** What stays to be sent when the socket refuses, from the byte counts that onWrite stores: a header. */
  lemma OneCount(a: Iov, todo: Bytes, script: seq<nat>, k: nat, soFar: nat)
    requires Sending([a], todo, script, k, soFar)
    ensures soFar <= |todo| && a.len <= |a.buf| && todo[soFar..] == a.buf[|a.buf| - a.len..]
  {
    SendingData([a], todo, script, k, soFar);
    hide Data, Total, Ordered, Piece, Taken, Sending, AllIn;
    PieceIsEnd([a], 0);
    OnePiece(a);
  }

  /** Or a header, a body and the trailer. */
  lemma ThreeCounts(a: Iov, b: Iov, c: Iov, todo: Bytes, script: seq<nat>, k: nat, soFar: nat)
    requires Sending([a, b, c], todo, script, k, soFar)
    ensures soFar <= |todo| && a.len <= |a.buf| && b.len <= |b.buf| && c.len <= |c.buf|
    ensures (b.len < |b.buf| ==> a.len == 0) && (c.len < |c.buf| ==> b.len == 0)
    ensures todo[soFar..] == a.buf[|a.buf| - a.len..] + (b.buf[|b.buf| - b.len..] + c.buf[|c.buf| - c.len..])
  {
    var vs := [a, b, c];
    SendingData(vs, todo, script, k, soFar);
    hide Data, Total, Ordered, Piece, Taken, Sending, AllIn;
    PieceIsEnd(vs, 0);
    PieceIsEnd(vs, 1);
    PieceIsEnd(vs, 2);
    if b.len < |b.buf| { DoneBefore(vs, 0, 1); }
    if c.len < |c.buf| { DoneBefore(vs, 1, 2); }
    ThreePieces(a, b, c);
  }

  lemma SendingStart(vs: seq<Iov>, todo: Bytes, script: seq<nat>)
    requires Ordered(vs) && AllIn(vs) && Data(vs) == todo && todo != []
    ensures Sending(vs, todo, script, 0, 0) && Total(vs) > 0
  {
    DataLength(vs);
    assert script[0..] == script && todo[0..] == todo;
  }

  lemma ThreePieces(a: Iov, b: Iov, c: Iov)
    requires InBuffer(a) && InBuffer(b) && InBuffer(c)
    ensures AllIn([a, b, c]) && Data([a, b, c]) == Piece(a) + (Piece(b) + Piece(c))
  {
    hide Piece;
    assert [a, b, c][1..] == [b, c] && [b, c][1..] == [c] && [c][1..] == [];
    assert Data([c]) == Piece(c) + [] == Piece(c);
    assert Data([b, c]) == Piece(b) + Data([c]);
  }

  lemma OnePiece(a: Iov)
    requires InBuffer(a)
    ensures AllIn([a]) && Data([a]) == Piece(a)
  {
    assert [a][1..] == [];
  }
}
