/** The escape-aware splitter of netshell/token.c. */
module Token {
  import opened Basics

  const BACKSLASH: byte := 92

  /** struct token_t; the value is an index into the command. */
  datatype Token = Token(value: Option<nat>, length: nat)

  datatype Span = Span(from: nat, length: nat)

  // ----- in memory

  /** The tokens found from e on, when the present one began at from and there is room for that many more, and
      where the scan ends; nothing if it runs past the end of the memory.  A backslash hides the byte behind it,
      the terminator too. */
  function ScanMemory(mem: Bytes, from: nat, e: nat, esc: bool, room: nat): Option<(seq<Span>, nat)>
    requires from <= e
    decreases |mem| - e
  {
    if e >= |mem| then None
    else if room == 0 then Some(([], e))
    else if esc then ScanMemory(mem, from, e + 1, false, room)
    else if mem[e] == SPACE then
      if from != e then Taken(Span(from, e - from), ScanMemory(mem, e + 1, e + 1, false, room - 1))
      else ScanMemory(mem, e + 1, e + 1, false, room)
    else if mem[e] == NUL then Some((if from != e then [Span(from, e - from)] else [], e))
    else ScanMemory(mem, from, e + 1, mem[e] == BACKSLASH, room)
  }

  function Taken(t: Span, more: Option<(seq<Span>, nat)>): Option<(seq<Span>, nat)> {
    if more.None? then None else Some(([t] + more.value.0, more.value.1))
  }

  /** Tokens are not empty, follow each other with at least one byte between them, and end where the scan does or
      before. */
  ghost predicate Apart(ts: seq<Span>, from: nat, r: nat) {
    && (forall i :: 0 <= i < |ts| ==> from <= ts[i].from && ts[i].length > 0 && ts[i].from + ts[i].length <= r)
    && (forall i, k :: 0 <= i < k < |ts| ==> ts[i].from + ts[i].length < ts[k].from)
  }

  lemma {:induction false} ScanApart(mem: Bytes, from: nat, e: nat, esc: bool, room: nat)
    requires from <= e && ScanMemory(mem, from, e, esc, room).Some?
    ensures var (ts, r) := ScanMemory(mem, from, e, esc, room).value;
            |ts| <= room && e <= r < |mem| && Apart(ts, from, r) && (|ts| < room ==> mem[r] == NUL)
    decreases |mem| - e
  {
    if room > 0 {
      if esc {
        ScanApart(mem, from, e + 1, false, room);
      } else if mem[e] == SPACE {
        if from != e {
          ScanApart(mem, e + 1, e + 1, false, room - 1);
          var (ts, r) := ScanMemory(mem, e + 1, e + 1, false, room - 1).value;
          ApartCons(Span(from, e - from), ts, from, e + 1, r);
        } else {
          ScanApart(mem, e + 1, e + 1, false, room);
        }
      } else if mem[e] != NUL {
        ScanApart(mem, from, e + 1, mem[e] == BACKSLASH, room);
      }
    }
  }

  lemma ApartCons(t: Span, ts: seq<Span>, from: nat, next: nat, r: nat)
    requires Apart(ts, next, r) && t.from == from && t.length > 0 && from + t.length < next <= r
    ensures Apart([t] + ts, from, r)
  {
    var all := [t] + ts;
    assert forall i :: 0 < i < |all| ==> all[i] == ts[i - 1];
  }

  // ----- what lies behind the terminator

  /** A scan that ends within its memory does not depend on what lies behind. */
  lemma {:induction false} ScanMore(mem: Bytes, behind: Bytes, from: nat, e: nat, esc: bool, room: nat)
    requires from <= e && ScanMemory(mem, from, e, esc, room).Some?
    ensures ScanMemory(mem + behind, from, e, esc, room) == ScanMemory(mem, from, e, esc, room)
    decreases |mem| - e
  {
    assert (mem + behind)[e] == mem[e];
    if room > 0 {
      if esc {
        ScanMore(mem, behind, from, e + 1, false, room);
      } else if mem[e] == SPACE {
        ScanMore(mem, behind, e + 1, e + 1, false, if from != e then room - 1 else room);
      } else if mem[e] != NUL {
        ScanMore(mem, behind, from, e + 1, mem[e] == BACKSLASH, room);
      }
    }
  }

  /** A scan that runs past the terminator of its command goes on with whatever lies there. */
  lemma {:induction false} ScanOff(line: Bytes, from: nat, e: nat, esc: bool, room: nat)
    requires from <= e <= |line| && ScanMemory(line + [NUL], from, e, esc, room).None?
    ensures var o := ScanMemory(line + [NUL] + [NUL], from, e, esc, room); o.Some? && o.value.1 == |line| + 1
    ensures var o := ScanMemory(line + [NUL] + [120, NUL], from, e, esc, room); o.Some? && o.value.1 == |line| + 2
    decreases |line| - e
  {
    var mem := line + [NUL];
    assert (mem + [NUL])[e] == (mem + [120, NUL])[e] == mem[e];
    if e < |line| {
      if esc {
        ScanOff(line, from, e + 1, false, room);
      } else if mem[e] == SPACE {
        ScanOff(line, e + 1, e + 1, false, if from != e then room - 1 else room);
      } else {
        ScanOff(line, from, e + 1, mem[e] == BACKSLASH, room);
      }
    } else {
      assert ScanMemory(mem + [120, NUL], from, e + 1, false, room)
          == ScanMemory(mem + [120, NUL], from, e + 2, false, room);
    }
  }

  /** A command is tokenized in the same way wherever it stands. */
  ghost predicate Standalone(line: Bytes, room: nat) {
    forall a, b :: SameBehind(line, room, a, b)
  }

  predicate SameBehind(line: Bytes, room: nat, a: Bytes, b: Bytes) {
    ScanMemory(line + [NUL] + a, 0, 0, false, room) == ScanMemory(line + [NUL] + b, 0, 0, false, room)
  }

  /** The tokens depend on the command alone exactly when the scan ends at its terminator or before. */
  lemma StandaloneIff(line: Bytes, room: nat)
    ensures Standalone(line, room) <==> ScanMemory(line + [NUL], 0, 0, false, room).Some?
  {
    if ScanMemory(line + [NUL], 0, 0, false, room).Some? {
      forall a, b ensures SameBehind(line, room, a, b) {
        ScanMore(line + [NUL], a, 0, 0, false, room);
        ScanMore(line + [NUL], b, 0, 0, false, room);
      }
    } else {
      ScanOff(line, 0, 0, false, room);
      assert !SameBehind(line, room, [NUL], [120, NUL]);
    }
  }

  /** Its last byte is a backslash that is not hidden itself, and no NUL before it ends the command. */
  predicate Open(s: Bytes, esc: bool) {
    if s == [] then esc else (esc || s[0] != NUL) && Open(s[1..], !esc && s[0] == BACKSLASH)
  }

  /** It runs past the terminator exactly when the command ends in an open escape that is reached before the
      tokens are used up. */
  lemma {:induction false} OffIff(line: Bytes, from: nat, e: nat, esc: bool, room: nat)
    requires from <= e <= |line| && (esc ==> room > 0)
    ensures ScanMemory(line + [NUL], from, e, esc, room).None?
       <==> Open(line[e..], esc) && Scan(line, from, e, esc, room).1 == |line|
    decreases |line| - e
  {
    var mem := line + [NUL];
    if e < |line| {
      assert mem[e] == line[e] == line[e..][0] && line[e..][1..] == line[e + 1..];
      if room == 0 {
        assert Scan(line, from, e, esc, room).1 == e;
      } else if esc {
        OffIff(line, from, e + 1, false, room);
      } else if line[e] == SPACE {
        OffIff(line, e + 1, e + 1, false, if from != e then room - 1 else room);
      } else {
        OffIff(line, from, e + 1, line[e] == BACKSLASH, room);
      }
    } else {
      assert mem[e] == NUL;
      assert |mem| == e + 1;
    }
  }

  // ----- a command and its terminator

  /** No NUL but behind a backslash, and no backslash directly before the terminator. */
  predicate Closed(s: Bytes, esc: bool) {
    if s == [] then !esc else (esc || s[0] != NUL) && Closed(s[1..], !esc && s[0] == BACKSLASH)
  }

  /** The scan of a text up to its end. */
  function Scan(s: Bytes, from: nat, e: nat, esc: bool, room: nat): (r: (seq<Span>, nat))
    requires from <= e <= |s|
    ensures |r.0| <= room && r.1 <= |s|
    decreases |s| - e
  {
    if room == 0 then ([], e)
    else if e == |s| then (if from != e then [Span(from, e - from)] else [], e)
    else if esc then Scan(s, from, e + 1, false, room)
    else if s[e] == SPACE then
      if from != e then
        var (ts, r) := Scan(s, e + 1, e + 1, false, room - 1);
        ([Span(from, e - from)] + ts, r)
      else Scan(s, e + 1, e + 1, false, room)
    else Scan(s, from, e + 1, s[e] == BACKSLASH, room)
  }

  /** In memory, a closed command in front of a NUL is scanned as the text it is. */
  lemma {:induction false} ScanText(mem: Bytes, n: nat, from: nat, e: nat, esc: bool, room: nat)
    requires from <= e <= n < |mem| && mem[n] == NUL && Closed(mem[e..n], esc)
    ensures ScanMemory(mem, from, e, esc, room) == Some(Scan(mem[..n], from, e, esc, room))
    decreases n - e
  {
    if e < n {
      assert mem[e..n][0] == mem[e] == mem[..n][e] && mem[e..n][1..] == mem[e + 1..n];
      if room > 0 {
        if esc {
          ScanText(mem, n, from, e + 1, false, room);
        } else if mem[e] == SPACE {
          ScanText(mem, n, e + 1, e + 1, false, if from != e then room - 1 else room);
        } else {
          ScanText(mem, n, from, e + 1, mem[e] == BACKSLASH, room);
        }
      }
    }
  }

  // ----- the loop

  function TokenOf(t: Span): Token {
    Token(Some(t.from), t.length)
  }

  /** Every token found so far ends in a NUL, and no other byte has changed. */
  ghost predicate Terminated(was: Bytes, now: Bytes, ts: seq<Span>) {
    && |now| == |was|
    && (forall i :: 0 <= i < |ts| ==> ts[i].from + ts[i].length < |now| && now[ts[i].from + ts[i].length] == NUL)
    && (forall j :: 0 <= j < |was| ==>
          now[j] == was[j]
          || (now[j] == NUL && was[j] == SPACE && exists i :: 0 <= i < |ts| && j == ts[i].from + ts[i].length))
  }

  /** What the loop has still to find, behind what it has found. */
  ghost predicate Ahead(mem: Bytes, all: (seq<Span>, nat), found: seq<Span>, s: nat, e: nat, esc: bool, room: nat)
    requires s <= e
  {
    var more := ScanMemory(mem, s, e, esc, room);
    more.Some? && all == (found + more.value.0, more.value.1)
  }

  lemma AheadSkip(mem: Bytes, all: (seq<Span>, nat), found: seq<Span>, s: nat, e: nat, esc: bool, room: nat)
    requires s <= e && room > 0 && Ahead(mem, all, found, s, e, esc, room)
    ensures e < |mem|
    ensures esc || (mem[e] != SPACE && mem[e] != NUL) ==>
              Ahead(mem, all, found, s, e + 1, !esc && mem[e] == BACKSLASH, room)
    ensures !esc && mem[e] == SPACE && s == e ==> Ahead(mem, all, found, e + 1, e + 1, false, room)
  {
  }

  lemma AheadTake(mem: Bytes, all: (seq<Span>, nat), found: seq<Span>, s: nat, e: nat, room: nat)
    requires s < e < |mem| && room > 0 && mem[e] == SPACE && Ahead(mem, all, found, s, e, false, room)
    ensures Ahead(mem, all, found + [Span(s, e - s)], e + 1, e + 1, false, room - 1)
  {
    var more := ScanMemory(mem, e + 1, e + 1, false, room - 1);
    assert found + ([Span(s, e - s)] + more.value.0) == found + [Span(s, e - s)] + more.value.0;
  }

  lemma AheadEnd(mem: Bytes, all: (seq<Span>, nat), found: seq<Span>, s: nat, e: nat, esc: bool, room: nat)
    requires s <= e && Ahead(mem, all, found, s, e, esc, room)
    ensures e < |mem|
    ensures room == 0 ==> all == (found, e)
    ensures room > 0 && !esc && mem[e] == NUL ==> all == (if s != e then found + [Span(s, e - s)] else found, e)
  {
    assert found + [] == found;
  }

  lemma TerminatedMore(was: Bytes, now: Bytes, found: seq<Span>, s: nat, e: nat)
    requires Terminated(was, now, found) && s < e < |was| && now[e] == was[e]
    ensures was[e] == SPACE ==> Terminated(was, now[e := NUL], found + [Span(s, e - s)])
    ensures was[e] == NUL ==> Terminated(was, now, found + [Span(s, e - s)])
  {
    var more := found + [Span(s, e - s)];
    assert more[|found|] == Span(s, e - s);
    forall j | 0 <= j < |was| && now[j] != was[j]
      ensures exists i :: 0 <= i < |more| && j == more[i].from + more[i].length
    {
      var i :| 0 <= i < |found| && j == found[i].from + found[i].length;
      assert more[i] == found[i];
    }
  }

  ghost predicate Stored(tokens: seq<Token>, found: seq<Span>) {
    |found| <= |tokens| && forall i :: 0 <= i < |found| ==> tokens[i] == TokenOf(found[i])
  }

  lemma StoredMore(tokens: seq<Token>, found: seq<Span>, t: Span)
    requires Stored(tokens, found) && |found| < |tokens|
    ensures Stored(tokens[|found| := TokenOf(t)], found + [t])
  {
  }

  /** Tokenize, called where the scan stays within the command's memory. */
  method Tokenize(command: array<byte>, tokens: array<Token>, mtokens: nat) returns (ntokens: nat)
    requires 1 <= mtokens <= tokens.Length && command as object != tokens
    requires ScanMemory(command[..], 0, 0, false, mtokens - 1).Some?
    modifies command, tokens
    ensures var (ts, r) := old(ScanMemory(command[..], 0, 0, false, mtokens - 1)).value;
            && ntokens == |ts| + 1 <= mtokens && r < command.Length
            && Stored(tokens[..], ts)
            && tokens[|ts|] == Token(if old(command[r]) == NUL then None else Some(r), 0)
            && Terminated(old(command[..]), command[..], ts)
  {
    hide ScanMemory, Terminated, Stored;
    var s: nat, e: nat, esc := 0, 0, false;
    ntokens := 0;
    ghost var was := command[..];
    ghost var all := ScanMemory(was, 0, 0, false, mtokens - 1).value;
    ghost var found: seq<Span> := [];
    ghost var ended := false;
    assert Terminated(was, was, found) && Stored(tokens[..], found) by { Nothing(was, tokens[..]); }
    assert Ahead(was, all, found, s, e, esc, mtokens - 1) by { assert found + all.0 == all.0; }
    hide Ahead;
    while ntokens < mtokens - 1
      invariant s <= e <= |was| == command.Length && ntokens == |found| <= mtokens - 1
      invariant forall j :: e <= j < |was| ==> command[j] == was[j]
      invariant Stored(tokens[..], found) && Terminated(was, command[..], found)
      invariant Ahead(was, all, found, s, e, esc, mtokens - 1 - ntokens) && !ended
      decreases |was| - e
    {
      AheadEnd(was, all, found, s, e, esc, mtokens - 1 - ntokens);
      AheadSkip(was, all, found, s, e, esc, mtokens - 1 - ntokens);
      if esc {
        esc := false;
      } else if command[e] == SPACE {
        if s != e {
          AheadTake(was, all, found, s, e, mtokens - 1 - ntokens);
          TerminatedMore(was, command[..], found, s, e);
          StoredMore(tokens[..], found, Span(s, e - s));
          ghost var before := command[..];
          tokens[ntokens] := Token(Some(s), e - s);
          ntokens := ntokens + 1;
          command[e] := NUL;
          assert command[..] == before[e := NUL];
          found := found + [Span(s, e - s)];
        }
        s := e + 1;
      } else if command[e] == NUL {
        if s != e {
          TerminatedMore(was, command[..], found, s, e);
          StoredMore(tokens[..], found, Span(s, e - s));
          tokens[ntokens] := Token(Some(s), e - s);
          ntokens := ntokens + 1;
          found := found + [Span(s, e - s)];
        }
        ended := true;
        break;
      } else if command[e] == BACKSLASH {
        esc := true;
      }
      e := e + 1;
    }
    if !ended { AheadEnd(was, all, found, s, e, esc, 0); }
    StoredKeep(tokens[..], found, Token(if command[e] == NUL then None else Some(e), 0));
    tokens[ntokens] := Token(if command[e] == NUL then None else Some(e), 0);
    ntokens := ntokens + 1;
  }

  lemma StoredKeep(tokens: seq<Token>, found: seq<Span>, t: Token)
    requires Stored(tokens, found) && |found| < |tokens|
    ensures Stored(tokens[|found| := t], found)
  {
  }

  lemma Nothing(was: Bytes, tokens: seq<Token>)
    ensures Terminated(was, was, []) && Stored(tokens, [])
  {
  }

  /** The bytes of a token, and everything that is not the end of one, stay as they were. */
  lemma TokenKept(was: Bytes, now: Bytes, ts: seq<Span>, from: nat, r: nat, i: nat)
    requires Terminated(was, now, ts) && Apart(ts, from, r) && i < |ts|
    ensures var a, b := ts[i].from, ts[i].from + ts[i].length;
            b < |now| == |was| && now[a..b] == was[a..b] && now[b] == NUL
  {
    forall j | ts[i].from <= j < ts[i].from + ts[i].length ensures now[j] == was[j] {}
  }

  lemma SameLength(was: Bytes, now: Bytes, ts: seq<Span>)
    requires Terminated(was, now, ts)
    ensures |now| == |was|
  {
  }

  lemma BehindKept(was: Bytes, now: Bytes, ts: seq<Span>, from: nat, r: nat, j: nat)
    requires Terminated(was, now, ts) && Apart(ts, from, r) && r < j < |was|
    ensures |now| == |was| && now[j] == was[j]
  {
  }

  // ----- words and spaces

  /** A word and how many spaces follow it. */
  datatype Piece = Piece(word: Bytes, gap: nat)

  function Spaces(n: nat): (r: Bytes)
    ensures |r| == n
  {
    if n == 0 then [] else [SPACE] + Spaces(n - 1)
  }

  /** No space or NUL but behind a backslash, and no backslash left open at the end. */
  predicate Unbroken(w: Bytes, esc: bool) {
    if w == [] then !esc
    else if esc then Unbroken(w[1..], false)
    else w[0] != SPACE && w[0] != NUL && Unbroken(w[1..], w[0] == BACKSLASH)
  }

  /** Words are not empty, and only behind the last one may there be no space. */
  predicate Pieces(ps: seq<Piece>) {
    ps == [] || (ps[0].word != [] && Unbroken(ps[0].word, false) && (ps[0].gap == 0 ==> |ps| == 1) && Pieces(ps[1..]))
  }

  function Join(ps: seq<Piece>): Bytes {
    if ps == [] then [] else ps[0].word + Spaces(ps[0].gap) + Join(ps[1..])
  }

  function Text(lead: nat, ps: seq<Piece>): Bytes {
    Spaces(lead) + Join(ps)
  }

  /** Where the words are, the first one at from. */
  function Spans(from: nat, ps: seq<Piece>): (r: seq<Span>)
    ensures |r| == |ps|
    decreases |ps|
  {
    if ps == [] then [] else [Span(from, |ps[0].word|)] + Spans(from + |ps[0].word| + ps[0].gap, ps[1..])
  }

  /** Where the scan stops: when there is no room for more tokens, right behind the first space after the last
      token taken. */
  function Stop(at: nat, lead: nat, ps: seq<Piece>, room: nat): nat
    decreases |ps|
  {
    if room == 0 then at
    else if ps == [] then at + lead
    else
      var e := at + lead + |ps[0].word|;
      if ps[0].gap == 0 then e else Stop(e + 1, ps[0].gap - 1, ps[1..], room - 1)
  }

  function First(ps: seq<Piece>, n: nat): seq<Piece> {
    if n < |ps| then ps[..n] else ps
  }

  /** The scan skips spaces in front of a token, and goes through a word to its end. */
  lemma {:induction false} ScanSpaces(s: Bytes, at: nat, lead: nat, room: nat)
    requires at + lead <= |s| && s[at..at + lead] == Spaces(lead) && room > 0
    ensures Scan(s, at, at, false, room) == Scan(s, at + lead, at + lead, false, room)
    decreases lead
  {
    if lead > 0 {
      assert s[at] == s[at..at + lead][0] == SPACE;
      assert s[at..at + lead][1..] == s[at + 1..at + 1 + (lead - 1)];
      ScanSpaces(s, at + 1, lead - 1, room);
    }
  }

  lemma {:induction false} ScanWord(s: Bytes, from: nat, e: nat, esc: bool, w: Bytes, room: nat)
    requires from <= e && e + |w| <= |s| && s[e..e + |w|] == w && Unbroken(w, esc) && room > 0
    ensures Scan(s, from, e, esc, room) == Scan(s, from, e + |w|, false, room)
    decreases |w|
  {
    if w != [] {
      assert s[e] == s[e..e + |w|][0] == w[0];
      assert s[e..e + |w|][1..] == s[e + 1..e + 1 + |w[1..]|];
      ScanWord(s, from, e + 1, !esc && w[0] == BACKSLASH, w[1..], room);
    }
  }

  lemma Cuts(s: Bytes, at: nat, a: Bytes, w: Bytes, b: Bytes, rest: Bytes)
    requires at <= |s| && s[at..] == a + (w + b + rest)
    ensures |s| == at + |a| + |w| + |b| + |rest|
    ensures s[at..at + |a|] == a && s[at + |a|..at + |a| + |w|] == w
    ensures s[at + |a| + |w|..] == b + rest
  {
    var t := s[at..];
    assert t[..|a|] == a && t[|a|..|a| + |w|] == w && t[|a| + |w|..] == b + rest;
    assert s[at..at + |a|] == t[..|a|] && s[at + |a|..at + |a| + |w|] == t[|a|..|a| + |w|];
    assert s[at + |a| + |w|..] == t[|a| + |w|..];
  }

  lemma SpacesMinus(s: Bytes, e: nat, gap: nat, rest: Bytes)
    requires e <= |s| && gap > 0 && s[e..] == Spaces(gap) + rest
    ensures e < |s| && s[e] == SPACE && s[e + 1..] == Spaces(gap - 1) + rest
  {
    assert s[e..][0] == SPACE;
    assert s[e..][1..] == Spaces(gap)[1..] + rest;
    assert s[e..][1..] == s[e + 1..];
  }

  lemma FirstCons(ps: seq<Piece>, n: nat)
    requires ps != [] && n > 0
    ensures First(ps, n) == [ps[0]] + First(ps[1..], n - 1)
  {
  }

  /** Scanning a text from its start, or from right behind a token, yields its words. */
  lemma {:induction false} ScanPieces(s: Bytes, at: nat, lead: nat, ps: seq<Piece>, room: nat)
    requires at <= |s| && s[at..] == Text(lead, ps) && Pieces(ps)
    ensures Scan(s, at, at, false, room) == (Spans(at + lead, First(ps, room)), Stop(at, lead, ps, room))
    decreases |ps|
  {
    hide Spaces, Unbroken;
    if room == 0 {
      assert First(ps, 0) == [];
    } else if ps == [] {
      assert s[at..at + lead] == Spaces(lead);
      ScanSpaces(s, at, lead, room);
    } else {
      var w, gap, rest := ps[0].word, ps[0].gap, Join(ps[1..]);
      Cuts(s, at, Spaces(lead), w, Spaces(gap), rest);
      ScanSpaces(s, at, lead, room);
      ScanWord(s, at + lead, at + lead, false, w, room);
      FirstCons(ps, room);
      ScanTail(s, at, lead, ps, room);
    }
  }

  lemma ScanTail(s: Bytes, at: nat, lead: nat, ps: seq<Piece>, room: nat)
    requires ps != [] && Pieces(ps) && room > 0
    requires var e := at + lead + |ps[0].word|;
             e <= |s| && s[e..] == Spaces(ps[0].gap) + Join(ps[1..])
             && Scan(s, at, at, false, room) == Scan(s, at + lead, e, false, room)
    requires First(ps, room) == [ps[0]] + First(ps[1..], room - 1)
    ensures Scan(s, at, at, false, room) == (Spans(at + lead, First(ps, room)), Stop(at, lead, ps, room))
    decreases |ps|, 0
  {
    hide Join, Scan, First, Unbroken;
    var e, gap := at + lead + |ps[0].word|, ps[0].gap;
    if gap == 0 {
      LastWord(s, at + lead, e, ps, room);
    } else {
      SpacesMinus(s, e, gap, Join(ps[1..]));
      ScanTake(s, at + lead, e, room);
      PiecesTail(ps);
      hide Pieces;
      ScanPieces(s, e + 1, gap - 1, ps[1..], room - 1);
      assert e + 1 + (gap - 1) == e + gap;
      SpansCons(at + lead, ps[0], First(ps[1..], room - 1));
    }
  }

  lemma SpansCons(from: nat, p: Piece, ps: seq<Piece>)
    ensures Spans(from, [p] + ps) == [Span(from, |p.word|)] + Spans(from + |p.word| + p.gap, ps)
  {
    assert ([p] + ps)[1..] == ps;
  }

  lemma ScanTake(s: Bytes, from: nat, e: nat, room: nat)
    requires from < e < |s| && s[e] == SPACE && room > 0
    ensures var (ts, r) := Scan(s, e + 1, e + 1, false, room - 1);
            Scan(s, from, e, false, room) == ([Span(from, e - from)] + ts, r)
  {
  }

  lemma LastWord(s: Bytes, from: nat, e: nat, ps: seq<Piece>, room: nat)
    requires ps != [] && Pieces(ps) && ps[0].gap == 0 && room > 0
    requires from + |ps[0].word| == e <= |s| && s[e..] == Spaces(0) + Join(ps[1..])
    ensures Scan(s, from, e, false, room) == (Spans(from, First(ps, room)), e)
  {
    assert ps[1..] == [] && Spaces(0) + Join([]) == [];
    assert e == |s| && First(ps, room) == ps;
    assert Spans(from, ps) == [Span(from, e - from)] + Spans(e, ps[1..]);
    assert Spans(from, ps) == [Span(from, e - from)];
    assert Scan(s, from, e, false, room) == ([Span(from, e - from)], e);
  }

  lemma PiecesTail(ps: seq<Piece>)
    requires ps != [] && Pieces(ps)
    ensures Pieces(ps[1..])
  {
  }

  /** In memory, words joined by one or more spaces, with a NUL behind them, are split into the first words in
      order, and the sentinel points behind the first space after them, if there is anything there. */
  lemma RoundTrip(mem: Bytes, n: nat, lead: nat, ps: seq<Piece>, mtokens: nat)
    requires n < |mem| && mem[..n] == Text(lead, ps) && mem[n] == NUL && Pieces(ps) && mtokens >= 1
    ensures ScanMemory(mem, 0, 0, false, mtokens - 1)
         == Some((Spans(lead, First(ps, mtokens - 1)), Stop(0, lead, ps, mtokens - 1)))
  {
    TextClosed(lead, ps);
    assert mem[0..n] == mem[..n];
    ScanText(mem, n, 0, 0, false, mtokens - 1);
    assert Text(lead, ps)[0..] == Text(lead, ps);
    ScanPieces(Text(lead, ps), 0, lead, ps, mtokens - 1);
  }

  /** The i-th word as the i-th slice, in a text that starts at at. */
  lemma {:induction false} WordAt(s: Bytes, at: nat, lead: nat, ps: seq<Piece>, i: nat)
    requires at <= |s| && s[at..] == Text(lead, ps) && i < |ps|
    ensures var t := Spans(at + lead, ps)[i];
            && at + lead <= t.from && t.from + t.length <= |s| && s[t.from..t.from + t.length] == ps[i].word
    decreases |ps|
  {
    var w, gap, rest := ps[0].word, ps[0].gap, Join(ps[1..]);
    Cuts(s, at, Spaces(lead), w, Spaces(gap), rest);
    hide Spaces, Join;
    if i > 0 {
      assert s[at + lead + |w|..] == Text(gap, ps[1..]);
      hide Text;
      WordAt(s, at + lead + |w|, gap, ps[1..], i - 1);
    }
  }

  lemma UnbrokenClosed(w: Bytes, esc: bool, rest: Bytes)
    requires Unbroken(w, esc) && Closed(rest, false)
    ensures Closed(w + rest, esc)
  {
    if w == [] {
      assert w + rest == rest;
    } else {
      assert (w + rest)[1..] == w[1..] + rest;
      UnbrokenClosed(w[1..], !esc && w[0] == BACKSLASH, rest);
    }
  }

  lemma {:induction false} SpacesClosed(n: nat, rest: Bytes)
    requires Closed(rest, false)
    ensures Closed(Spaces(n) + rest, false)
  {
    if n == 0 {
      assert Spaces(0) + rest == rest;
    } else {
      assert (Spaces(n) + rest)[1..] == Spaces(n - 1) + rest;
      SpacesClosed(n - 1, rest);
    }
  }

  lemma {:induction false} JoinClosed(ps: seq<Piece>)
    requires Pieces(ps)
    ensures Closed(Join(ps), false)
  {
    if ps != [] {
      JoinClosed(ps[1..]);
      SpacesClosed(ps[0].gap, Join(ps[1..]));
      hide Spaces, Unbroken;
      UnbrokenClosed(ps[0].word, false, Spaces(ps[0].gap) + Join(ps[1..]));
      assert Join(ps) == ps[0].word + (Spaces(ps[0].gap) + Join(ps[1..]));
    }
  }

  /** Words joined by spaces are a closed command. */
  lemma TextClosed(lead: nat, ps: seq<Piece>)
    requires Pieces(ps)
    ensures Closed(Text(lead, ps), false)
  {
    JoinClosed(ps);
    SpacesClosed(lead, Join(ps));
  }

  /** The length of the word a text starts with. */
  function WordLength(s: Bytes, esc: bool): (n: nat)
    requires Closed(s, esc)
    ensures n <= |s| && Unbroken(s[..n], esc)
    ensures n < |s| ==> s[n] == SPACE && Closed(s[n..], false)
  {
    if s == [] || (!esc && s[0] == SPACE) then
      assert s[..0] == [] && s[0..] == s;
      0
    else
      var n := WordLength(s[1..], !esc && s[0] == BACKSLASH);
      assert s[..n + 1][1..] == s[1..][..n] && s[n + 1..] == s[1..][n..];
      n + 1
  }

  /** Every closed command is words joined by spaces, so the round trip covers them all. */
  lemma {:induction false} EveryText(s: Bytes) returns (lead: nat, ps: seq<Piece>)
    requires Closed(s, false)
    ensures Pieces(ps) && s == Text(lead, ps)
    ensures s != [] && s[0] == SPACE ==> lead > 0
    decreases |s|
  {
    if s == [] {
      lead, ps := 0, [];
    } else if s[0] == SPACE {
      lead, ps := EveryText(s[1..]);
      SpacesPlus(s, lead, ps);
      lead := lead + 1;
    } else {
      var n := WordLength(s, false);
      var gap, more := EveryText(s[n..]);
      lead, ps := 0, [Piece(s[..n], gap)] + more;
      WordsPlus(s, n, gap, more);
    }
  }

  lemma SpacesPlus(s: Bytes, lead: nat, ps: seq<Piece>)
    requires s != [] && s[0] == SPACE && s[1..] == Text(lead, ps)
    ensures s == Text(lead + 1, ps)
  {
    hide Join;
    assert [SPACE] + (Spaces(lead) + Join(ps)) == ([SPACE] + Spaces(lead)) + Join(ps);
  }

  lemma WordsPlus(s: Bytes, n: nat, gap: nat, more: seq<Piece>)
    requires 0 < n <= |s| && Unbroken(s[..n], false) && Pieces(more) && s[n..] == Text(gap, more)
    requires n < |s| ==> gap > 0
    ensures Pieces([Piece(s[..n], gap)] + more) && s == Text(0, [Piece(s[..n], gap)] + more)
  {
    var ps := [Piece(s[..n], gap)] + more;
    assert ps[1..] == more;
    JoinLength(more);
    assert Join(ps) == s[..n] + Spaces(gap) + Join(more);
    hide Unbroken, Join, Spaces;
    GapEmpty(s, n, gap, Join(more));
    Pasted(s, n, Spaces(gap), Join(more));
    assert Spaces(0) + Join(ps) == Join(ps) by { assert Spaces(0) == []; }
  }

  lemma GapEmpty(s: Bytes, n: nat, gap: nat, rest: Bytes)
    requires n <= |s| && s[n..] == Spaces(gap) + rest && (n < |s| ==> gap > 0)
    ensures gap == 0 ==> rest == []
  {
  }

  lemma Pasted(s: Bytes, n: nat, gap: Bytes, rest: Bytes)
    requires n <= |s| && s[n..] == gap + rest
    ensures s == s[..n] + gap + rest
  {
    assert s == s[..n] + s[n..];
  }

  lemma JoinLength(ps: seq<Piece>)
    requires Pieces(ps)
    ensures Join(ps) == [] <==> ps == []
  {
  }

  /** After tokenizing, the string at every token is the word itself, up to the NUL put behind it. */
  lemma TokenStrings(was: Bytes, now: Bytes, n: nat, lead: nat, ps: seq<Piece>, room: nat, i: nat)
    requires Pieces(ps) && n < |was| && was[..n] == Text(lead, ps) && was[n] == NUL && i < |First(ps, room)|
    requires Terminated(was, now, Spans(lead, First(ps, room)))
    ensures var t := Spans(lead, First(ps, room))[i];
            t.from + t.length < |now| && now[t.from..t.from + t.length] == ps[i].word && now[t.from + t.length] == NUL
  {
    hide Spans, First, Join, Spaces, Terminated, Pieces, Text, ScanMemory, Apart;
    RoundTrip(was, n, lead, ps, room + 1);
    ScanApart(was, 0, 0, false, room);
    TokenKept(was, now, Spans(lead, First(ps, room)), 0, Stop(0, lead, ps, room), i);
    TextAt(was[..n], lead, ps);
    FirstShorter(ps, room);
    WordAt(was[..n], 0, lead, ps, i);
    FirstSpans(lead, ps, room, i);
    var t := Spans(lead, ps)[i];
    assert was[..n][t.from..t.from + t.length] == was[t.from..t.from + t.length];
  }

  lemma TextAt(s: Bytes, lead: nat, ps: seq<Piece>)
    requires s == Text(lead, ps)
    ensures s[0..] == Text(lead, ps)
  {
  }

  lemma FirstShorter(ps: seq<Piece>, room: nat)
    ensures |First(ps, room)| <= |ps|
  {
  }

  lemma {:induction false} FirstSpans(from: nat, ps: seq<Piece>, room: nat, k: nat)
    requires k < |First(ps, room)|
    ensures Spans(from, First(ps, room))[k] == Spans(from, ps)[k]
    decreases |ps|
  {
    FirstCons(ps, room);
    if k > 0 {
      FirstSpans(from + |ps[0].word| + ps[0].gap, ps[1..], room - 1, k - 1);
    }
  }
}
