/** The receiving half of a memcached connection (netshell/mcshell.cc): a request line and, for the storing
    commands, a body, put together from whatever pieces the socket delivers. */
module Requests {
  import opened Basics
  import opened Connection
  import Counter
  import D = DumpFormat
  import opened Numbers
  import Token

  datatype Request = Request(line: Bytes, body: Bytes)

  /** What the bytes received since the last reply amount to.  Closed: the client says it is done.  Astray: the
      tokenizer reads past the line.  Oversized: the size of the body, two bytes more than the line announces, does not
      fit 64 bits. */
  datatype Progress =
    | NeedLine
    | NeedBody(line: Bytes, size: nat, have: Bytes)
    | Ready(request: Request)
    | TooLong
    | Closed
    | Astray(line: Bytes)
    | Oversized(line: Bytes)

  const MAX_TOKENS: nat := 7

  /** The string that starts at the i-th token: all of it, or what stands before a hidden NUL. */
  function Word(mem: Bytes, ts: seq<Token.Span>, i: nat): Bytes
    requires i < |ts| && ts[i].from + ts[i].length <= |mem|
  {
    D.CStr(mem[ts[i].from..ts[i].from + ts[i].length])
  }

  const SET: Bytes := [115, 101, 116]
  const ADD: Bytes := [97, 100, 100]
  const REPLACE: Bytes := [114, 101, 112, 108, 97, 99, 101]
  const PREPEND: Bytes := [112, 114, 101, 112, 101, 110, 100]
  const APPEND: Bytes := [97, 112, 112, 101, 110, 100]

  const QUIT: Bytes := [113, 117, 105, 116]

  /** What a line turns out to be. */
  datatype Reading = Lost | Plain | Quit | Storing(nval: nat) | Huge

  /** One of the five storing commands with its four arguments announces a value of the length in its last one. */
  function Understood(count: nat, cmd: Bytes, length: Bytes): (r: Reading)
    ensures !r.Lost?
  {
    if count == 5 && cmd in {SET, ADD, REPLACE, PREPEND, APPEND} then
      if Strtoul(length) + 2 < Counter.U64 then Storing(Strtoul(length)) else Huge
    else if count == 1 && cmd == QUIT then Quit
    else Plain
  }

  function Tokens(mem: Bytes): Option<(seq<Token.Span>, nat)> {
    Token.ScanMemory(mem, 0, 0, false, MAX_TOKENS - 1)
  }

  /** What the tokenizer finds in memory. */
  function ReadingOf(mem: Bytes): (r: Reading)
    ensures r.Lost? <==> Tokens(mem).None?
  {
    if Tokens(mem).None? then Lost
    else
      Token.ScanApart(mem, 0, 0, false, MAX_TOKENS - 1);
      var ts := Tokens(mem).value.0;
      if ts == [] then Plain else Understood(|ts|, Word(mem, ts, 0), if |ts| == 5 then Word(mem, ts, 4) else [])
  }

  /** The line in front of the newline at e, without a carriage return at its end. */
  function LineOf(p: Bytes, e: nat): Bytes
    requires e < |p|
  {
    if e > 1 && p[e - 1] == RETURN then p[..e - 1] else p[..e]
  }

  /** cap is the size of the header buffer. */
  function ProgressOf(p: Bytes, cap: nat): Progress {
    var e := D.Find(p, NEWLINE);
    if e >= cap then TooLong
    else if e == |p| then NeedLine
    else
      var line := LineOf(p, e);
      match ReadingOf(line + [NUL])
      case Lost => Astray(line)
      case Huge => Oversized(line)
      case Quit => Closed
      case Plain => Ready(Request(line, []))
      case Storing(n) =>
        var have := p[e + 1..][..Min(|p| - e - 1, n + 2)];
        if |have| == n + 2 then Ready(Request(line, have[..n])) else NeedBody(line, n + 2, have)
  }

  predicate Terminal(p: Progress) {
    p.Ready? || p.TooLong? || p.Closed? || p.Astray? || p.Oversized?
  }

  // ----- what a request looks like

  /** A newline, with or without a carriage return. */
  function End(crlf: bool): Bytes {
    if crlf then [13, 10] else [10]
  }

  lemma {:induction false} FindBehind(l: Bytes, c: byte, more: Bytes)
    requires c !in l && more != [] && more[0] == c
    ensures D.Find(l + more, c) == |l|
  {
    if l == [] {
      assert l + more == more;
    } else {
      assert (l + more)[1..] == l[1..] + more;
      FindBehind(l[1..], c, more);
    }
  }

  /** A line that fits the buffer is the same request with a carriage return in front of its newline as without, and
      what comes behind the newline is its body as far as one is announced. */
  lemma LineEnds(l: Bytes, crlf: bool, more: Bytes, cap: nat)
    requires l != [] && NEWLINE !in l && l[|l| - 1] != RETURN && |l| + 1 < cap
    ensures var p := ProgressOf(l + End(crlf) + more, cap);
            match ReadingOf(l + [NUL])
            case Lost => p == Astray(l)
            case Huge => p == Oversized(l)
            case Quit => p == Closed
            case Plain => p == Ready(Request(l, []))
            case Storing(n) => p == if |more| >= n + 2 then Ready(Request(l, more[..n])) else NeedBody(l, n + 2, more)
  {
    hide ReadingOf, D.Find;
    var line := if crlf then l + [RETURN] else l;
    var q := l + End(crlf) + more;
    assert q == line + ([NEWLINE] + more);
    FindBehind(line, NEWLINE, [NEWLINE] + more);
    var e := |line|;
    assert q[..|l|] == l && q[e - 1] == line[e - 1] && q[e + 1..] == more;
    assert LineOf(q, e) == l;
  }

  /** An empty line is a request of no words; a carriage return alone in front of the newline stays in the line. */
  lemma EmptyLines(more: Bytes, cap: nat)
    requires cap > 2
    ensures ProgressOf([10] + more, cap) == Ready(Request([], []))
    ensures ProgressOf([13, 10] + more, cap) == Ready(Request([13], []))
  {
    FindBehind([], NEWLINE, [10] + more);
    FindBehind([13], NEWLINE, [10] + more);
    assert [] + ([10] + more) == [10] + more && [13] + ([10] + more) == [13, 10] + more;
    hide D.Find, ReadingOf;
    assert LineOf([10] + more, 0) == [] && LineOf([13, 10] + more, 1) == [13];
    NoWords();
  }

  lemma NoWords()
    ensures ReadingOf([] + [NUL]) == Plain && ReadingOf([13] + [NUL]) == Plain
  {
    assert Tokens([13, 0]) == Token.ScanMemory([13, 0], 0, 1, false, 6);
    assert [13] + [NUL] == [13, 0] && [] + [NUL] == [0];
    hide Token.ScanMemory;
    assert Word([13, 0], [Token.Span(0, 1)], 0) == [13] by { assert [13, 0][0..1] == [13]; }
  }

  /** With no newline among as many bytes as the buffer holds a line is too long; before that it is waited for. */
  lemma NoLine(p: Bytes, cap: nat)
    ensures ProgressOf(p, cap) == TooLong <==> |p| >= cap && NEWLINE !in p[..cap]
    ensures ProgressOf(p, cap) == NeedLine <==> |p| < cap && NEWLINE !in p
  {
    FindIn(p, NEWLINE);
    hide ReadingOf, D.Find;
  }

  lemma {:induction false} FindIn(p: Bytes, c: byte)
    ensures var e := D.Find(p, c); c !in p[..e] && (e < |p| ==> p[e] == c)
  {
    if p != [] && p[0] != c {
      FindIn(p[1..], c);
      var e := D.Find(p[1..], c);
      assert p[..e + 1] == [p[0]] + p[1..][..e];
    }
  }

  /** A line of words is read by how many there are, the first, and the fifth if there are just five. */
  lemma WordsRead(lead: nat, ps: seq<Token.Piece>)
    requires Token.Pieces(ps)
    ensures ReadingOf(Token.Text(lead, ps) + [NUL])
         == if ps == [] then Plain
            else Understood(Min(|ps|, 6), D.CStr(ps[0].word), if |ps| == 5 then D.CStr(ps[4].word) else [])
  {
    var text := Token.Text(lead, ps);
    var mem := text + [NUL];
    assert mem[..|text|] == text;
    hide Token.Text, Token.Pieces, Token.ScanMemory, Token.Spans, Token.Stop, D.CStr, Understood;
    Token.RoundTrip(mem, |text|, lead, ps, MAX_TOKENS);
    if ps != [] { WordRead(mem, text, lead, ps, 0); }
    if |ps| == 5 { WordRead(mem, text, lead, ps, 4); }
  }

  /** Such a line closes the connection exactly if it is the word quit, and announces a body exactly if it is five words
      of which the first is set, add, replace, prepend or append; the last one is then the length, unless it leaves no
      room for two bytes more. */
  lemma LineMeans(lead: nat, ps: seq<Token.Piece>)
    requires Token.Pieces(ps)
    ensures var r := ReadingOf(Token.Text(lead, ps) + [NUL]);
            && !r.Lost?
            && (r.Quit? <==> |ps| == 1 && D.CStr(ps[0].word) == [113, 117, 105, 116])
            && (r.Storing? || r.Huge? <==> |ps| == 5 && Stores(D.CStr(ps[0].word)))
            && (r.Storing? ==> r.nval == Strtoul(D.CStr(ps[4].word)) < 0xffff_ffff_ffff_fffe)
            && (r.Huge? ==> Strtoul(D.CStr(ps[4].word)) >= 0xffff_ffff_ffff_fffe)
  {
    WordsRead(lead, ps);
    hide *;
    if ps != [] {
      UnderstoodMeans(Min(|ps|, 6), D.CStr(ps[0].word), if |ps| == 5 then D.CStr(ps[4].word) else []);
    }
  }

  /** set, add, replace, prepend, append. */
  predicate Stores(cmd: Bytes) {
    || cmd == [115, 101, 116] || cmd == [97, 100, 100] || cmd == [114, 101, 112, 108, 97, 99, 101]
    || cmd == [112, 114, 101, 112, 101, 110, 100] || cmd == [97, 112, 112, 101, 110, 100]
  }

  lemma UnderstoodMeans(count: nat, cmd: Bytes, length: Bytes)
    ensures var r := Understood(count, cmd, length);
            && (r.Quit? <==> count == 1 && cmd == [113, 117, 105, 116])
            && (r.Storing? || r.Huge? <==> count == 5 && Stores(cmd))
            && (r.Storing? ==> r.nval == Strtoul(length) < 0xffff_ffff_ffff_fffe)
            && (r.Huge? ==> Strtoul(length) >= 0xffff_ffff_ffff_fffe)
  {
    hide Strtoul;
  }

  lemma WordRead(mem: Bytes, text: Bytes, lead: nat, ps: seq<Token.Piece>, i: nat)
    requires text == Token.Text(lead, ps) && mem == text + [NUL] && i < |Token.First(ps, 6)| && i < |ps|
    ensures var ts := Token.Spans(lead, Token.First(ps, 6));
            ts[i].from + ts[i].length <= |mem| && Word(mem, ts, i) == D.CStr(ps[i].word)
  {
    hide D.CStr, Token.Spans;
    Token.TextAt(text, lead, ps);
    Token.WordAt(text, 0, lead, ps, i);
    Token.FirstSpans(lead, ps, 6, i);
    var t := Token.Spans(lead, ps)[i];
    assert mem[t.from..t.from + t.length] == text[t.from..t.from + t.length];
  }

  // ----- where a line ends for the tokenizer

  /** What stands behind the terminator of a line. */
  function Behind(line: Bytes, behind: Bytes): Bytes {
    line + [NUL] + behind
  }

  /** A line is read in one way only, whatever an earlier request left behind it in the buffer and whatever has
      come in with it, unless it goes astray; it does exactly when it ends in an open escape and has fewer than
      six tokens before that. */
  lemma AstrayIff(line: Bytes)
    ensures ReadingOf(line + [NUL]).Lost?
       <==> Token.Open(line, false) && Token.Scan(line, 0, 0, false, MAX_TOKENS - 1).1 == |line|
    ensures ReadingOf(line + [NUL]).Lost? <==> !Token.Standalone(line, MAX_TOKENS - 1)
    ensures !ReadingOf(line + [NUL]).Lost? ==>
              forall behind :: ReadingOf(Behind(line, behind)) == ReadingOf(line + [NUL])
  {
    Token.StandaloneIff(line, MAX_TOKENS - 1);
    assert line[0..] == line;
    Token.OffIff(line, 0, 0, false, MAX_TOKENS - 1);
    if !ReadingOf(line + [NUL]).Lost? {
      forall behind ensures ReadingOf(Behind(line, behind)) == ReadingOf(line + [NUL]) {
        ReadingBehind(line + [NUL], behind);
      }
    }
  }

  lemma ReadingBehind(mem: Bytes, behind: Bytes)
    requires !ReadingOf(mem).Lost?
    ensures Tokens(mem + behind) == Tokens(mem) && ReadingOf(mem + behind) == ReadingOf(mem)
  {
    Token.ScanMore(mem, behind, 0, 0, false, MAX_TOKENS - 1);
    Token.ScanApart(mem, 0, 0, false, MAX_TOKENS - 1);
    hide Token.ScanMemory, D.CStr, Understood;
    var ts := Tokens(mem).value.0;
    if ts != [] { WordBehind(mem, behind, ts, 0); }
    if |ts| == 5 { WordBehind(mem, behind, ts, 4); }
  }

  lemma WordBehind(mem: Bytes, behind: Bytes, ts: seq<Token.Span>, i: nat)
    requires i < |ts| && ts[i].from + ts[i].length <= |mem|
    ensures Word(mem + behind, ts, i) == Word(mem, ts, i)
  {
    var a, b := ts[i].from, ts[i].from + ts[i].length;
    assert (mem + behind)[a..b] == mem[a..b];
  }

  /** "set k 0 0 5" and a backslash. */
  const STRAY: Bytes := [115, 101, 116, 32, 107, 32, 48, 32, 48, 32, 53, 92]

  /** The same line announces five bytes of value when a NUL lies behind it, and is no storing command when a
      space and another word do. */
  lemma StrayLine()
    ensures ReadingOf(STRAY + [NUL]).Lost?
    ensures ReadingOf(Behind(STRAY, [NUL])) == Storing(5)
    ensures ReadingOf(Behind(STRAY, [32, 120, NUL])) == Plain
  {
    hide Token.ScanMemory, D.CStr, Strtoul;
    var s0, s1, s2 := STRAY + [NUL], Behind(STRAY, [NUL]), Behind(STRAY, [32, 120, NUL]);
    StrayStart(s0);
    StrayStart(s1);
    StrayStart(s2);
    StrayEnds(s0, s1, s2);
    StrayWords(s1);
  }

  lemma StrayEnds(s0: Bytes, s1: Bytes, s2: Bytes)
    requires |s0| == 13 && |s1| == 14 && |s2| == 16
    requires s0[10] == s1[10] == s2[10] == 53 && s0[11] == s1[11] == s2[11] == Token.BACKSLASH
    requires s0[12] == s1[12] == s2[12] == NUL
    requires s1[13] == NUL && s2[13] == SPACE && s2[14] == 120 && s2[15] == NUL
    ensures Token.ScanMemory(s0, 10, 10, false, 2).None?
    ensures Token.ScanMemory(s1, 10, 10, false, 2) == Some(([Token.Span(10, 3)], 13))
    ensures Token.ScanMemory(s2, 10, 10, false, 2) == Some(([Token.Span(10, 3), Token.Span(14, 1)], 15))
  {
    StrayFive(s0);
    StrayFive(s1);
    StrayFive(s2);
    assert Token.ScanMemory(s2, 14, 15, false, 1) == Some(([Token.Span(14, 1)], 15));
    assert Token.ScanMemory(s2, 14, 14, false, 1) == Token.ScanMemory(s2, 14, 15, false, 1);
    assert Token.ScanMemory(s2, 10, 13, false, 2)
        == Token.Taken(Token.Span(10, 3), Token.ScanMemory(s2, 14, 14, false, 1));
    assert [Token.Span(10, 3)] + [Token.Span(14, 1)] == [Token.Span(10, 3), Token.Span(14, 1)];
  }

  /** The fifth token goes on behind the terminator. */
  lemma StrayFive(mem: Bytes)
    requires |mem| >= 13 && mem[10] == 53 && mem[11] == Token.BACKSLASH && mem[12] == NUL
    ensures Token.ScanMemory(mem, 10, 10, false, 2) == Token.ScanMemory(mem, 10, 13, false, 2)
  {
    assert Token.ScanMemory(mem, 10, 12, true, 2) == Token.ScanMemory(mem, 10, 13, false, 2);
    assert Token.ScanMemory(mem, 10, 11, false, 2) == Token.ScanMemory(mem, 10, 12, true, 2);
  }

  /** The first four tokens, and what comes from the fifth on. */
  lemma StrayStart(mem: Bytes)
    requires |mem| > 12 && mem[..12] == STRAY
    ensures var four := [Token.Span(0, 3), Token.Span(4, 1), Token.Span(6, 1), Token.Span(8, 1)];
            var more := Token.ScanMemory(mem, 10, 10, false, 2);
            Tokens(mem) == if more.None? then None else Some((four + more.value.0, more.value.1))
  {
    assert forall i :: 0 <= i < 12 ==> mem[i] == STRAY[i];
    var more := Token.ScanMemory(mem, 10, 10, false, 2);
    assert Token.ScanMemory(mem, 8, 8, false, 3) == Token.Taken(Token.Span(8, 1), more);
    assert Token.ScanMemory(mem, 6, 6, false, 4)
        == Token.Taken(Token.Span(6, 1), Token.ScanMemory(mem, 8, 8, false, 3));
    assert Token.ScanMemory(mem, 4, 4, false, 5)
        == Token.Taken(Token.Span(4, 1), Token.ScanMemory(mem, 6, 6, false, 4));
    assert Token.ScanMemory(mem, 0, 2, false, 6) == Token.ScanMemory(mem, 0, 3, false, 6);
    assert Tokens(mem) == Token.ScanMemory(mem, 0, 1, false, 6) == Token.ScanMemory(mem, 0, 2, false, 6);
    assert Tokens(mem) == Token.Taken(Token.Span(0, 3), Token.ScanMemory(mem, 4, 4, false, 5));
    if more.Some? { FourMore(Token.Span(0, 3), Token.Span(4, 1), Token.Span(6, 1), Token.Span(8, 1), more.value.0); }
  }

  lemma FourMore(a: Token.Span, b: Token.Span, c: Token.Span, d: Token.Span, more: seq<Token.Span>)
    ensures [a] + ([b] + ([c] + ([d] + more))) == [a, b, c, d] + more
  {
  }

  lemma StrayWords(mem: Bytes)
    requires |mem| > 13 && mem[..12] == STRAY && mem[12] == NUL
    ensures D.CStr(mem[0..3]) == SET && Strtoul(D.CStr(mem[10..13])) == 5
  {
    assert mem[0..3] == mem[..12][..3] == SET;
    assert mem[10..13] == [53, 92, 0];
    var five: Bytes := [53, 92];
    assert D.CStr([53, 92, 0]) == five;
    assert five[1..] == [92];
    assert Digits(five, 0) == Digits([92], 5) == 5;
  }

  // ----- what comes behind a finished request does not matter, nor how the bytes were cut up

  lemma {:induction false} FindMore(p: Bytes, c: byte, more: Bytes)
    ensures D.Find(p, c) < |p| ==> D.Find(p + more, c) == D.Find(p, c)
    ensures D.Find(p, c) == |p| ==> D.Find(p + more, c) == |p| + D.Find(more, c)
  {
    if p == [] {
      assert p + more == more;
    } else {
      assert (p + more)[1..] == p[1..] + more;
      FindMore(p[1..], c, more);
    }
  }

  /** Once a request is complete, or its line too long, further bytes change nothing. */
  lemma ProgressStable(p: Bytes, more: Bytes, cap: nat)
    requires Terminal(ProgressOf(p, cap))
    ensures ProgressOf(p + more, cap) == ProgressOf(p, cap)
  {
    FindMore(p, NEWLINE, more);
    hide D.Find, ReadingOf;
    var e := D.Find(p, NEWLINE);
    if e < cap {
      assert (p + more)[..e] == p[..e];
      assert (p + more)[e + 1..] == p[e + 1..] + more;
      LineMore(p, e, more);
    }
  }

  lemma LineMore(p: Bytes, e: nat, more: Bytes)
    requires e < |p|
    ensures LineOf(p + more, e) == LineOf(p, e)
  {
  }

  /** What a connection makes of pieces that arrive one after the other: it acts as soon as it can. */
  function Outcome(p: Bytes, chunks: seq<Bytes>, cap: nat): Progress
    decreases |chunks|
  {
    if Terminal(ProgressOf(p, cap)) || chunks == [] then ProgressOf(p, cap)
    else Outcome(p + chunks[0], chunks[1..], cap)
  }

  function Concat(chunks: seq<Bytes>): Bytes {
    if chunks == [] then [] else chunks[0] + Concat(chunks[1..])
  }

  /** Framing: the outcome depends on the bytes alone, not on the pieces they came in. */
  lemma {:induction false} AnySplit(p: Bytes, chunks: seq<Bytes>, cap: nat)
    ensures Outcome(p, chunks, cap) == ProgressOf(p + Concat(chunks), cap)
    decreases |chunks|
  {
    if Terminal(ProgressOf(p, cap)) {
      ProgressStable(p, Concat(chunks), cap);
    } else if chunks == [] {
      assert p + Concat([]) == p;
    } else {
      assert p + (chunks[0] + Concat(chunks[1..])) == (p + chunks[0]) + Concat(chunks[1..]);
      AnySplit(p + chunks[0], chunks[1..], cap);
    }
  }

  // ----- the connection

  lemma BodyMore(p: Bytes, more: Bytes, cap: nat)
    requires ProgressOf(p, cap).NeedBody?
    ensures var (line, size, have) := (ProgressOf(p, cap).line, ProgressOf(p, cap).size, ProgressOf(p, cap).have);
            && |have| < size && size >= 2
            && var got := have + more[..Min(|more|, size - |have|)];
               ProgressOf(p + more, cap)
               == if |got| == size then Ready(Request(line, got[..size - 2])) else NeedBody(line, size, got)
  {
    FindMore(p, NEWLINE, more);
    hide D.Find, ReadingOf;
    var e := D.Find(p, NEWLINE);
    assert (p + more)[e + 1..] == p[e + 1..] + more;
    LineMore(p, e, more);
    var size := ProgressOf(p, cap).size;
    TakeMore(p[e + 1..], more, size);
  }

  lemma TakeMore(a: Bytes, b: Bytes, n: nat)
    requires |a| < n
    ensures a[..Min(|a|, n)] == a
    ensures (a + b)[..Min(|a + b|, n)] == a + b[..Min(|b|, n - |a|)]
  {
  }

  lemma {:induction false} CStrStops(s: Bytes, n: nat)
    requires n < |s| && s[n] == NUL
    ensures D.CStr(s) == D.CStr(s[..n])
  {
    if n > 0 && s[0] != NUL {
      assert s[..n][1..] == s[1..][..n - 1];
      CStrStops(s[1..], n - 1);
    }
  }

  /** The string that starts at a token after the call of the tokenizer. */
  lemma StringAt(was: Bytes, now: Bytes, ts: seq<Token.Span>, from: nat, r: nat, i: nat)
    requires Token.Terminated(was, now, ts) && Token.Apart(ts, from, r) && i < |ts|
    ensures ts[i].from + ts[i].length < |was| == |now| && D.CStr(now[ts[i].from..]) == Word(was, ts, i)
  {
    Token.TokenKept(was, now, ts, from, r, i);
    var s := now[ts[i].from..];
    CStrStops(s, ts[i].length);
    assert s[..ts[i].length] == now[ts[i].from..ts[i].from + ts[i].length];
  }

  /** The reading of a line from the tokens that were stored and the memory that was cut up. */
  lemma ReadingFrom(was: Bytes, now: Bytes, tokens: seq<Token.Token>, ts: seq<Token.Span>, r: nat)
    requires Tokens(was) == Some((ts, r)) && Token.Terminated(was, now, ts) && Token.Stored(tokens, ts)
    ensures ts == [] ==> ReadingOf(was) == Plain
    ensures ts != [] ==>
              var at, nval := tokens[0].value, if |ts| == 5 then tokens[4].value else tokens[0].value;
              && at.Some? && at.value <= |now| && nval.Some? && nval.value <= |now|
              && ReadingOf(was)
                 == Understood(|ts|, D.CStr(now[at.value..]), if |ts| == 5 then D.CStr(now[nval.value..]) else [])
  {
    Token.ScanApart(was, 0, 0, false, MAX_TOKENS - 1);
    hide Token.ScanMemory, Token.Terminated, Token.Apart, D.CStr, Understood;
    if ts != [] { StringAt(was, now, ts, 0, r, 0); }
    if |ts| == 5 { StringAt(was, now, ts, 0, r, 4); }
  }

  /** Cutting up a line changes nothing behind it. */
  lemma EndsWithin(mem: Bytes, was: Bytes, now: Bytes, ts: seq<Token.Span>, r: nat)
    requires Tokens(mem) == Some((ts, r)) && Token.Terminated(was, now, ts) && |mem| <= |was|
    ensures |now| == |was| && forall j :: |mem| <= j < |was| ==> now[j] == was[j]
  {
    Token.ScanApart(mem, 0, 0, false, MAX_TOKENS - 1);
    hide Token.ScanMemory, Token.Terminated, Token.Apart;
    forall j | |mem| <= j < |was| ensures now[j] == was[j] {
      Token.BehindKept(was, now, ts, 0, r, j);
    }
    Token.SameLength(was, now, ts);
  }

  /** What has come so far, by where its first newline is. */
  lemma ProgressAt(q: Bytes, e: nat, cap: nat)
    requires e == D.Find(q, NEWLINE)
    ensures e >= cap ==> ProgressOf(q, cap) == TooLong
    ensures e == |q| < cap ==> ProgressOf(q, cap) == NeedLine
    ensures e < |q| && e < cap ==>
              var line := LineOf(q, e);
              match ReadingOf(line + [NUL])
              case Lost => ProgressOf(q, cap) == Astray(line)
              case Huge => ProgressOf(q, cap) == Oversized(line)
              case Quit => ProgressOf(q, cap) == Closed
              case Plain => ProgressOf(q, cap) == Ready(Request(line, []))
              case Storing(n) =>
                var have := q[e + 1..][..Min(|q| - e - 1, n + 2)];
                ProgressOf(q, cap) == if |have| == n + 2 then Ready(Request(line, have[..n]))
                                      else NeedBody(line, n + 2, have)
  {
    hide D.Find, ReadingOf;
  }

  lemma RestKept(now: Bytes, q: Bytes, end: nat, e: nat)
    requires end <= e < |q| <= |now| && forall j :: end < j < |q| ==> now[j] == q[j]
    ensures now[e + 1..|q|] == q[e + 1..]
  {
  }

  class Receiver {
    const reqHeader: array<byte>
    const tokens: array<Token.Token>
    var reqHeaderBytes: nat
    var reqBody: array<byte>
    var reqBodySize: nat
    var reqBodyBytes: nat
    var line: Bytes                  // the request line, as the tokens show it
    var state: ConnState

    ghost predicate Buffers()
      reads this
    {
      && reqHeader != reqBody && reqHeader as object != tokens && reqBody as object != tokens
      && tokens.Length == MAX_TOKENS
    }

    /** p has been received, and holds no whole line. */
    ghost predicate HoldsLine(p: Bytes)
      reads this, reqHeader
    {
      && Buffers() && state == Read && reqBodyBytes == 0
      && reqHeaderBytes == |p| < reqHeader.Length && reqHeader[..|p|] == p
    }

    /** The line l has been received, and have of the size bytes behind it. */
    ghost predicate HoldsBody(l: Bytes, size: nat, have: Bytes)
      reads this, reqBody
    {
      && Buffers() && state == NRead && line == l && reqBodySize == size >= 2
      && reqBodyBytes == |have| < size <= reqBody.Length && reqBody[..|have|] == have
    }

    /** p has been received since the last reply, and is not a whole request yet. */
    ghost predicate Holds(p: Bytes)
      reads this, reqHeader, reqBody
    {
      match ProgressOf(p, reqHeader.Length)
      case NeedLine => HoldsLine(p)
      case NeedBody(l, size, have) => HoldsBody(l, size, have)
      case _ => false
    }

    /** Ready for the next request, once the reply is out. */
    ghost predicate Cleared()
      reads this, reqHeader
    {
      state == Write && reqHeaderBytes == 0 && reqBodyBytes == 0 && Buffers()
    }

    constructor (size: nat)
      requires size > 0
      ensures Holds([]) && reqHeader.Length == size && fresh(reqHeader) && fresh(reqBody) && fresh(tokens)
    {
      reqHeader := new byte[size];
      tokens := new Token.Token[MAX_TOKENS](_ => Token.Token(None, 0));
      reqBody := new byte[0];
      reqHeaderBytes, reqBodySize, reqBodyBytes, line, state := 0, 0, 0, [], Read;
    }

    /** The receive loop of onRead, and the line if it is there; the first got bytes waiting were taken. */
    method OnRead(ghost p: Bytes, sock: Bytes) returns (out: Progress, rest: Bytes, ghost got: nat)
      requires Holds(p) && state == Read
      modifies this, reqHeader, reqBody, tokens
      ensures got <= |sock| && rest == sock[got..] && out == ProgressOf(p + sock[..got], reqHeader.Length)
      ensures out.NeedLine? ==> rest == []
      ensures !Terminal(out) ==> Holds(p + sock[..got])
      ensures out.NeedBody? ==> state == NRead
      ensures out.Ready? || out.TooLong? ==> Cleared()
      ensures out.Closed? ==> state == Close
      ensures reqBody == old(reqBody) || fresh(reqBody)
    {
      hide ProgressOf, D.Find, ReadingOf;
      HoldsInRead(p);
      var nn: nat;
      rest, nn := Fill(reqHeader, reqHeaderBytes, reqHeader.Length, sock);
      got := nn;
      reqHeaderBytes := reqHeaderBytes + nn;
      ghost var q := p + sock[..nn];
      assert reqHeader[..reqHeaderBytes] == q && reqHeader[0..reqHeaderBytes] == q;
      var e := D.Memchr(reqHeader, 0, reqHeaderBytes, NEWLINE);
      ProgressAt(q, e, reqHeader.Length);
      if e == reqHeaderBytes {
        if reqHeaderBytes == reqHeader.Length {
          reqHeaderBytes := 0;
          state := Write;
          return TooLong, rest, got;
        } else {
          return NeedLine, rest, got;
        }
      }
      out := TakeLine(q, e);
    }

    /** The part of onRead that follows once the newline is found at e. */
    method TakeLine(ghost q: Bytes, e: nat) returns (out: Progress)
      requires Buffers() && reqBodyBytes == 0 && e < reqHeaderBytes == |q| <= reqHeader.Length
      requires e == D.Find(q, NEWLINE) && reqHeader[..|q|] == q
      modifies this, reqHeader, reqBody, tokens
      ensures out == ProgressOf(q, reqHeader.Length) && !out.NeedLine?
      ensures !Terminal(out) ==> Holds(q) && state == NRead
      ensures out.Ready? || out.TooLong? ==> Cleared()
      ensures out.Closed? ==> state == Close
      ensures reqBody == old(reqBody) || fresh(reqBody)
    {
      hide ProgressOf, D.Find, ReadingOf;
      ProgressAt(q, e, reqHeader.Length);
      var end := if e > 1 && reqHeader[e - 1] == RETURN then e - 1 else e;
      line := reqHeader[..end];
      assert line == LineOf(q, e);
      reqHeader[end] := NUL;
      assert reqHeader[..end + 1] == line + [NUL];
      if Tokens(reqHeader[..end + 1]).None? {
        return Astray(line);
      }
      var reading := Interpret(end);
      match reading
      case Huge => out := Oversized(line);
      case Quit =>
        state := Close;
        out := Closed;
      case Plain =>
        out := Ready(Request(line, []));
        reqHeaderBytes := 0;
        state := Write;
      case Storing(nval) =>
        RestKept(reqHeader[..], q, end, e);
        out := StartBody(q, e, nval);
    }

    /** The part of onRead that splits the line and looks at its tokens; the line ends at end, and does not go
        astray. */
    method Interpret(end: nat) returns (reading: Reading)
      requires end < reqHeader.Length && Buffers() && Tokens(reqHeader[..end + 1]).Some?
      modifies reqHeader, tokens
      ensures reading == ReadingOf(old(reqHeader[..end + 1])) && !reading.Lost?
      ensures forall j :: end < j < reqHeader.Length ==> reqHeader[j] == old(reqHeader[j])
    {
      hide Token.ScanMemory, Token.Terminated, Token.Stored, D.CStr, Strtoul, ReadingOf;
      ghost var mem, was := reqHeader[..end + 1], reqHeader[..];
      assert was == mem + was[end + 1..];
      ReadingBehind(mem, was[end + 1..]);
      var ntokens := Token.Tokenize(reqHeader, tokens, MAX_TOKENS);
      ghost var (ts, r) := Tokens(was).value;
      ReadingFrom(was, reqHeader[..], tokens[..], ts, r);
      EndsWithin(mem, was, reqHeader[..], ts, r);
      if ntokens == 6 {
        if D.CStr(reqHeader[tokens[0].value.value..]) in {SET, ADD, REPLACE, PREPEND, APPEND} {
          var nval := Strtoul(D.CStr(reqHeader[tokens[4].value.value..]));
          return if nval + 2 < Counter.U64 then Storing(nval) else Huge;
        }
      } else if ntokens == 2 && D.CStr(reqHeader[tokens[0].value.value..]) == QUIT {
        return Quit;
      }
      return Plain;
    }

    /** The part of onRead that makes room for the body and copies what has come with the line. */
    method StartBody(ghost q: Bytes, e: nat, nval: nat) returns (out: Progress)
      requires Buffers() && reqBodyBytes == 0 && e < reqHeaderBytes == |q| <= reqHeader.Length
      requires reqHeader[e + 1..|q|] == q[e + 1..]
      requires e == D.Find(q, NEWLINE) && line == LineOf(q, e)
      requires ReadingOf(line + [NUL]) == Storing(nval)
      modifies this, reqBody
      ensures out == ProgressOf(q, reqHeader.Length) && (out.Ready? || out.NeedBody?)
      ensures if Terminal(out) then Cleared() else Holds(q) && state == NRead
      ensures reqBody == old(reqBody) || fresh(reqBody)
    {
      hide ProgressOf, D.Find, ReadingOf;
      ProgressAt(q, e, reqHeader.Length);
      if reqBody.Length < nval + 2 {
        reqBody := new byte[nval + 2];
      }
      reqBodySize := nval + 2;
      CopyBody(e + 1, q[e + 1..]);
      state := NRead;
      out := Complete(line, q[e + 1..][..Min(|q| - e - 1, nval + 2)]);
    }

    /** What has come with the line, as far as it belongs to the body. */
    method CopyBody(count: nat, ghost behind: Bytes)
      requires reqHeader != reqBody && count <= reqHeaderBytes <= reqHeader.Length && reqBodyBytes == 0
      requires reqHeader[count..reqHeaderBytes] == behind && reqBodySize <= reqBody.Length
      modifies this`reqBodyBytes, reqBody
      ensures reqBodyBytes == Min(|behind|, reqBodySize) && reqBody[..reqBodyBytes] == behind[..reqBodyBytes]
    {
      if reqHeaderBytes - count > 0 {
        reqBodyBytes := Min(reqHeaderBytes - count, reqBodySize);
        forall i | 0 <= i < reqBodyBytes { reqBody[i] := reqHeader[count + i]; }
      }
      forall i | 0 <= i < reqBodyBytes ensures reqBody[i] == behind[i] {
        assert reqHeader[count..reqHeaderBytes][i] == reqHeader[count + i];
      }
    }

    /** A body is complete, or waits for more. */
    method Complete(ghost l: Bytes, ghost have: Bytes) returns (out: Progress)
      requires Buffers() && state == NRead && line == l && reqBodySize >= 2
      requires reqBodyBytes == |have| <= reqBodySize <= reqBody.Length && reqBody[..|have|] == have
      modifies this
      ensures reqBody == old(reqBody)
      ensures if |have| == old(reqBodySize) then Cleared() && out == Ready(Request(l, have[..|have| - 2]))
              else HoldsBody(l, old(reqBodySize), have) && out == NeedBody(l, old(reqBodySize), have)
    {
      if reqBodyBytes == reqBodySize {
        var request := Execute();
        out := Ready(request);
      } else {
        out := NeedBody(line, reqBodySize, reqBody[..reqBodyBytes]);
      }
    }

    /** The request is complete: the command runs, and the byte counts start again. */
    method Execute() returns (request: Request)
      requires reqBodyBytes == reqBodySize && 2 <= reqBodySize <= reqBody.Length && Buffers()
      modifies this
      ensures Cleared() && reqBody == old(reqBody)
      ensures request == Request(old(line), old(reqBody[..reqBodySize][..reqBodySize - 2]))
    {
      request := Request(line, reqBody[..reqBodySize - 2]);
      assert reqBody[..reqBodySize - 2] == reqBody[..reqBodySize][..reqBodySize - 2];
      reqHeaderBytes, reqBodyBytes := 0, 0;
      state := Write;
    }

    /** onNRead. */
    method OnNRead(ghost p: Bytes, sock: Bytes) returns (out: Progress)
      requires Holds(p) && state == NRead
      modifies this, reqBody
      ensures out == ProgressOf(p + sock, reqHeader.Length) && (out.Ready? || out.NeedBody?)
      ensures if Terminal(out) then Cleared() else Holds(p + sock)
      ensures reqBody == old(reqBody)
    {
      hide ProgressOf;
      HoldsInNRead(p);
      BodyMore(p, sock, reqHeader.Length);
      ghost var have := reqBody[..reqBodyBytes];
      var _, nn := Fill(reqBody, reqBodyBytes, reqBodySize, sock);
      reqBodyBytes := reqBodyBytes + nn;
      out := Complete(line, have + sock[..nn]);
    }

    lemma HoldsInRead(p: Bytes)
      requires Holds(p) && state == Read
      ensures HoldsLine(p)
    {
      hide ProgressOf;
    }

    lemma HoldsInNRead(p: Bytes)
      requires Holds(p) && state == NRead
      ensures ProgressOf(p, reqHeader.Length) == NeedBody(line, reqBodySize, reqBody[..reqBodyBytes])
      ensures HoldsBody(line, reqBodySize, reqBody[..reqBodyBytes])
    {
      hide ProgressOf;
    }

    lemma StateTells(p: Bytes)
      requires Holds(p)
      ensures state == Read || state == NRead
    {
      hide ProgressOf;
    }

    /** driverMachine when sock is what has arrived since: afterwards the connection has seen p and sock as if
        they had come in one piece, and every byte count is within its buffer. */
    method Readable(ghost p: Bytes, sock: Bytes) returns (out: Progress)
      requires Holds(p)
      modifies this, reqHeader, reqBody, tokens
      ensures out == ProgressOf(p + sock, reqHeader.Length)
      ensures !Terminal(out) ==> Holds(p + sock)
      ensures out.Ready? || out.TooLong? ==> Cleared()
      ensures out.Closed? ==> state == Close
      ensures reqBody == old(reqBody) || fresh(reqBody)
    {
      StateTells(p);
      hide ProgressOf, Holds, Cleared;
      if state == Read {
        var rest: Bytes;
        ghost var got: nat;
        out, rest, got := OnRead(p, sock);
        ghost var q := p + sock[..got];
        assert q + rest == p + sock;
        if Terminal(out) {
          ProgressStable(q, rest, reqHeader.Length);
        } else if out.NeedBody? {
          out := OnNRead(q, rest);
        } else {
          assert q == p + sock;
        }
      } else {
        out := OnNRead(p, sock);
      }
    }
  }

  /** recv until the buffer is full or nothing is waiting; each call may deliver any part of what is. */
  method Fill(buf: array<byte>, from: nat, to: nat, sock: Bytes) returns (rest: Bytes, got: nat)
    requires from <= to <= buf.Length
    modifies buf
    ensures got == Min(|sock|, to - from) && rest == sock[got..]
    ensures buf[..from + got] == old(buf[..from]) + sock[..got]
  {
    rest, got := sock, 0;
    while from + got < to && rest != []
      invariant got <= |sock| && from + got <= to && rest == sock[got..]
      invariant buf[..from + got] == old(buf[..from]) + sock[..got]
      decreases |rest|
    {
      var room := to - from - got;
      var nn: nat :| 1 <= nn <= |rest| && nn <= room;
      ghost var was := buf[..from + got];
      forall i | 0 <= i < nn { buf[from + got + i] := rest[i]; }
      assert buf[..from + got] == was;
      assert buf[..from + got + nn] == was + rest[..nn];
      assert sock[..got + nn] == sock[..got] + rest[..nn];
      rest, got := rest[nn..], got + nn;
    }
  }
}
