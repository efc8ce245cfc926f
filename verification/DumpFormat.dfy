/** The dump file: its text, and what the buffered loader makes of any file. */
module DumpFormat {
  import opened Basics
  import Counter
  import opened Numbers

  datatype Record = Record(key: Bytes, val: Bytes)

  // ----- writing

  /** What %.*s writes: the bytes up to the first NUL. */
  function CStr(s: Bytes): (r: Bytes)
    ensures |r| <= |s| && NUL !in r
    ensures NUL !in s ==> r == s
  {
    if s == [] || s[0] == NUL then [] else [s[0]] + CStr(s[1..])
  }

  /** One line of the dump: both lengths, the key and the value. */
  function Text(r: Record): Bytes {
    Counter.Print(|r.key|) + [SPACE] + Counter.Print(|r.val|) + [SPACE]
    + CStr(r.key) + [SPACE] + CStr(r.val) + [NEWLINE]
  }

  function File(rs: seq<Record>): Bytes {
    if rs == [] then [] else Text(rs[0]) + File(rs[1..])
  }

  ghost predicate NulFree(rs: seq<Record>) {
    forall i :: 0 <= i < |rs| ==> NUL !in rs[i].key && NUL !in rs[i].val
  }

  /** The lengths fit the int that fprintf is given. */
  predicate Fits(r: Record) {
    IsCount(|r.key|) && IsCount(|r.val|)
  }

  ghost predicate AllFit(rs: seq<Record>) {
    forall i :: 0 <= i < |rs| ==> Fits(rs[i])
  }

  // ----- reading

  /** memchr: the index of the first c, or the length. */
  function Find(s: Bytes, c: byte): (i: nat)
    ensures i <= |s|
  {
    if s == [] || s[0] == c then 0 else Find(s[1..], c) + 1
  }

  /** memchr between two places of a buffer. */
  method Memchr(buffer: array<byte>, from: nat, to: nat, c: byte) returns (i: nat)
    requires from <= to <= buffer.Length
    ensures i == from + Find(buffer[from..to], c)
  {
    i := from;
    while i < to && buffer[i] != c
      invariant from <= i <= to
      invariant from + Find(buffer[from..to], c) == i + Find(buffer[i..to], c)
    {
      assert buffer[i..to][1..] == buffer[i + 1..to];
      i := i + 1;
    }
  }

  /** Wild: a number that atoi cannot return, or that is no length. */
  datatype Parsed = Partial | Parsed(r: Record, used: nat) | Wild

  /** One record at the start of the unread part of the buffer, if all of it is there. */
  function ParseRecord(buf: Bytes): (p: Parsed)
    ensures p.Parsed? ==> 0 < p.used <= |buf|
  {
    var sp := Find(buf, SPACE);
    if sp == |buf| || sp + 1 == |buf| then Partial else
    if !IsCount(ToNumber(buf[..sp])) then Wild else
    var rest := buf[sp + 1..];
    var sp2 := Find(rest, SPACE);
    if sp2 == |rest| || sp2 + 1 == |rest| then Partial else
    if !IsCount(ToNumber(rest[..sp2])) then Wild else
    ParseBody(ToNumber(buf[..sp]), ToNumber(rest[..sp2]), rest[sp2 + 1..], sp + sp2 + 2)
  }

  /** The key and the value behind the two numbers, which take up at bytes. */
  function ParseBody(nkey: nat, nval: nat, body: Bytes, at: nat): (p: Parsed)
    ensures !p.Wild? && (p.Parsed? ==> at < p.used <= at + |body|)
  {
    if nkey + 1 + nval + 1 > |body| then Partial
    else Parsed(Record(body[..nkey], body[nkey + 1..nkey + 1 + nval]), at + nkey + 1 + nval + 1)
  }

  /** The inner loop: as many whole records as the buffer holds, and how many bytes they take. */
  function ParseAll(buf: Bytes): (r: (seq<Record>, nat))
    ensures r.1 <= |buf|
    ensures r.1 == 0 <==> r.0 == []
    decreases |buf|
  {
    var p := ParseRecord(buf);
    if !p.Parsed? then ([], 0)
    else
      var (rs, n) := ParseAll(buf[p.used..]);
      ([p.r] + rs, p.used + n)
  }

  /** Every number the inner loop reads is a count. */
  predicate Tame(buf: Bytes)
    decreases |buf|
  {
    var p := ParseRecord(buf);
    !p.Wild? && (p.Parsed? ==> Tame(buf[p.used..]))
  }

  /** Undefined: the loop has read a number that is no count. */
  datatype Outcome = Complete | TooLarge | Undefined

  /** The outer loop: kept is what is left in the buffer from before, rest what the file still holds.  A
      buffer that was used up exactly stays where it is, so a full one leaves no room for the next read,
      which then reads nothing and ends the loop. */
  function LoadFrom(kept: Bytes, rest: Bytes, cap: nat): (seq<Record>, Outcome)
    requires |kept| <= cap
    decreases |rest|
  {
    var n := Min(cap - |kept|, |rest|);
    if n == 0 then ([], Complete)
    else
      var buf := kept + rest[..n];
      var (rs, used) := ParseAll(buf);
      if !Tame(buf) then ([], Undefined)
      else if used == 0 then ([], TooLarge)
      else
        var (more, outcome) := LoadFrom(if used == |buf| then buf else buf[used..], rest[n..], cap);
        (rs + more, outcome)
  }

  function LoadFile(file: Bytes, cap: nat): (seq<Record>, Outcome) {
    LoadFrom([], file, cap)
  }

  // ----- a whole record, and a part of one

  lemma {:induction false} FindFirst(pre: Bytes, c: byte, post: Bytes)
    requires c !in pre
    ensures Find(pre + [c] + post, c) == |pre|
  {
    if pre != [] {
      assert (pre + [c] + post)[1..] == pre[1..] + [c] + post;
      FindFirst(pre[1..], c, post);
    }
  }

  lemma {:induction false} FindAt(s: Bytes, c: byte, i: nat)
    requires i < |s| && s[i] == c && forall j :: 0 <= j < i ==> s[j] != c
    ensures Find(s, c) == i
  {
    if i > 0 { FindAt(s[1..], c, i - 1); }
  }

  lemma {:induction false} FindNone(s: Bytes, c: byte)
    requires c !in s
    ensures Find(s, c) == |s|
  {
    if s != [] { FindNone(s[1..], c); }
  }

  /** The key and value part of a line. */
  function Body(r: Record): (b: Bytes)
    ensures |b| == |r.key| + 1 + |r.val| + 1
  {
    r.key + [SPACE] + r.val + [NEWLINE]
  }

  lemma TextParts(r: Record)
    requires NUL !in r.key && NUL !in r.val
    ensures Text(r) == Counter.Print(|r.key|) + [SPACE] + (Counter.Print(|r.val|) + [SPACE] + Body(r))
    ensures |Text(r)| == |Counter.Print(|r.key|)| + 1 + |Counter.Print(|r.val|)| + 1 + |Body(r)|
  {
    hide Counter.Print;
  }

  lemma BodySlices(r: Record, tail: Bytes)
    ensures var body := Body(r) + tail;
            && body[..|r.key|] == r.key
            && body[|r.key| + 1..|r.key| + 1 + |r.val|] == r.val
  {
  }

  lemma Behind(a: Bytes, x: byte, b: Bytes)
    ensures var s := a + [x] + b; |s| == |a| + 1 + |b| && s[..|a|] == a && s[|a| + 1..] == b
  {
  }

  lemma Regroup(p1: Bytes, p2: Bytes, b: Bytes, tail: Bytes)
    ensures p1 + [SPACE] + (p2 + [SPACE] + b) + tail == p1 + [SPACE] + (p2 + [SPACE] + (b + tail))
  {
    calc {
      p1 + [SPACE] + (p2 + [SPACE] + b) + tail;
      { assert p1 + [SPACE] + (p2 + [SPACE] + b) + tail == p1 + [SPACE] + (p2 + [SPACE] + b + tail); }
      p1 + [SPACE] + (p2 + [SPACE] + b + tail);
      { assert p2 + [SPACE] + b + tail == p2 + [SPACE] + (b + tail); }
      p1 + [SPACE] + (p2 + [SPACE] + (b + tail));
    }
  }

  /** Two numbers, each ended by a space, and what follows. */
  lemma ParseNumbers(p1: Bytes, p2: Bytes, body: Bytes)
    requires SPACE !in p1 && SPACE !in p2 && IsCount(ToNumber(p1)) && IsCount(ToNumber(p2))
    ensures ParseRecord(p1 + [SPACE] + (p2 + [SPACE] + body))
         == ParseBody(ToNumber(p1), ToNumber(p2), body, |p1| + |p2| + 2)
  {
    hide Find, ToNumber, ParseBody, ParseRecord;
    var rest := p2 + [SPACE] + body;
    FindFirst(p1, SPACE, rest);
    FindFirst(p2, SPACE, body);
    Behind(p1, SPACE, rest);
    Behind(p2, SPACE, body);
    ParseAtSpaces(p1 + [SPACE] + rest, p1, rest, p2, body);
  }

  lemma ParseAtSpaces(buf: Bytes, p1: Bytes, rest: Bytes, p2: Bytes, body: Bytes)
    requires Find(buf, SPACE) == |p1| && |buf| == |p1| + 1 + |rest| && buf[..|p1|] == p1 && buf[|p1| + 1..] == rest
    requires Find(rest, SPACE) == |p2| && |rest| == |p2| + 1 + |body| && rest[..|p2|] == p2 && rest[|p2| + 1..] == body
    requires IsCount(ToNumber(p1)) && IsCount(ToNumber(p2))
    ensures ParseRecord(buf) == ParseBody(ToNumber(p1), ToNumber(p2), body, |p1| + |p2| + 2)
  {
    hide Find, ToNumber, ParseBody;
    if body == [] {
      assert ParseRecord(buf) == Partial;
      EmptyBody(ToNumber(p1), ToNumber(p2), |p1| + |p2| + 2);
    }
  }

  lemma EmptyBody(nkey: nat, nval: nat, at: nat)
    ensures ParseBody(nkey, nval, [], at) == Partial
  {
  }

  lemma ParseNoNumber(p1: Bytes)
    requires SPACE !in p1
    ensures ParseRecord(p1) == Partial
  {
    FindNone(p1, SPACE);
    hide Find, ToNumber, ParseBody;
  }

  /** One number only, and at most the start of a second one. */
  lemma ParseOneNumber(p1: Bytes, p2: Bytes)
    requires SPACE !in p1 && SPACE !in p2 && IsCount(ToNumber(p1))
    ensures ParseRecord(p1 + [SPACE] + p2) == Partial
  {
    FindFirst(p1, SPACE, p2);
    FindNone(p2, SPACE);
    hide Find, ToNumber, ParseBody;
    var buf := p1 + [SPACE] + p2;
    assert buf[|p1| + 1..] == p2 && buf[..|p1|] == p1;
  }

  /** A whole line parses back to its record, whatever follows it. */
  lemma ParseWhole(r: Record, tail: Bytes)
    requires NUL !in r.key && NUL !in r.val && Fits(r)
    ensures ParseRecord(Text(r) + tail) == Parsed(r, |Text(r)|)
  {
    TextParts(r);
    PrintedNumber(|r.key|);
    PrintedNumber(|r.val|);
    hide Counter.Print, ToNumber, Body, Text, ParseRecord, ParseBody;
    var p1, p2 := Counter.Print(|r.key|), Counter.Print(|r.val|);
    Regroup(p1, p2, Body(r), tail);
    ParseNumbers(p1, p2, Body(r) + tail);
    BodyParsed(r, tail, |p1| + |p2| + 2);
  }

  lemma BodyParsed(r: Record, tail: Bytes, at: nat)
    ensures ParseBody(|r.key|, |r.val|, Body(r) + tail, at) == Parsed(r, at + |Body(r)|)
  {
    BodySlices(r, tail);
    hide Body;
  }

  /** A line cut short never parses. */
  lemma ParsePart(r: Record, n: nat)
    requires NUL !in r.key && NUL !in r.val && Fits(r) && n < |Text(r)|
    ensures ParseRecord(Text(r)[..n]) == Partial
  {
    TextParts(r);
    var p1, p2 := Counter.Print(|r.key|), Counter.Print(|r.val|);
    PrintedNumber(|r.key|);
    PrintedNumber(|r.val|);
    var buf := Text(r)[..n];
    hide Counter.Print, ToNumber, Body, Text, ParseRecord;
    if n <= |p1| {
      assert buf == p1[..n];
      ParseNoNumber(p1[..n]);
    } else {
      var m := n - |p1| - 1;
      if m <= |p2| {
        assert buf == p1 + [SPACE] + p2[..m];
        ParseOneNumber(p1, p2[..m]);
      } else {
        var body := Body(r)[..m - |p2| - 1];
        assert buf == p1 + [SPACE] + (p2 + [SPACE] + body);
        ParseNumbers(p1, p2, body);
      }
    }
  }

  // ----- a fill of the buffer

  /** How many leading records lie wholly within the first room bytes. */
  function Whole(rs: seq<Record>, room: nat): (n: nat)
    ensures n <= |rs| && |File(rs[..n])| <= room
    ensures n < |rs| ==> |File(rs[..n])| + |Text(rs[n])| > room
  {
    if rs == [] || |Text(rs[0])| > room then
      assert rs[..0] == [];
      0
    else
      var n := Whole(rs[1..], room - |Text(rs[0])|);
      FileStep(rs, n);
      n + 1
  }

  lemma FileStep(rs: seq<Record>, n: nat)
    requires rs != [] && n <= |rs| - 1
    ensures File(rs[..n + 1]) == Text(rs[0]) + File(rs[1..][..n])
  {
    assert rs[..n + 1][0] == rs[0] && rs[..n + 1][1..] == rs[1..][..n];
  }

  lemma FileHead(rs: seq<Record>)
    requires rs != []
    ensures File(rs) == Text(rs[0]) + File(rs[1..])
  {
    hide Text;
  }

  lemma FileNone(rs: seq<Record>)
    ensures rs[..0] == [] && rs[0..] == rs && [] + File(rs) == File(rs) && File([]) == []
  {
    hide Text;
  }

  lemma Associate(a: Bytes, b: Bytes, c: Bytes)
    ensures a + (b + c) == (a + b) + c
  {
  }

  lemma DropMore(rs: seq<Record>, n: nat)
    requires 0 < n <= |rs|
    ensures rs[1..][n - 1..] == rs[n..]
  {
  }

  lemma {:induction false} FileSplit(rs: seq<Record>, n: nat)
    requires n <= |rs|
    ensures File(rs) == File(rs[..n]) + File(rs[n..])
  {
    hide Text, File;
    if n == 0 {
      FileNone(rs);
    } else {
      FileSplit(rs[1..], n - 1);
      FileStep(rs, n - 1);
      FileHead(rs);
      DropMore(rs, n);
      Associate(Text(rs[0]), File(rs[1..][..n - 1]), File(rs[n..]));
    }
  }

  lemma CutAcross(t: Bytes, more: Bytes, room: nat)
    requires |t| <= room <= |t| + |more|
    ensures (t + more)[..room] == t + more[..room - |t|]
    ensures (t + more)[..room][|t|..] == more[..room - |t|]
  {
  }

  lemma PrefixCons(rs: seq<Record>, n: nat)
    requires rs != [] && n <= |rs| - 1
    ensures rs[..n + 1] == [rs[0]] + rs[1..][..n]
  {
  }

  lemma ParseAllNone(buf: Bytes)
    requires ParseRecord(buf).Partial? || buf == []
    ensures ParseAll(buf) == ([], 0) && Tame(buf)
  {
    if buf == [] { ParseNoNumber(buf); }
    hide ParseRecord;
  }

  lemma ParseAllCons(buf: Bytes, r: Record, used: nat, rest: Bytes)
    requires ParseRecord(buf) == Parsed(r, used) && rest == buf[used..]
    ensures ParseAll(buf).0 == [r] + ParseAll(rest).0
    ensures ParseAll(buf).1 == used + ParseAll(rest).1
    ensures Tame(buf) == Tame(rest)
  {
    hide ParseRecord;
  }

  lemma ParseAllStep(r: Record, tail: Bytes)
    requires NUL !in r.key && NUL !in r.val && Fits(r)
    ensures var (rs, n) := ParseAll(tail); ParseAll(Text(r) + tail) == ([r] + rs, |Text(r)| + n)
    ensures Tame(Text(r) + tail) == Tame(tail)
  {
    hide Text, ParseRecord;
    ParseWhole(r, tail);
    var buf := Text(r) + tail;
    assert buf[|Text(r)|..] == tail;
  }

  lemma FillNone(r: Record, more: Bytes, room: nat)
    requires NUL !in r.key && NUL !in r.val && Fits(r) && room < |Text(r)|
    ensures room <= |Text(r) + more| && ParseAll((Text(r) + more)[..room]) == ([], 0)
    ensures Tame((Text(r) + more)[..room])
  {
    hide Text, ParseRecord;
    assert (Text(r) + more)[..room] == Text(r)[..room];
    ParsePart(r, room);
  }

  lemma FillSome(r: Record, more: Bytes, room: nat)
    requires NUL !in r.key && NUL !in r.val && Fits(r) && |Text(r)| <= room <= |Text(r) + more|
    ensures var (rs, n) := ParseAll(more[..room - |Text(r)|]);
            ParseAll((Text(r) + more)[..room]) == ([r] + rs, |Text(r)| + n)
    ensures Tame((Text(r) + more)[..room]) == Tame(more[..room - |Text(r)|])
  {
    hide Text, ParseAll;
    CutAcross(Text(r), more, room);
    ParseAllStep(r, more[..room - |Text(r)|]);
  }

  lemma NulFreeParts(rs: seq<Record>)
    requires NulFree(rs) && AllFit(rs) && rs != []
    ensures NUL !in rs[0].key && NUL !in rs[0].val && NulFree(rs[1..]) && Fits(rs[0]) && AllFit(rs[1..])
  {
  }

  lemma WholeStep(rs: seq<Record>, room: nat)
    requires rs != []
    ensures |Text(rs[0])| > room ==> Whole(rs, room) == 0
    ensures |Text(rs[0])| <= room ==> Whole(rs, room) == Whole(rs[1..], room - |Text(rs[0])|) + 1
    ensures File(rs) == Text(rs[0]) + File(rs[1..])
  {
    hide Text;
  }

  /** Parsing the first room bytes of a file yields exactly the records that are wholly there. */
  lemma {:induction false} ParseFill(rs: seq<Record>, room: nat)
    requires NulFree(rs) && AllFit(rs) && room <= |File(rs)|
    ensures var n := Whole(rs, room); ParseAll(File(rs)[..room]) == (rs[..n], |File(rs[..n])|)
    ensures Tame(File(rs)[..room])
    decreases |rs|
  {
    hide Text, ParseAll, Tame, File, Whole, NulFree, AllFit;
    if rs == [] {
      ParseFillEmpty(rs, room);
    } else {
      NulFreeParts(rs);
      WholeStep(rs, room);
      var t, more := Text(rs[0]), File(rs[1..]);
      if |t| > room {
        FillNone(rs[0], more, room);
        NoneWhole(rs);
      } else {
        var n := Whole(rs[1..], room - |t|);
        FileStep(rs, n);
        FillSome(rs[0], more, room);
        ParseFill(rs[1..], room - |t|);
        PrefixCons(rs, n);
      }
    }
  }

  lemma ParseFillEmpty(rs: seq<Record>, room: nat)
    requires rs == [] && room <= |File(rs)|
    ensures var n := Whole(rs, room); ParseAll(File(rs)[..room]) == (rs[..n], |File(rs[..n])|)
    ensures Tame(File(rs)[..room])
  {
    assert File(rs)[..0] == [] && rs[..0] == [];
  }

  lemma NoneWhole(rs: seq<Record>)
    ensures rs[..0] == [] && File(rs[..0]) == []
  {
  }

  // ----- loading what was dumped

  /** How many records of a dump a buffer of cap bytes takes in before the loop ends, from the lengths of
      the lines alone: it gives up at a line longer than the buffer, and stops unnoticed where a full
      buffer ends together with a line. */
  function Reached(rs: seq<Record>, cap: nat): (r: (nat, Outcome))
    ensures r.0 <= |rs|
    decreases |rs|
  {
    if rs == [] then (0, Complete)
    else
      var c := Whole(rs, cap);
      if c == 0 then (0, TooLarge)
      else if |File(rs[..c])| == cap then (c, Complete)
      else
        var (n, outcome) := Reached(rs[c..], cap);
        (c + n, outcome)
  }

  /** What the full buffer holds of a file that goes on. */
  lemma {:induction false} WholeCapped(rs: seq<Record>, cap: nat)
    ensures Whole(rs, cap) == Whole(rs, Min(cap, |File(rs)|))
    decreases |rs|
  {
    hide Text, Whole, File;
    var m := Min(cap, |File(rs)|);
    if rs == [] {
      NoneWhole(rs);
      WholeNone(cap);
      WholeNone(m);
    } else {
      var t := |Text(rs[0])|;
      WholeStep(rs, cap);
      WholeStep(rs, m);
      if t <= cap {
        WholeCapped(rs[1..], cap - t);
        MinMinus(cap, |File(rs[1..])|, t);
      }
    }
  }

  lemma WholeNone(room: nat)
    ensures Whole([], room) == 0
  {
  }

  lemma MinMinus(cap: nat, rest: nat, t: nat)
    requires t <= cap
    ensures t <= Min(cap, t + rest) && Min(cap, t + rest) - t == Min(cap - t, rest)
  {
  }

  lemma {:induction false} WholeAll(rs: seq<Record>)
    ensures Whole(rs, |File(rs)|) == |rs|
    decreases |rs|
  {
    if rs != [] {
      WholeStep(rs, |File(rs)|);
      hide Text, Whole, File;
      WholeAll(rs[1..]);
    }
  }

  lemma TextPositive(r: Record)
    ensures |Text(r)| > 0
  {
  }

  /** After the whole records are taken out, what stays in the buffer is less than one. */
  lemma LessThanOne(rs: seq<Record>, room: nat)
    requires room <= |File(rs)|
    ensures var c := Whole(rs, room);
            && |File(rs[..c])| <= room <= |File(rs[..c])| + |File(rs[c..])|
            && Whole(rs[c..], room - |File(rs[..c])|) == 0
            && File(rs) == File(rs[..c]) + File(rs[c..])
  {
    var c := Whole(rs, room);
    FileSplit(rs, c);
    hide Text, File;
    if c < |rs| {
      assert rs[c..][0] == rs[c];
    }
  }

  lemma NulFreeTail(rs: seq<Record>, c: nat)
    requires NulFree(rs) && AllFit(rs) && c <= |rs|
    ensures NulFree(rs[c..]) && AllFit(rs[c..])
  {
  }

  lemma Advance(a: Bytes, b: Bytes, m: nat, kept: Bytes, rest: Bytes)
    requires kept + rest == a + b && |kept| <= m <= |kept| + |rest| && |a| <= m
    ensures kept + rest[..m - |kept|] == (a + b)[..m]
    ensures (a + b)[..m][|a|..] + rest[m - |kept|..] == b
  {
    var s := kept + rest;
    assert kept + rest[..m - |kept|] == s[..m];
    assert rest[m - |kept|..] == s[m..];
    assert s[..m][|a|..] + s[m..] == s[|a|..];
  }

  /** The buffered loop, at any point where what it still has to parse is the dump of some records of which
      less than one is in the buffer. */
  lemma {:induction false} LoadLoop(rs: seq<Record>, kept: Bytes, rest: Bytes, cap: nat)
    requires NulFree(rs) && AllFit(rs) && kept + rest == File(rs) && |kept| < cap && Whole(rs, |kept|) == 0
    ensures LoadFrom(kept, rest, cap) == (rs[..Reached(rs, cap).0], Reached(rs, cap).1)
    decreases |rest|
  {
    hide Text, ParseAll, Tame, File, Whole, NulFree, AllFit, LoadFrom, Reached;
    var m := Min(cap, |File(rs)|);
    if rest == [] {
      assert kept + rest == kept;
      WholeAll(rs);
      LoadNothing(rs, kept, cap);
    } else {
      var c := Whole(rs, m);
      WholeCapped(rs, cap);
      ParseFill(rs, m);
      LessThanOne(rs, m);
      var a, b := File(rs[..c]), File(rs[c..]);
      Advance(a, b, m, kept, rest);
      var buf := (a + b)[..m];
      if c == 0 {
        LoadStuck(rs, kept, rest, cap, buf);
      } else if |a| == m {
        LoadUsedUp(rs, kept, rest, cap, buf, c);
      } else {
        NulFreeTail(rs, c);
        LoadLoop(rs[c..], buf[|a|..], rest[m - |kept|..], cap);
        LoadOn(rs, kept, rest, cap, m - |kept|, buf, c);
      }
    }
  }

  lemma LoadNothing(rs: seq<Record>, kept: Bytes, cap: nat)
    requires rs == [] && |kept| <= cap
    ensures LoadFrom(kept, [], cap) == (rs[..Reached(rs, cap).0], Reached(rs, cap).1)
  {
    assert rs[..0] == [];
  }

  lemma EmptyFile(rs: seq<Record>)
    ensures File(rs) == [] <==> rs == []
  {
    hide Text;
    if rs != [] { TextPositive(rs[0]); }
  }

  lemma LoadStuck(rs: seq<Record>, kept: Bytes, rest: Bytes, cap: nat, buf: Bytes)
    requires rest != [] && |kept| < cap && |kept| + |rest| == |File(rs)| && Whole(rs, cap) == 0
    requires buf == kept + rest[..Min(cap, |kept| + |rest|) - |kept|] && ParseAll(buf).1 == 0
    requires Tame(buf)
    ensures LoadFrom(kept, rest, cap) == (rs[..Reached(rs, cap).0], Reached(rs, cap).1)
  {
    EmptyFile(rs);
    assert Min(cap - |kept|, |rest|) == Min(cap, |kept| + |rest|) - |kept|;
    assert rs[..0] == [];
    hide ParseAll, Tame, File, Whole;
  }

  lemma LoadStep(kept: Bytes, rest: Bytes, cap: nat, n: nat, buf: Bytes, got: seq<Record>, used: nat)
    requires |kept| < cap && rest != [] && n == Min(cap - |kept|, |rest|)
    requires buf == kept + rest[..n] && ParseAll(buf) == (got, used) && used > 0 && Tame(buf)
    ensures |buf| <= cap
    ensures var (more, outcome) := LoadFrom(if used == |buf| then buf else buf[used..], rest[n..], cap);
            LoadFrom(kept, rest, cap) == (got + more, outcome)
  {
    hide ParseAll;
  }

  lemma LoadEnd(kept: Bytes, rest: Bytes, cap: nat)
    requires |kept| <= cap && (|kept| == cap || rest == [])
    ensures LoadFrom(kept, rest, cap) == ([], Complete)
  {
  }

  lemma ReachedStep(rs: seq<Record>, cap: nat, c: nat)
    requires 0 < c <= |rs| && c == Whole(rs, cap)
    ensures |File(rs[..c])| == cap || rs[c..] == [] ==> Reached(rs, cap) == (c, Complete)
    ensures |File(rs[..c])| != cap ==> Reached(rs, cap) == (c + Reached(rs[c..], cap).0, Reached(rs[c..], cap).1)
  {
    hide File, Text, Whole;
  }

  /** A buffer used up exactly stays in place: full, it leaves no room, and the loop ends. */
  lemma LoadUsedUp(rs: seq<Record>, kept: Bytes, rest: Bytes, cap: nat, buf: Bytes, c: nat)
    requires 0 < c <= |rs| && c == Whole(rs, cap)
    requires rest != [] && |kept| < cap && |kept| + |rest| == |File(rs)| == |File(rs[..c])| + |File(rs[c..])|
    requires buf == kept + rest[..Min(cap - |kept|, |rest|)]
    requires ParseAll(buf) == (rs[..c], |File(rs[..c])|) && |File(rs[..c])| == |buf| && Tame(buf)
    ensures LoadFrom(kept, rest, cap) == (rs[..Reached(rs, cap).0], Reached(rs, cap).1)
  {
    EmptyFile(rs[c..]);
    EmptyFile(rs[..c]);
    ReachedStep(rs, cap, c);
    hide ParseAll, Tame, File, Whole, Text, LoadFrom, Reached;
    var n := Min(cap - |kept|, |rest|);
    LoadStep(kept, rest, cap, n, buf, rs[..c], |buf|);
    LoadEnd(buf, rest[n..], cap);
    assert rs[..c] + [] == rs[..c];
  }

  lemma LoadOn(rs: seq<Record>, kept: Bytes, rest: Bytes, cap: nat, n: nat, buf: Bytes, c: nat)
    requires 0 < c <= |rs| && c == Whole(rs, cap)
    requires rest != [] && |kept| < cap && n == Min(cap - |kept|, |rest|) && |File(rs[..c])| < |buf| <= cap
    requires buf == kept + rest[..n]
    requires ParseAll(buf) == (rs[..c], |File(rs[..c])|) && Tame(buf)
    requires LoadFrom(buf[|File(rs[..c])|..], rest[n..], cap)
          == (rs[c..][..Reached(rs[c..], cap).0], Reached(rs[c..], cap).1)
    ensures LoadFrom(kept, rest, cap) == (rs[..Reached(rs, cap).0], Reached(rs, cap).1)
  {
    hide *;
    EmptyFile(rs[..c]);
    ReachedStep(rs, cap, c);
    var used := |File(rs[..c])|;
    LoadStep(kept, rest, cap, n, buf, rs[..c], used);
    TakeMore(rs, c, Reached(rs[c..], cap).0);
  }

  lemma TakeMore(rs: seq<Record>, c: nat, r: nat)
    requires c + r <= |rs|
    ensures rs[..c] + rs[c..][..r] == rs[..c + r]
  {
  }

  /** Loading the dump of any NUL-free records gives back the records reached, in order. */
  lemma LoadExact(rs: seq<Record>, cap: nat)
    requires NulFree(rs) && AllFit(rs) && cap > 0
    ensures LoadFile(File(rs), cap) == (rs[..Reached(rs, cap).0], Reached(rs, cap).1)
  {
    hide LoadFrom, Reached, NulFree;
    assert Whole(rs, 0) == 0 by { hide Text; if rs != [] { TextPositive(rs[0]); } }
    assert [] + File(rs) == File(rs);
    LoadLoop(rs, [], File(rs), cap);
  }

  /** Some fill of the buffer other than the last ends exactly where a line ends. */
  predicate EndsOnBoundary(rs: seq<Record>, cap: nat)
    decreases |rs|
  {
    var c := Whole(rs, cap);
    0 < c < |rs| && (|File(rs[..c])| == cap || EndsOnBoundary(rs[c..], cap))
  }

  ghost predicate LinesFit(rs: seq<Record>, cap: nat) {
    forall i :: 0 <= i < |rs| ==> |Text(rs[i])| <= cap
  }

  lemma {:induction false} ReachedAllIff(rs: seq<Record>, cap: nat)
    ensures Reached(rs, cap) == (|rs|, Complete) <==> LinesFit(rs, cap) && !EndsOnBoundary(rs, cap)
    decreases |rs|
  {
    hide *;
    var c := Whole(rs, cap);
    if c == 0 {
      ReachedNone(rs, cap);
    } else {
      ReachedStep(rs, cap, c);
      ReachedAllIff(rs[c..], cap);
      WholeFit(rs, cap);
      FitSplit(rs, cap, c);
      BoundaryStep(rs, cap, c);
      if c == |rs| { assert rs[..c] == rs; }
    }
  }

  lemma ReachedNone(rs: seq<Record>, cap: nat)
    requires Whole(rs, cap) == 0
    ensures Reached(rs, cap) == (|rs|, Complete) <==> LinesFit(rs, cap) && !EndsOnBoundary(rs, cap)
  {
    hide Text, File;
  }

  lemma BoundaryStep(rs: seq<Record>, cap: nat, c: nat)
    requires c == Whole(rs, cap) > 0
    ensures EndsOnBoundary(rs, cap) <==> c < |rs| && (|File(rs[..c])| == cap || EndsOnBoundary(rs[c..], cap))
    ensures c == |rs| ==> rs[c..] == [] && !EndsOnBoundary(rs[c..], cap)
  {
    hide File, Text;
  }

  lemma FitSplit(rs: seq<Record>, cap: nat, c: nat)
    requires c <= |rs|
    ensures LinesFit(rs, cap) <==> LinesFit(rs[..c], cap) && LinesFit(rs[c..], cap)
  {
    hide Text;
    forall i | c <= i < |rs| ensures rs[i] == rs[c..][i - c] {}
  }

  lemma FitCons(rs: seq<Record>, c: nat, room: nat, cap: nat)
    requires rs != [] && c <= |rs[1..]| && LinesFit(rs[1..][..c], room) && room <= cap && |Text(rs[0])| <= cap
    ensures LinesFit(rs[..c + 1], cap)
  {
    hide Text;
    PrefixCons(rs, c);
  }

  lemma {:induction false} WholeFit(rs: seq<Record>, cap: nat)
    ensures LinesFit(rs[..Whole(rs, cap)], cap)
    decreases |rs|
  {
    hide Text, Whole, File;
    var c := Whole(rs, cap);
    if c > 0 {
      WholeStep(rs, cap);
      WholeFit(rs[1..], cap - |Text(rs[0])|);
      hide LinesFit;
      FitCons(rs, c - 1, cap - |Text(rs[0])|, cap);
    }
  }

  // ----- no NUL is ever loaded

  lemma {:induction false} FileNulFree(rs: seq<Record>)
    ensures NUL !in File(rs)
  {
    if rs != [] {
      TextNulFree(rs[0]);
      FileNulFree(rs[1..]);
      hide Text;
    }
  }

  lemma TextNulFree(r: Record)
    ensures NUL !in Text(r)
  {
    assert !Counter.IsDigit(NUL);
    hide Counter.Print, CStr;
  }

  lemma {:induction false} ParseAllNulFree(buf: Bytes)
    requires NUL !in buf
    ensures NulFree(ParseAll(buf).0)
    decreases |buf|
  {
    var p := ParseRecord(buf);
    if p.Parsed? {
      ParseRecordNulFree(buf);
      hide ParseRecord;
      ParseAllNulFree(buf[p.used..]);
    }
  }

  lemma ParseRecordNulFree(buf: Bytes)
    requires NUL !in buf && ParseRecord(buf).Parsed?
    ensures NUL !in ParseRecord(buf).r.key && NUL !in ParseRecord(buf).r.val
  {
    hide Find, ToNumber;
  }

  lemma {:induction false} LoadNulFree(kept: Bytes, rest: Bytes, cap: nat)
    requires |kept| <= cap && NUL !in kept && NUL !in rest
    ensures NulFree(LoadFrom(kept, rest, cap).0)
    decreases |rest|
  {
    var n := Min(cap - |kept|, |rest|);
    if n > 0 {
      var buf := kept + rest[..n];
      ParseAllNulFree(buf);
      hide ParseAll;
      var used := ParseAll(buf).1;
      LoadNulFree(if used == |buf| then buf else buf[used..], rest[n..], cap);
    }
  }

  /** Loading a dump gives back all of its records exactly when none holds a NUL, no line is longer than
      the buffer, and no fill of the buffer but the last ends with the end of a line. */
  lemma LoadIff(rs: seq<Record>, cap: nat)
    requires cap > 0 && AllFit(rs)
    ensures LoadFile(File(rs), cap) == (rs, Complete)
       <==> NulFree(rs) && LinesFit(rs, cap) && !EndsOnBoundary(rs, cap)
  {
    FileNulFree(rs);
    LoadNulFree([], File(rs), cap);
    if NulFree(rs) {
      LoadExact(rs, cap);
      ReachedAllIff(rs, cap);
      assert rs[..|rs|] == rs;
    }
    hide File, LoadFrom, Reached, LinesFit, EndsOnBoundary;
  }

  // ----- the boundary case happens

  /** Lines that fill the buffer exactly are loaded, and everything behind them is dropped unnoticed. */
  lemma BoundaryStops(rs: seq<Record>, more: seq<Record>, cap: nat)
    requires NulFree(rs + more) && AllFit(rs + more) && rs != [] && cap > 0 && |File(rs)| == cap
    ensures LoadFile(File(rs + more), cap) == (rs, Complete)
  {
    WholeExact(rs, more);
    assert (rs + more)[..|rs|] == rs;
    LoadExact(rs + more, cap);
    ReachedStep(rs + more, cap, |rs|);
  }

  lemma {:induction false} WholeExact(rs: seq<Record>, more: seq<Record>)
    ensures Whole(rs + more, |File(rs)|) == |rs|
    decreases |rs|
  {
    if rs == [] {
      assert rs + more == more;
      if more != [] { TextPositive(more[0]); }
    } else {
      assert (rs + more)[1..] == rs[1..] + more;
      WholeStep(rs + more, |File(rs)|);
      hide Whole, Text;
      WholeExact(rs[1..], more);
    }
  }

  const BUFFER_SIZE: nat := 1024 * 1024 + 1024
}
