/** Linked lists threaded through arrays of relative addresses, described by ghost sequences.

    An address is a byte offset from the start of the mapping; 0 is the null address.  A list is
    described by the sequence of the addresses on it, front to back.  Everything here is pure: the
    store applies these lemmas to the contents of its arrays. */
module Lists {

  type Addr = nat

  ghost predicate NoDup<T>(s: seq<T>) {
    forall i, j :: 0 <= i < j < |s| ==> s[i] != s[j]
  }

  /** The i-th address of a list, null off either end. */
  function At(s: seq<Addr>, i: int): Addr {
    if 0 <= i < |s| then s[i] else 0
  }

  /** s without its first occurrence of x. */
  function Without<T(==)>(s: seq<T>, x: T): (r: seq<T>) {
    if s == [] then [] else if s[0] == x then s[1..] else [s[0]] + Without(s[1..], x)
  }

  lemma {:induction false} WithoutAt<T>(s: seq<T>, i: nat)
    requires i < |s| && NoDup(s)
    ensures Without(s, s[i]) == s[..i] + s[i + 1..]
  {
    if i == 0 {
    } else {
      assert s[1..][i - 1] == s[i];
      WithoutAt(s[1..], i - 1);
      assert s[1..][..i - 1] == s[1..i];
      assert [s[0]] + s[1..i] == s[..i];
      assert s[1..][i..] == s[i + 1..];
      assert [s[0]] + (s[1..i] + s[i + 1..]) == s[..i] + s[i + 1..];
    }
  }

  /** r is what is left of s when the i-th element is taken out. */
  ghost predicate Cut<T>(s: seq<T>, i: nat, r: seq<T>) {
    && i < |s| == |r| + 1
    && (forall j {:trigger r[j]} :: 0 <= j < |r| ==> r[j] == if j < i then s[j] else s[j + 1])
  }

  lemma CutNoDup<T>(s: seq<T>, i: nat, r: seq<T>)
    requires NoDup(s) && Cut(s, i, r)
    ensures NoDup(r)
  {
  }

  lemma CutSlices<T>(s: seq<T>, i: nat)
    requires i < |s|
    ensures Cut(s, i, s[..i] + s[i + 1..])
  {
  }

  lemma WithoutCut<T>(s: seq<T>, i: nat)
    requires i < |s| && NoDup(s)
    ensures Cut(s, i, Without(s, s[i])) && NoDup(Without(s, s[i]))
  {
    hide Without, Cut, NoDup;
    CutSlices(s, i);
    WithoutAt(s, i);
    CutNoDup(s, i, Without(s, s[i]));
  }

  lemma ConsNoDup<T>(x: T, s: seq<T>)
    requires NoDup(s) && x !in s
    ensures NoDup([x] + s)
  {
    var r := [x] + s;
    assert forall i :: 0 < i < |r| ==> r[i] == s[i - 1];
  }

  lemma {:induction false} WithoutAbsent<T>(s: seq<T>, x: T)
    requires x !in s
    ensures Without(s, x) == s
  {
    if s != [] {
      WithoutAbsent(s[1..], x);
      assert [s[0]] + s[1..] == s;
    }
  }

  /** Removing x from a duplicate-free list removes exactly x. */
  lemma WithoutMembers<T>(s: seq<T>, x: T)
    requires NoDup(s)
    ensures NoDup(Without(s, x))
    ensures forall y :: y in Without(s, x) <==> y in s && y != x
    ensures |Without(s, x)| == if x in s then |s| - 1 else |s|
  {
    if x in s {
      var i :| 0 <= i < |s| && s[i] == x;
      WithoutCut(s, i);
      var r := Without(s, x);
      forall y | y in s && y != x ensures y in r {
        var j :| 0 <= j < |s| && s[j] == y;
        assert r[if j < i then j else j - 1] == y;
      }
    } else {
      WithoutAbsent(s, x);
    }
  }

  // ----- singly linked lists: free lists (through next) and bucket chains (through h_next)

  ghost predicate SList(next: seq<Addr>, head: Addr, s: seq<Addr>) {
    && NoDup(s)
    && (forall i :: 0 <= i < |s| ==> 0 < s[i] < |next|)
    && head == At(s, 0)
    && (forall i {:trigger next[s[i]]} :: 0 <= i < |s| ==> next[s[i]] == At(s, i + 1))
  }

  lemma SListPush(next: seq<Addr>, head: Addr, s: seq<Addr>, a: Addr)
    requires SList(next, head, s) && 0 < a < |next| && a !in s
    ensures SList(next[a := head], a, [a] + s)
  {
    var s' := [a] + s;
    assert forall i :: 0 < i < |s'| ==> s'[i] == s[i - 1];
  }

  lemma SListPop(next: seq<Addr>, head: Addr, s: seq<Addr>)
    requires SList(next, head, s) && s != []
    ensures SList(next, next[head], s[1..])
  {
  }

  /** Splicing a out of a chain through the slot that points to it: the slot is the bucket itself
      when a comes first, otherwise the h_next field of its predecessor. */
  lemma SListCut(next: seq<Addr>, head: Addr, s: seq<Addr>, i: nat, r: seq<Addr>)
    requires SList(next, head, s) && Cut(s, i, r) && NoDup(r)
    ensures i == 0 ==> SList(next[s[i] := 0], next[s[i]], r)
    ensures i > 0 ==> SList(next[s[i] := 0][s[i - 1] := next[s[i]]], head, r)
  {
    var next' := if i == 0 then next[s[i] := 0] else next[s[i] := 0][s[i - 1] := next[s[i]]];
    forall j | 0 <= j < |r| ensures next'[r[j]] == At(r, j + 1) {
      var j' := if j < i then j else j + 1;
      assert r[j] == s[j'] && s[j'] != s[i];
      if j == i - 1 {
      } else {
        assert i > 0 ==> s[j'] != s[i - 1];
        assert next'[s[j']] == next[s[j']] == At(s, j' + 1);
      }
    }
  }

  /** A list does not see changes to cells that are not on it. */
  lemma SListFrame(next: seq<Addr>, next': seq<Addr>, head: Addr, s: seq<Addr>)
    requires SList(next, head, s) && |next'| == |next|
    requires forall i :: 0 <= i < |s| ==> next'[s[i]] == next[s[i]]
    ensures SList(next', head, s)
  {
  }

  // ----- doubly linked lists: the LRU list of a size class

  ghost predicate DList(next: seq<Addr>, prev: seq<Addr>, head: Addr, tail: Addr, s: seq<Addr>) {
    && |prev| == |next|
    && SList(next, head, s)
    && tail == At(s, |s| - 1)
    && (forall i {:trigger prev[s[i]]} :: 0 <= i < |s| ==> prev[s[i]] == At(s, i - 1))
  }

  /** Linking a in front of a list, as item_link does. */
  lemma DListPush(next: seq<Addr>, prev: seq<Addr>, head: Addr, tail: Addr, s: seq<Addr>, a: Addr)
    requires DList(next, prev, head, tail, s) && 0 < a < |next| && a !in s
    ensures DList(next[a := head],
                  if head != 0 then prev[a := 0][head := a] else prev[a := 0],
                  a, if tail == 0 then a else tail, [a] + s)
  {
    SListPush(next, head, s, a);
    var s' := [a] + s;
    assert forall i :: 0 < i < |s'| ==> s'[i] == s[i - 1];
  }

  /** The next fields after unlinking the i-th element, as item_unlink does it. */
  lemma CutNext(next: seq<Addr>, head: Addr, s: seq<Addr>, i: nat, r: seq<Addr>)
    requires SList(next, head, s) && Cut(s, i, r) && NoDup(r)
    ensures SList(if i > 0 then next[s[i - 1] := next[s[i]]] else next,
                  if i > 0 then head else next[s[i]], r)
  {
    var next' := if i > 0 then next[s[i - 1] := next[s[i]]] else next;
    forall j | 0 <= j < |r| ensures next'[r[j]] == At(r, j + 1) {
      var j' := if j < i then j else j + 1;
      assert r[j] == s[j'] && next[s[j']] == At(s, j' + 1);
      assert j' != i - 1 && i > 0 ==> s[j'] != s[i - 1];
    }
  }

  /** The prev fields after unlinking the i-th element. */
  lemma CutPrev(prev: seq<Addr>, s: seq<Addr>, i: nat, r: seq<Addr>, prev': seq<Addr>)
    requires NoDup(s) && Cut(s, i, r)
    requires forall j :: 0 <= j < |s| ==> 0 < s[j] < |prev|
    requires forall j {:trigger prev[s[j]]} :: 0 <= j < |s| ==> prev[s[j]] == At(s, j - 1)
    requires prev' == if i + 1 < |s| then prev[s[i + 1] := prev[s[i]]] else prev
    ensures forall j {:trigger prev'[r[j]]} :: 0 <= j < |r| ==> prev'[r[j]] == At(r, j - 1)
  {
    forall j | 0 <= j < |r| ensures prev'[r[j]] == At(r, j - 1) {
      var j' := if j < i then j else j + 1;
      assert r[j] == s[j'] && prev[s[j']] == At(s, j' - 1);
      assert j' != i + 1 && i + 1 < |s| ==> s[j'] != s[i + 1];
    }
  }

  /** Unlinking the i-th element, as item_unlink does. */
  lemma DListCut(next: seq<Addr>, prev: seq<Addr>, head: Addr, tail: Addr, s: seq<Addr>, i: nat, r: seq<Addr>)
    requires DList(next, prev, head, tail, s) && Cut(s, i, r) && NoDup(r)
    ensures var a := s[i];
            DList(if prev[a] != 0 then next[prev[a] := next[a]] else next,
                  if next[a] != 0 then prev[next[a] := prev[a]] else prev,
                  if head == a then next[a] else head,
                  if tail == a then prev[a] else tail,
                  r)
  {
    var a := s[i];
    CutNext(next, head, s, i, r);
    CutPrev(prev, s, i, r, if next[a] != 0 then prev[next[a] := prev[a]] else prev);
    assert head == a <==> i == 0;
    assert tail == a <==> i == |s| - 1;
  }

  lemma DListFrame(next: seq<Addr>, prev: seq<Addr>, next': seq<Addr>, prev': seq<Addr>,
                   head: Addr, tail: Addr, s: seq<Addr>)
    requires DList(next, prev, head, tail, s) && |next'| == |prev'| == |next|
    requires forall i :: 0 <= i < |s| ==> next'[s[i]] == next[s[i]] && prev'[s[i]] == prev[s[i]]
    ensures DList(next', prev', head, tail, s)
  {
  }

  // ----- families of lists that partition a set

  function Total<T>(ls: seq<seq<T>>): nat {
    if ls == [] then 0 else Total(ls[..|ls| - 1]) + |ls[|ls| - 1]|
  }

  ghost function Elements<T>(s: seq<T>): set<T> {
    set x | x in s
  }

  lemma ElementsSnoc<T>(s: seq<T>, x: T)
    ensures Elements(s + [x]) == Elements(s) + {x}
  {
    forall y ensures y in s + [x] <==> y in s || y == x {
      if y in s { var i :| 0 <= i < |s| && s[i] == y; assert (s + [x])[i] == y; }
      if y == x { assert (s + [x])[|s|] == y; }
    }
  }

  lemma SplitLast<T>(l: seq<T>)
    requires l != [] && NoDup(l)
    ensures var init, x := l[..|l| - 1], l[|l| - 1]; l == init + [x] && NoDup(init) && x !in init
  {
  }

  lemma {:induction false} NoDupCard<T>(l: seq<T>)
    requires NoDup(l)
    ensures |Elements(l)| == |l|
    decreases |l|
  {
    if l != [] {
      SplitLast(l);
      var init, x := l[..|l| - 1], l[|l| - 1];
      hide NoDup;
      NoDupCard(init);
      ElementsSnoc(init, x);
    }
  }

  /** Duplicate-free lists that split the keys of a map among them. */
  ghost predicate Partition<T(!new)>(ls: seq<seq<T>>, owner: map<T, nat>) {
    && (forall i :: 0 <= i < |ls| ==> NoDup(ls[i]))
    && (forall x :: x in owner ==> owner[x] < |ls|)
    && (forall i, x {:trigger x in ls[i]} :: 0 <= i < |ls| ==> (x in ls[i] <==> x in owner && owner[x] == i))
  }

  lemma PartitionInit<T(!new)>(ls: seq<seq<T>>, owner: map<T, nat>)
    requires Partition(ls, owner) && ls != []
    ensures Partition(ls[..|ls| - 1], owner - Elements(ls[|ls| - 1])) && NoDup(ls[|ls| - 1])
    ensures forall x :: x in Elements(ls[|ls| - 1]) ==> x in owner
  {
    hide NoDup;
    var last, init := |ls| - 1, ls[..|ls| - 1];
    var rest := owner - Elements(ls[last]);
    forall i, x | 0 <= i < last ensures x in init[i] <==> x in rest && rest[x] == i {
      assert x in ls[i] <==> x in owner && owner[x] == i;
      assert x in ls[last] <==> x in owner && owner[x] == last;
    }
    forall x | x in rest ensures rest[x] < last {
      assert x in ls[owner[x]];
    }
  }

  lemma LessKeys<T>(m: map<T, nat>, s: set<T>)
    requires forall x :: x in s ==> x in m
    ensures |m| == |m - s| + |s|
  {
    assert m.Keys == (m - s).Keys + s;
    assert |m| == |m.Keys| && |m - s| == |(m - s).Keys|;
  }

  /** They have as many elements as the map. */
  lemma {:induction false} PartitionTotal<T(!new)>(ls: seq<seq<T>>, owner: map<T, nat>)
    requires Partition(ls, owner)
    ensures Total(ls) == |owner|
    decreases |ls|
  {
    if ls == [] {
      assert owner == map[];
    } else {
      hide Partition, NoDup;
      PartitionInit(ls, owner);
      var l := ls[|ls| - 1];
      PartitionTotal(ls[..|ls| - 1], owner - Elements(l));
      NoDupCard(l);
      LessKeys(owner, Elements(l));
    }
  }
}
