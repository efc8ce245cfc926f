/** Where the sections of the mapped area lie. */
module Layout {
  import opened Slabs

  const VERSION_SIZE: nat := 4
  const POINTER_SIZE: nat := 8
  const SLAB_SIZE: nat := 24       // sizeof(shmc_slab_t)

  /** The sizes of structures that other headers define. */
  datatype Platform = Platform(attrSize: nat, rwlockSize: nat, mutexSize: nat)

  datatype Section = Section(start: nat, length: nat)

  /** The lengths of version, attributes, locks, LRU heads and tails, buckets, slab table and raw memory. */
  function Lengths(p: Platform, attr: Attr, slabsCount: nat): seq<nat> {
    [VERSION_SIZE, p.attrSize, p.rwlockSize, p.mutexSize, POINTER_SIZE * slabsCount, POINTER_SIZE * slabsCount,
     POINTER_SIZE * attr.nbuckets, SLAB_SIZE * slabsCount, attr.memLimit]
  }

  function Sum(lengths: seq<nat>): nat {
    if lengths == [] then 0 else lengths[0] + Sum(lengths[1..])
  }

  /** Sections one behind the other from a given offset on. */
  predicate Tiles(sections: seq<Section>, lengths: seq<nat>, from: nat) {
    && |sections| == |lengths|
    && (lengths != [] ==>
          sections[0] == Section(from, lengths[0]) && Tiles(sections[1..], lengths[1..], from + lengths[0]))
  }

  /** Every byte of the area is in exactly one of the sections. */
  lemma {:induction false} TilesPartition(sections: seq<Section>, lengths: seq<nat>, from: nat, x: nat)
    requires Tiles(sections, lengths, from)
    ensures from <= x < from + Sum(lengths) <==>
              exists i :: 0 <= i < |sections| && sections[i].start <= x < sections[i].start + sections[i].length
    ensures forall i, j :: 0 <= i < j < |sections| ==> sections[i].start + sections[i].length <= sections[j].start
    ensures forall i :: 0 <= i < |sections| ==> from <= sections[i].start
    decreases |sections|
  {
    if lengths != [] {
      TilesPartition(sections[1..], lengths[1..], from + lengths[0], x);
      assert forall i :: 1 <= i < |sections| ==> sections[i] == sections[1..][i - 1];
      if i :| 0 <= i < |sections[1..]|
              && sections[1..][i].start <= x < sections[1..][i].start + sections[1..][i].length {
        assert sections[i + 1].start <= x < sections[i + 1].start + sections[i + 1].length;
      }
      if from <= x < from + lengths[0] {
        assert sections[0].start <= x < sections[0].start + sections[0].length;
      }
    }
  }

  /** One more section behind the others. */
  lemma {:induction false} TilesMore(sections: seq<Section>, lengths: seq<nat>, from: nat, length: nat)
    requires Tiles(sections, lengths, from)
    ensures Tiles(sections + [Section(from + Sum(lengths), length)], lengths + [length], from)
    ensures Sum(lengths + [length]) == Sum(lengths) + length
    decreases |sections|
  {
    if lengths == [] {
      assert [length][1..] == [] && [] + [length] == [length];
      assert sections + [Section(from, length)] == [Section(from, length)];
    } else {
      assert (lengths + [length])[1..] == lengths[1..] + [length];
      TilesMore(sections[1..], lengths[1..], from + lengths[0], length);
      var last := Section(from + Sum(lengths), length);
      assert (sections + [last])[1..] == sections[1..] + [last];
    }
  }

  /** The next section, and the offset behind it. */
  method Place(sections: seq<Section>, at: nat, length: nat, ghost lengths: seq<nat>)
    returns (r: seq<Section>, end: nat)
    requires Tiles(sections, lengths, 0) && at == Sum(lengths)
    ensures Tiles(r, lengths + [length], 0) && end == Sum(lengths + [length])
  {
    TilesMore(sections, lengths, 0, length);
    r, end := sections + [Section(at, length)], at + length;
  }

  /** format_mmap: offsets from the start of the mapping. */
  method FormatMmap(p: Platform, attr: Attr, slabsCount: nat) returns (sections: seq<Section>)
    ensures Sectioned(p, attr, slabsCount, sections)
    ensures Tiles(sections, Lengths(p, attr, slabsCount), 0)
  {
    ghost var l := Lengths(p, attr, slabsCount);
    var attrAt: nat, lock: nat, mutex: nat, heads: nat, tails: nat, buckets: nat, slabs: nat, raw: nat, end: nat;
    hide Tiles, Sum;
    assert Tiles([], l[..0], 0) && Sum(l[..0]) == 0 by { Empty(l[..0]); }
    sections, attrAt := Place([], 0, VERSION_SIZE, l[..0]);
    Prefix(l, 0);
    sections, lock := Place(sections, attrAt, p.attrSize, l[..1]);
    Prefix(l, 1);
    sections, mutex := Place(sections, lock, p.rwlockSize, l[..2]);
    Prefix(l, 2);
    sections, heads := Place(sections, mutex, p.mutexSize, l[..3]);
    Prefix(l, 3);
    sections, tails := Place(sections, heads, POINTER_SIZE * slabsCount, l[..4]);
    Prefix(l, 4);
    sections, buckets := Place(sections, tails, POINTER_SIZE * slabsCount, l[..5]);
    Prefix(l, 5);
    sections, slabs := Place(sections, buckets, POINTER_SIZE * attr.nbuckets, l[..6]);
    Prefix(l, 6);
    sections, raw := Place(sections, slabs, SLAB_SIZE * slabsCount, l[..7]);
    Prefix(l, 7);
    sections, end := Place(sections, raw, attr.memLimit, l[..8]);
    Prefix(l, 8);
    assert l[..9] == l;
    TilesSectioned(p, attr, slabsCount, sections);
  }

  /** Nine sections from the start of the mapping, each right behind the one before: four bytes of version, the
      attributes, the two locks, a pointer per class for the heads and for the tails, a pointer per bucket, the slab
      table and the raw memory. */
  predicate Sectioned(p: Platform, attr: Attr, slabsCount: nat, s: seq<Section>) {
    && |s| == 9 && s[0] == Section(0, 4)
    && (forall i :: 0 < i < 9 ==> s[i].start == s[i - 1].start + s[i - 1].length)
    && s[1].length == p.attrSize && s[2].length == p.rwlockSize && s[3].length == p.mutexSize
    && s[4].length == s[5].length == 8 * slabsCount && s[6].length == 8 * attr.nbuckets
    && s[7].length == 24 * slabsCount && s[8].length == attr.memLimit
  }

  lemma TilesSectioned(p: Platform, attr: Attr, slabsCount: nat, s: seq<Section>)
    requires Tiles(s, Lengths(p, attr, slabsCount), 0)
    ensures Sectioned(p, attr, slabsCount, s)
  {
    var l := Lengths(p, attr, slabsCount);
    forall i | 0 <= i < 9 ensures s[i].length == l[i] && (i > 0 ==> s[i].start == s[i - 1].start + s[i - 1].length) {
      TilesAt(s, l, 0, i);
    }
  }

  lemma {:induction false} TilesAt(s: seq<Section>, l: seq<nat>, from: nat, i: nat)
    requires Tiles(s, l, from) && i < |l|
    ensures s[i].length == l[i] && (i > 0 ==> s[i].start == s[i - 1].start + s[i - 1].length)
    decreases |l|
  {
    if i > 0 {
      TilesAt(s[1..], l[1..], from + l[0], i - 1);
    }
  }

  lemma {:induction false} EndOfLast(s: seq<Section>, l: seq<nat>, from: nat)
    requires Tiles(s, l, from) && l != []
    ensures s[|s| - 1].start + s[|s| - 1].length == from + Sum(l)
    decreases |l|
  {
    if |l| > 1 {
      EndOfLast(s[1..], l[1..], from + l[0]);
    }
  }

  lemma Empty(l: seq<nat>)
    requires l == []
    ensures Tiles([], l, 0) && Sum(l) == 0
  {
  }

  lemma Prefix(l: seq<nat>, i: nat)
    requires i < |l|
    ensures l[..i] + [l[i]] == l[..i + 1]
  {
  }

  /** size_of_mmap. */
  method SizeOfMmap(p: Platform, attr: Attr, slabsCount: nat) returns (size: nat)
    ensures size == Sum(Lengths(p, attr, slabsCount))
  {
    size := VERSION_SIZE;
    size := size + p.attrSize;
    size := size + p.rwlockSize;
    size := size + p.mutexSize;
    size := size + POINTER_SIZE * slabsCount;
    size := size + POINTER_SIZE * slabsCount;
    size := size + POINTER_SIZE * attr.nbuckets;
    size := size + SLAB_SIZE * slabsCount;
    size := size + attr.memLimit;
    SumOfLengths(p, attr, slabsCount);
  }

  lemma SumOfLengths(p: Platform, attr: Attr, slabsCount: nat)
    ensures Sum(Lengths(p, attr, slabsCount))
         == VERSION_SIZE + p.attrSize + p.rwlockSize + p.mutexSize
          + POINTER_SIZE * slabsCount + POINTER_SIZE * slabsCount + POINTER_SIZE * attr.nbuckets
          + SLAB_SIZE * slabsCount + attr.memLimit
  {
    var l := Lengths(p, attr, slabsCount);
    assert Sum(l[9..]) == 0;
    SumFrom(l, 8); SumFrom(l, 7); SumFrom(l, 6); SumFrom(l, 5); SumFrom(l, 4);
    SumFrom(l, 3); SumFrom(l, 2); SumFrom(l, 1); SumFrom(l, 0);
    assert l[0..] == l;
  }

  lemma SumFrom(l: seq<nat>, i: nat)
    requires i < |l|
    ensures Sum(l[i..]) == l[i] + Sum(l[i + 1..])
  {
    assert l[i..][1..] == l[i + 1..];
  }

  /** What mmap_create computes from the caller's attributes, and stores. */
  method Create(p: Platform, attr: Attr) returns (stored: Attr, slabsCount: nat, sections: seq<Section>)
    requires attr.den > 0
    ensures FactorOk(stored) && Raised(attr, stored) && slabsCount == |Sizes(stored)|
    ensures Sectioned(p, stored, slabsCount, sections) && Tiles(sections, Lengths(p, stored, slabsCount), 0)
  {
    stored := Clamp(attr);
    slabsCount := CountOfSlabs(stored);
    sections := FormatMmap(p, stored, slabsCount);
  }

  /** What mmap_attach computes from the stored attributes: everything the creator had. */
  method Attach(p: Platform, stored: Attr) returns (slabsCount: nat, sections: seq<Section>, size: nat)
    requires FactorOk(stored)
    ensures slabsCount == |Sizes(stored)| && Sectioned(p, stored, slabsCount, sections)
    ensures Tiles(sections, Lengths(p, stored, slabsCount), 0) && size == Sum(Lengths(p, stored, slabsCount))
  {
    slabsCount := CountOfSlabs(stored);
    size := SizeOfMmap(p, stored, slabsCount);
    sections := FormatMmap(p, stored, slabsCount);
  }

  /** Sections of the same lengths from the same start are the same sections. */
  lemma {:induction false} TilesUnique(s: seq<Section>, t: seq<Section>, lengths: seq<nat>, from: nat)
    requires Tiles(s, lengths, from) && Tiles(t, lengths, from)
    ensures s == t
    decreases |s|
  {
    if lengths != [] {
      TilesUnique(s[1..], t[1..], lengths[1..], from + lengths[0]);
      assert s == [s[0]] + s[1..] && t == [t[0]] + t[1..];
    }
  }

  /** A process creates a store and another one attaches to it, with nothing but the stored attributes: both find
      every section at the same place and with the same length. */
  method CreateThenAttach(p: Platform, attr: Attr)
    returns (stored: Attr, count: nat, sections: seq<Section>, count': nat, sections': seq<Section>, size: nat)
    requires attr.den > 0
    ensures FactorOk(stored) && Raised(attr, stored) && count == |Sizes(stored)| == count' && sections == sections'
    ensures Sectioned(p, stored, count, sections) && size == sections[8].start + sections[8].length
  {
    stored, count, sections := Create(p, attr);
    count', sections', size := Attach(p, stored);
    TilesUnique(sections, sections', Lengths(p, stored, count), 0);
    EndOfLast(sections, Lengths(p, stored, count), 0);
  }
}
