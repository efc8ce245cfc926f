/** The key hash of hash.c, for a little-endian machine.

    The reference definition, Hash, adds the key to the three-word state twelve bytes at a time, the
    last block padded with zero bytes.  The three readers of the program (32-bit loads with masks,
    16-bit loads, single bytes) are methods proved to compute it.

    Word arithmetic is kept behind small functions, which the larger proofs hide so that only the
    laws stated about them are used. */
module Lookup3 {
  import opened Basics

  datatype Words = Words(a: bv32, b: bv32, c: bv32)

  // ----- word arithmetic

  function Add(x: bv32, y: bv32): bv32 { x + y }

  function Sub(x: bv32, y: bv32): bv32 { x - y }

  function Xor(x: bv32, y: bv32): bv32 { x ^ y }

  function Rot(x: bv32, k: bv6): bv32
    requires k <= 32
  {
    (x << k) ^ (x >> (32 - k))
  }

  // The laws are first stated on the operators, where the solver simplifies them away, and then
  // carried over to the functions.

  lemma RawAddSub(x: bv32, y: bv32)
    ensures Sub(x + y, y) == x
  {
  }

  lemma RawSubAdd(x: bv32, y: bv32)
    ensures Add(x - y, y) == x
  {
  }

  lemma AddCommutes(x: bv32, y: bv32)
    ensures Add(x, y) == Add(y, x)
  {
  }

  lemma RawAssoc(x: bv32, y: bv32, z: bv32)
    ensures Add(x + y, z) == Add(x, y + z)
  {
  }

  lemma AddSub(x: bv32, y: bv32)
    ensures Sub(Add(x, y), y) == x
    ensures Add(Sub(x, y), y) == x
  {
    RawAddSub(x, y);
    RawSubAdd(x, y);
    assert Sub(Add(x, y), y) == x by { hide Sub; }
    assert Add(Sub(x, y), y) == x by { hide Add; }
    hide Add, Sub;
  }

  lemma Assoc(x: bv32, y: bv32, z: bv32)
    ensures Add(Add(x, y), z) == Add(x, Add(y, z))
  {
    RawAssoc(x, y, z);
    assert Add(x, y) == x + y && Add(y, z) == y + z;
    hide Add;
  }

  lemma AddInjective(x: bv32, y: bv32, z: bv32)
    requires Add(x, y) == Add(x, z)
    ensures y == z
  {
    hide Add, Sub;
    AddCommutes(x, y);
    AddCommutes(x, z);
    AddSub(y, x);
    AddSub(z, x);
  }

  lemma XorTwice(x: bv32, y: bv32)
    ensures Xor(Xor(x, y), y) == x
  {
  }

  // ----- mix: six lines of the shape  x -= z; x ^= rot(z, k); z += y

  /** One line on (x, y, z) = (a, b, c), with the roles rotated for the next line. */
  function MixLine(w: Words, k: bv6): Words
    requires k <= 32
  {
    Words(w.b, Add(w.c, w.b), Xor(Sub(w.a, w.c), Rot(w.c, k)))
  }

  function UnmixLine(w: Words, k: bv6): Words
    requires k <= 32
  {
    var c := Sub(w.b, w.a);
    Words(Add(Xor(w.c, Rot(c, k)), c), w.a, c)
  }

  lemma MixLineInverse(w: Words, k: bv6)
    requires k <= 32
    ensures UnmixLine(MixLine(w, k), k) == w
    ensures MixLine(UnmixLine(w, k), k) == w
  {
    hide Add, Sub, Xor, Rot;
    AddSub(w.c, w.b);
    AddSub(w.a, w.c);
    XorTwice(Sub(w.a, w.c), Rot(w.c, k));
    var c := Sub(w.b, w.a);
    AddSub(w.b, w.a);
    XorTwice(w.c, Rot(c, k));
    AddSub(Xor(w.c, Rot(c, k)), c);
  }

  function MixAll(w: Words): Words {
    MixLine(MixLine(MixLine(MixLine(MixLine(MixLine(w, 4), 6), 8), 16), 19), 4)
  }

  function UnmixAll(w: Words): Words {
    UnmixLine(UnmixLine(UnmixLine(UnmixLine(UnmixLine(UnmixLine(w, 4), 19), 16), 8), 6), 4)
  }

  /** mix is a bijection on triples of words. */
  lemma MixReversible(w: Words)
    ensures UnmixAll(MixAll(w)) == w && MixAll(UnmixAll(w)) == w
  {
    hide MixLine, UnmixLine;
    var m1 := MixLine(w, 4);   var m2 := MixLine(m1, 6);  var m3 := MixLine(m2, 8);
    var m4 := MixLine(m3, 16); var m5 := MixLine(m4, 19);
    MixLineInverse(w, 4);   MixLineInverse(m1, 6);  MixLineInverse(m2, 8);
    MixLineInverse(m3, 16); MixLineInverse(m4, 19); MixLineInverse(m5, 4);
    var u1 := UnmixLine(w, 4);   var u2 := UnmixLine(u1, 19); var u3 := UnmixLine(u2, 16);
    var u4 := UnmixLine(u3, 8);  var u5 := UnmixLine(u4, 6);
    MixLineInverse(w, 4);  MixLineInverse(u1, 19); MixLineInverse(u2, 16);
    MixLineInverse(u3, 8); MixLineInverse(u4, 6);  MixLineInverse(u5, 4);
  }

  /** The mix macro, statement by statement. */
  method Mix(w: Words) returns (r: Words)
    ensures r == MixAll(w)
  {
    hide Add, Sub, Xor, Rot;
    var a, b, c := w.a, w.b, w.c;
    a := Sub(a, c);  a := Xor(a, Rot(c, 4));   c := Add(c, b);
    b := Sub(b, a);  b := Xor(b, Rot(a, 6));   a := Add(a, c);
    c := Sub(c, b);  c := Xor(c, Rot(b, 8));   b := Add(b, a);
    a := Sub(a, c);  a := Xor(a, Rot(c, 16));  c := Add(c, b);
    b := Sub(b, a);  b := Xor(b, Rot(a, 19));  a := Add(a, c);
    c := Sub(c, b);  c := Xor(c, Rot(b, 4));   b := Add(b, a);
    r := Words(a, b, c);
  }

  // ----- final: seven lines of the shape  x ^= y; x -= rot(y, k)

  /** One line on (x, y) = (c, b), with the roles rotated so that the next line's pair is in place. */
  function FinalLine(w: Words, k: bv6): Words
    requires k <= 32
  {
    Words(w.b, Sub(Xor(w.c, w.b), Rot(w.b, k)), w.a)
  }

  function UnfinalLine(w: Words, k: bv6): Words
    requires k <= 32
  {
    Words(w.c, w.a, Xor(Add(w.b, Rot(w.a, k)), w.a))
  }

  lemma FinalLineInverse(w: Words, k: bv6)
    requires k <= 32
    ensures UnfinalLine(FinalLine(w, k), k) == w
    ensures FinalLine(UnfinalLine(w, k), k) == w
  {
    hide Add, Sub, Xor, Rot;
    XorTwice(w.c, w.b);
    AddSub(Xor(w.c, w.b), Rot(w.b, k));
    XorTwice(Add(w.b, Rot(w.a, k)), w.a);
    AddSub(w.b, Rot(w.a, k));
  }

  function FinalAll(w: Words): Words {
    var r := FinalLine(FinalLine(FinalLine(FinalLine(FinalLine(FinalLine(FinalLine(
               w, 14), 11), 25), 16), 4), 14), 24);
    Words(r.c, r.a, r.b)
  }

  function UnfinalAll(w: Words): Words {
    UnfinalLine(UnfinalLine(UnfinalLine(UnfinalLine(UnfinalLine(UnfinalLine(UnfinalLine(
      Words(w.b, w.c, w.a), 24), 14), 4), 16), 25), 11), 14)
  }

  /** final is a bijection on triples of words. */
  lemma FinalReversible(w: Words)
    ensures UnfinalAll(FinalAll(w)) == w && FinalAll(UnfinalAll(w)) == w
  {
    hide FinalLine, UnfinalLine;
    var f1 := FinalLine(w, 14);  var f2 := FinalLine(f1, 11);  var f3 := FinalLine(f2, 25);
    var f4 := FinalLine(f3, 16); var f5 := FinalLine(f4, 4);   var f6 := FinalLine(f5, 14);
    FinalLineInverse(w, 14);  FinalLineInverse(f1, 11); FinalLineInverse(f2, 25);
    FinalLineInverse(f3, 16); FinalLineInverse(f4, 4);  FinalLineInverse(f5, 14);
    FinalLineInverse(f6, 24);
    var v := Words(w.b, w.c, w.a);
    var u1 := UnfinalLine(v, 24);  var u2 := UnfinalLine(u1, 14); var u3 := UnfinalLine(u2, 4);
    var u4 := UnfinalLine(u3, 16); var u5 := UnfinalLine(u4, 25); var u6 := UnfinalLine(u5, 11);
    FinalLineInverse(v, 24);  FinalLineInverse(u1, 14); FinalLineInverse(u2, 4);
    FinalLineInverse(u3, 16); FinalLineInverse(u4, 25); FinalLineInverse(u5, 11);
    FinalLineInverse(u6, 14);
  }

  /** The final macro, statement by statement. */
  method Final(w: Words) returns (r: Words)
    ensures r == FinalAll(w)
  {
    hide Add, Sub, Xor, Rot;
    var a, b, c := w.a, w.b, w.c;
    c := Xor(c, b);  c := Sub(c, Rot(b, 14));
    a := Xor(a, c);  a := Sub(a, Rot(c, 11));
    b := Xor(b, a);  b := Sub(b, Rot(a, 25));
    c := Xor(c, b);  c := Sub(c, Rot(b, 16));
    a := Xor(a, c);  a := Sub(a, Rot(c, 4));
    b := Xor(b, a);  b := Sub(b, Rot(a, 14));
    c := Xor(c, b);  c := Sub(c, Rot(b, 24));
    r := Words(a, b, c);
  }

  // ----- bytes to words

  /** What a little-endian 32-bit load reads. */
  function Join(b0: byte, b1: byte, b2: byte, b3: byte): bv32 {
    b0 as bv32 | (b1 as bv32 << 8) | (b2 as bv32 << 16) | (b3 as bv32 << 24)
  }

  /** What a little-endian 16-bit load reads. */
  function Half(b0: byte, b1: byte): bv16 {
    b0 as bv16 | (b1 as bv16 << 8)
  }

  function Shl0(b: byte): bv32 { b as bv32 }

  function Shl8(b: byte): bv32 { b as bv32 << 8 }

  function Shl16(b: byte): bv32 { b as bv32 << 16 }

  function Shl24(b: byte): bv32 { b as bv32 << 24 }

  function Low24(w: bv32): bv32 { w & 0xffffff }

  function Low16(w: bv32): bv32 { w & 0xffff }

  function Low8(w: bv32): bv32 { w & 0xff }

  function FromHalves(lo: bv16, hi: bv16): bv32 { lo as bv32 + (hi as bv32 << 16) }

  function LowHalf(lo: bv16): bv32 { lo as bv32 }

  lemma RawMasks(b0: byte, b1: byte, b2: byte, b3: byte)
    ensures Low24(b0 as bv32 | (b1 as bv32 << 8) | (b2 as bv32 << 16) | (b3 as bv32 << 24))
         == b0 as bv32 | (b1 as bv32 << 8) | (b2 as bv32 << 16) | (0 << 24)
    ensures Low16(b0 as bv32 | (b1 as bv32 << 8) | (b2 as bv32 << 16) | (b3 as bv32 << 24))
         == b0 as bv32 | (b1 as bv32 << 8) | (0 << 16) | (0 << 24)
    ensures Low8(b0 as bv32 | (b1 as bv32 << 8) | (b2 as bv32 << 16) | (b3 as bv32 << 24))
         == b0 as bv32 | (0 << 8) | (0 << 16) | (0 << 24)
  {
  }

  /** The masks drop exactly the bytes read past the end of the key. */
  lemma Masks(b0: byte, b1: byte, b2: byte, b3: byte)
    ensures Low24(Join(b0, b1, b2, b3)) == Join(b0, b1, b2, 0)
    ensures Low16(Join(b0, b1, b2, b3)) == Join(b0, b1, 0, 0)
    ensures Low8(Join(b0, b1, b2, b3)) == Join(b0, 0, 0, 0)
  {
    hide Low24, Low16, Low8;
    RawMasks(b0, b1, b2, b3);
  }

  lemma RawSums(b0: byte, b1: byte, b2: byte, b3: byte)
    ensures Add(b0 as bv32, b1 as bv32 << 8) == b0 as bv32 + (b1 as bv32 << 8)
    ensures Add(b0 as bv32 + (b1 as bv32 << 8), b2 as bv32 << 16)
         == b0 as bv32 + (b1 as bv32 << 8) + (b2 as bv32 << 16)
    ensures Add(b0 as bv32 + (b1 as bv32 << 8) + (b2 as bv32 << 16), b3 as bv32 << 24)
         == b0 as bv32 | (b1 as bv32 << 8) | (b2 as bv32 << 16) | (b3 as bv32 << 24)
    ensures FromHalves(b0 as bv16 | (b1 as bv16 << 8), b2 as bv16 | (b3 as bv16 << 8))
         == b0 as bv32 | (b1 as bv32 << 8) | (b2 as bv32 << 16) | (b3 as bv32 << 24)
    ensures LowHalf(b0 as bv16 | (b1 as bv16 << 8))
         == b0 as bv32 | (b1 as bv32 << 8) | (0 << 16) | (0 << 24)
  {
  }

  lemma JoinIsSum(b0: byte, b1: byte, b2: byte, b3: byte)
    ensures Join(b0, b1, b2, b3) == Add(Add(Add(Shl0(b0), Shl8(b1)), Shl16(b2)), Shl24(b3))
  {
    hide Add;
    RawSums(b0, b1, b2, b3);
  }

  lemma JoinOfHalves(b0: byte, b1: byte, b2: byte, b3: byte)
    ensures FromHalves(Half(b0, b1), Half(b2, b3)) == Join(b0, b1, b2, b3)
    ensures LowHalf(Half(b0, b1)) == Join(b0, b1, 0, 0)
  {
    hide FromHalves, LowHalf;
    RawSums(b0, b1, b2, b3);
  }

  lemma ZeroBytes(x: bv32)
    ensures Shl0(0) == 0 && Shl8(0) == 0 && Shl16(0) == 0 && Shl24(0) == 0 && Join(0, 0, 0, 0) == 0
    ensures Add(x, 0) == x
  {
  }

  /** Adding the four bytes of a word one by one, in either order, adds the word. */
  lemma ByteByByte(x: bv32, b0: byte, b1: byte, b2: byte, b3: byte)
    ensures Add(Add(Add(Add(x, Shl0(b0)), Shl8(b1)), Shl16(b2)), Shl24(b3)) == Add(x, Join(b0, b1, b2, b3))
    ensures Add(Add(Add(Add(x, Shl24(b3)), Shl16(b2)), Shl8(b1)), Shl0(b0)) == Add(x, Join(b0, b1, b2, b3))
  {
    JoinIsSum(b0, b1, b2, b3);
    FourTerms(x, Shl0(b0), Shl8(b1), Shl16(b2), Shl24(b3));
  }

  lemma FourTerms(x: bv32, s0: bv32, s1: bv32, s2: bv32, s3: bv32)
    ensures Add(Add(Add(Add(x, s0), s1), s2), s3) == Add(x, Add(Add(Add(s0, s1), s2), s3))
    ensures Add(Add(Add(Add(x, s3), s2), s1), s0) == Add(x, Add(Add(Add(s0, s1), s2), s3))
  {
    hide Add;
    Assoc(x, s0, s1);
    Assoc(x, Add(s0, s1), s2);
    Assoc(x, Add(Add(s0, s1), s2), s3);
    // the other order, by regrouping from the outside in
    Assoc(x, s3, s2);
    Assoc(x, Add(s3, s2), s1);
    Assoc(x, Add(Add(s3, s2), s1), s0);
    AddCommutes(s3, s2);
    AddCommutes(Add(s2, s3), s1);
    AddCommutes(Add(s1, Add(s2, s3)), s0);
    Assoc(s1, s2, s3);
    Assoc(s0, Add(s1, s2), s3);
    Assoc(s0, s1, s2);
  }

  lemma RawBytes(b0: byte, b1: byte, b2: byte, b3: byte)
    ensures Byte0(b0 as bv32 | (b1 as bv32 << 8) | (b2 as bv32 << 16) | (b3 as bv32 << 24)) == b0
    ensures Byte1(b0 as bv32 | (b1 as bv32 << 8) | (b2 as bv32 << 16) | (b3 as bv32 << 24)) == b1
    ensures Byte2(b0 as bv32 | (b1 as bv32 << 8) | (b2 as bv32 << 16) | (b3 as bv32 << 24)) == b2
    ensures Byte3(b0 as bv32 | (b1 as bv32 << 8) | (b2 as bv32 << 16) | (b3 as bv32 << 24)) == b3
  {
  }

  function Byte0(w: bv32): byte { (w & 0xff) as byte }

  function Byte1(w: bv32): byte { ((w >> 8) & 0xff) as byte }

  function Byte2(w: bv32): byte { ((w >> 16) & 0xff) as byte }

  function Byte3(w: bv32): byte { (w >> 24) as byte }

  lemma JoinInjective(b0: byte, b1: byte, b2: byte, b3: byte, d0: byte, d1: byte, d2: byte, d3: byte)
    requires Join(b0, b1, b2, b3) == Join(d0, d1, d2, d3)
    ensures b0 == d0 && b1 == d1 && b2 == d2 && b3 == d3
  {
    hide Byte0, Byte1, Byte2, Byte3;
    RawBytes(b0, b1, b2, b3);
    RawBytes(d0, d1, d2, d3);
  }

  // ----- the reference hash

  function Word(k: seq<byte>, i: nat): bv32
    requires i + 4 <= |k|
  {
    Join(k[i], k[i + 1], k[i + 2], k[i + 3])
  }

  function Absorb(w: Words, block: seq<byte>): Words
    requires |block| == 12
  {
    Words(Add(w.a, Word(block, 0)), Add(w.b, Word(block, 4)), Add(w.c, Word(block, 8)))
  }

  function Pad(tail: seq<byte>): (r: seq<byte>)
    requires |tail| <= 12
    ensures |r| == 12
    ensures forall i :: 0 <= i < 12 ==> r[i] == if i < |tail| then tail[i] else 0
  {
    tail + seq(12 - |tail|, i => 0)
  }

  function Start(length: nat, initval: bv32): Words {
    var x := Add(Add(0xdeadbeef, (length % 0x1_0000_0000) as bv32), initval);
    Words(x, x, x)
  }

  function Digest(w: Words, key: seq<byte>): bv32
    decreases |key|
  {
    if |key| > 12 then Digest(MixAll(Absorb(w, key[..12])), key[12..])
    else if |key| == 0 then w.c
    else FinalAll(Absorb(w, Pad(key))).c
  }

  function Hash(key: seq<byte>, initval: bv32): bv32 {
    Digest(Start(|key|, initval), key)
  }

  // ----- the block loop is injective

  /** The state when the block loop ends. */
  function Blocks(w: Words, key: seq<byte>): Words
    decreases |key|
  {
    if |key| > 12 then Blocks(MixAll(Absorb(w, key[..12])), key[12..]) else w
  }

  lemma MixInjective(v: Words, w: Words)
    requires MixAll(v) == MixAll(w)
    ensures v == w
  {
    hide MixAll, UnmixAll;
    MixReversible(v);
    MixReversible(w);
  }

  lemma AbsorbInjectiveInState(v: Words, w: Words, block: seq<byte>)
    requires |block| == 12 && Absorb(v, block) == Absorb(w, block)
    ensures v == w
  {
    hide Add, Join;
    var x, y, z := Word(block, 0), Word(block, 4), Word(block, 8);
    AddCommutes(v.a, x); AddCommutes(w.a, x);
    AddCommutes(v.b, y); AddCommutes(w.b, y);
    AddCommutes(v.c, z); AddCommutes(w.c, z);
    AddInjective(x, v.a, w.a);
    AddInjective(y, v.b, w.b);
    AddInjective(z, v.c, w.c);
  }

  lemma AbsorbInjectiveInBlock(w: Words, k: seq<byte>, l: seq<byte>)
    requires |k| == |l| == 12 && Absorb(w, k) == Absorb(w, l)
    ensures k == l
  {
    hide Add, Join;
    AddInjective(w.a, Word(k, 0), Word(l, 0));
    AddInjective(w.b, Word(k, 4), Word(l, 4));
    AddInjective(w.c, Word(k, 8), Word(l, 8));
    JoinInjective(k[0], k[1], k[2], k[3], l[0], l[1], l[2], l[3]);
    JoinInjective(k[4], k[5], k[6], k[7], l[4], l[5], l[6], l[7]);
    JoinInjective(k[8], k[9], k[10], k[11], l[8], l[9], l[10], l[11]);
  }

  /** Different states stay different through any common rest of the key. */
  lemma {:induction false} BlocksInjectiveInState(v: Words, w: Words, key: seq<byte>)
    requires v != w
    ensures Blocks(v, key) != Blocks(w, key)
    decreases |key|
  {
    hide Absorb, MixAll;
    if |key| > 12 {
      var v', w' := Absorb(v, key[..12]), Absorb(w, key[..12]);
      if v' == w' { AbsorbInjectiveInState(v, w, key[..12]); }
      if MixAll(v') == MixAll(w') { MixInjective(v', w'); }
      BlocksInjectiveInState(MixAll(v'), MixAll(w'), key[12..]);
    }
  }

  /** Two keys of equal length that differ in exactly one block before the last reach different states. */
  lemma {:induction false} OneBlockDiffers(w: Words, k: seq<byte>, l: seq<byte>, at: nat)
    requires |k| == |l| && at % 12 == 0 && at + 12 < |k|
    requires k[..at] == l[..at] && k[at + 12..] == l[at + 12..]
    requires k[at..at + 12] != l[at..at + 12]
    ensures Blocks(w, k) != Blocks(w, l)
    decreases |k|
  {
    hide Absorb, MixAll;
    if at == 0 {
      var v, v' := Absorb(w, k[..12]), Absorb(w, l[..12]);
      if v == v' { AbsorbInjectiveInBlock(w, k[..12], l[..12]); }
      if MixAll(v) == MixAll(v') { MixInjective(v, v'); }
      BlocksInjectiveInState(MixAll(v), MixAll(v'), k[12..]);
    } else {
      assert k[..12] == k[..at][..12] == l[..12];
      assert k[12..][..at - 12] == k[..at][12..] == l[12..][..at - 12];
      assert k[12..][at..] == k[at + 12..] == l[12..][at..];
      assert k[12..][at - 12..at] == k[at..at + 12] && l[12..][at - 12..at] == l[at..at + 12];
      OneBlockDiffers(MixAll(Absorb(w, k[..12])), k[12..], l[12..], at - 12);
    }
  }

  // ----- the byte reader

  /** Adding a block of the key, word by word, wherever it lies in memory. */
  lemma BlockAdded(w: Words, mem: seq<byte>, length: nat, k: nat)
    requires length > 12 && k + length <= |mem|
    ensures var rest := mem[k..k + length];
            && Absorb(w, rest[..12])
               == Words(Add(w.a, Word(mem, k)), Add(w.b, Word(mem, k + 4)), Add(w.c, Word(mem, k + 8)))
            && rest[12..] == mem[k + 12..k + length]
  {
    hide Add, Join;
    var rest := mem[k..k + length];
    var block := rest[..12];
    assert forall i :: 0 <= i < 12 ==> block[i] == mem[k + i];
  }

  /** x plus a byte of the padded tail: nothing is added past the end of the key. */
  lemma PastEnd(x: bv32, b: byte)
    requires b == 0
    ensures Add(x, Shl0(b)) == Add(x, Shl8(b)) == Add(x, Shl16(b)) == Add(x, Shl24(b)) == x
  {
    hide Add;
    ZeroBytes(x);
  }

  /** Four single-byte additions in the block loop. */
  method AddBytes(x: bv32, key: seq<byte>, k: nat) returns (r: bv32)
    requires k + 4 <= |key|
    ensures r == Add(x, Word(key, k))
  {
    hide Add, Join, Shl0, Shl8, Shl16, Shl24;
    ByteByByte(x, key[k], key[k + 1], key[k + 2], key[k + 3]);
    r := Add(x, Shl0(key[k]));
    r := Add(r, Shl8(key[k + 1]));
    r := Add(r, Shl16(key[k + 2]));
    r := Add(r, Shl24(key[k + 3]));
  }

  /** One word's share of the fall-through switch: bytes at + 3 down to at, as far as the tail reaches. */
  method TailBytes(x: bv32, tail: seq<byte>, at: nat) returns (r: bv32)
    requires |tail| <= 12 && at + 4 <= 12
    ensures r == Add(x, Word(Pad(tail), at))
  {
    hide Add, Join, Shl0, Shl8, Shl16, Shl24;
    ghost var p := Pad(tail);
    ByteByByte(x, p[at], p[at + 1], p[at + 2], p[at + 3]);
    r := x;
    if |tail| >= at + 4 { r := Add(r, Shl24(tail[at + 3])); } else { PastEnd(r, p[at + 3]); }
    if |tail| >= at + 3 { r := Add(r, Shl16(tail[at + 2])); } else { PastEnd(r, p[at + 2]); }
    if |tail| >= at + 2 { r := Add(r, Shl8(tail[at + 1])); } else { PastEnd(r, p[at + 1]); }
    if |tail| >= at + 1 { r := Add(r, Shl0(tail[at])); } else { PastEnd(r, p[at]); }
  }

  /** The key at any address, read byte by byte. */
  method HashBytes(key: seq<byte>, initval: bv32) returns (r: bv32)
    ensures r == Hash(key, initval)
  {
    hide Add, Word, MixAll, FinalAll, Start;
    var w := Start(|key|, initval);
    var a, b, c := w.a, w.b, w.c;
    var length: nat, k: nat := |key|, 0;
    assert key[0..|key|] == key;
    while length > 12
      invariant k + length == |key|
      invariant Digest(Words(a, b, c), key[k..k + length]) == Hash(key, initval)
    {
      BlockAdded(Words(a, b, c), key, length, k);
      a := AddBytes(a, key, k);
      b := AddBytes(b, key, k + 4);
      c := AddBytes(c, key, k + 8);
      var m := Mix(Words(a, b, c));
      a, b, c := m.a, m.b, m.c;
      length, k := length - 12, k + 12;
    }
    if length == 0 { return c; }
    var tail := key[k..k + length];
    c := TailBytes(c, tail, 8);
    b := TailBytes(b, tail, 4);
    a := TailBytes(a, tail, 0);
    var f := Final(Words(a, b, c));
    r := f.c;
  }

  // ----- the 16-bit reader

  method AddHalves(x: bv32, key: seq<byte>, k: nat) returns (r: bv32)
    requires k + 4 <= |key|
    ensures r == Add(x, Word(key, k))
  {
    hide Add, Join, Half, FromHalves;
    JoinOfHalves(key[k], key[k + 1], key[k + 2], key[k + 3]);
    r := Add(x, FromHalves(Half(key[k], key[k + 1]), Half(key[k + 2], key[k + 3])));
  }

  method TailHalves(x: bv32, tail: seq<byte>, at: nat) returns (r: bv32)
    requires |tail| <= 12 && at + 4 <= 12
    ensures r == Add(x, Word(Pad(tail), at))
  {
    hide Add, Join, Half, FromHalves, LowHalf, Shl0, Shl8, Shl16, Shl24;
    ghost var p := Pad(tail);
    r := x;
    if |tail| >= at + 4 {
      JoinOfHalves(p[at], p[at + 1], p[at + 2], p[at + 3]);
      r := Add(r, FromHalves(Half(tail[at], tail[at + 1]), Half(tail[at + 2], tail[at + 3])));
    } else if |tail| == at + 3 {
      HighByteFirst(x, p[at], p[at + 1], p[at + 2]);
      r := Add(r, Shl16(tail[at + 2]));
      r := Add(r, LowHalf(Half(tail[at], tail[at + 1])));
    } else if |tail| == at + 2 {
      JoinOfHalves(p[at], p[at + 1], 0, 0);
      r := Add(r, LowHalf(Half(tail[at], tail[at + 1])));
    } else if |tail| == at + 1 {
      OneByte(x, p[at]);
      r := Add(r, Shl0(tail[at]));
    } else {
      ZeroBytes(x);
    }
  }

  lemma OneByte(x: bv32, b0: byte)
    ensures Add(x, Shl0(b0)) == Add(x, Join(b0, 0, 0, 0))
  {
    hide Add, Join, Shl0, Shl8, Shl16, Shl24;
    ByteByByte(x, b0, 0, 0, 0);
    PastEnd(Add(x, Shl0(b0)), 0);
  }

  /** Three bytes: the third on its own, then the first two as one load. */
  lemma HighByteFirst(x: bv32, b0: byte, b1: byte, b2: byte)
    ensures Add(Add(x, Shl16(b2)), LowHalf(Half(b0, b1))) == Add(x, Join(b0, b1, b2, 0))
  {
    hide Add, Join, Half, LowHalf, Shl0, Shl8, Shl16, Shl24;
    JoinOfHalves(b0, b1, 0, 0);
    var y := Add(x, Shl16(b2));
    ByteByByte(y, b0, b1, 0, 0);
    PastEnd(y, 0);
    ByteByByte(x, b0, b1, b2, 0);
    PastEnd(x, 0);
  }

  /** The key at an even address, read two bytes at a time. */
  method HashHalves(key: seq<byte>, initval: bv32) returns (r: bv32)
    ensures r == Hash(key, initval)
  {
    hide Add, Word, MixAll, FinalAll, Start;
    var w := Start(|key|, initval);
    var a, b, c := w.a, w.b, w.c;
    var length: nat, k: nat := |key|, 0;
    assert key[0..|key|] == key;
    while length > 12
      invariant k + length == |key|
      invariant Digest(Words(a, b, c), key[k..k + length]) == Hash(key, initval)
    {
      BlockAdded(Words(a, b, c), key, length, k);
      a := AddHalves(a, key, k);
      b := AddHalves(b, key, k + 4);
      c := AddHalves(c, key, k + 8);
      var m := Mix(Words(a, b, c));
      a, b, c := m.a, m.b, m.c;
      length, k := length - 12, k + 12;
    }
    if length == 0 { return c; }
    var tail := key[k..k + length];
    c := TailHalves(c, tail, 8);
    b := TailHalves(b, tail, 4);
    a := TailHalves(a, tail, 0);
    var f := Final(Words(a, b, c));
    r := f.c;
  }

  // ----- the 32-bit reader, which loads whole words and masks off what lies past the key

  lemma WordIs(k: seq<byte>, i: nat)
    requires i + 4 <= |k|
    ensures Word(k, i) == Join(k[i], k[i + 1], k[i + 2], k[i + 3])
  {
  }

  method TailWord(x: bv32, mem: seq<byte>, k: nat, length: nat, at: nat) returns (r: bv32)
    requires length <= 12 && at in {0, 4, 8} && k + length <= |mem|
    requires length > at ==> k + at + 4 <= |mem|
    ensures r == Add(x, Word(Pad(mem[k..k + length]), at))
  {
    hide Add, Join, Low24, Low16, Low8;
    ghost var p := Pad(mem[k..k + length]);
    assert forall i :: 0 <= i < 12 ==> p[i] == if i < length then mem[k + i] else 0;
    assert Word(p, at) == Join(p[at], p[at + 1], p[at + 2], p[at + 3]);
    hide Pad, Word;
    r := x;
    if length <= at {
      ZeroBytes(x);
    } else {
      var w := Word(mem, k + at);
      assert w == Join(mem[k + at], mem[k + at + 1], mem[k + at + 2], mem[k + at + 3]) by { WordIs(mem, k + at); }
      Masks(mem[k + at], mem[k + at + 1], mem[k + at + 2], mem[k + at + 3]);
      if length >= at + 4 {
        r := Add(r, w);
      } else if length == at + 3 {
        r := Add(r, Low24(w));
      } else if length == at + 2 {
        r := Add(r, Low16(w));
      } else {
        r := Add(r, Low8(w));
      }
    }
  }

  /** The key at a 4-aligned address.  mem is the memory from there to the end of the word the key ends
      in; what it holds past the key does not matter. */
  method HashWords(mem: seq<byte>, size: nat, initval: bv32) returns (r: bv32)
    requires size <= |mem| && |mem| % 4 == 0
    ensures r == Hash(mem[..size], initval)
  {
    hide Add, Word, MixAll, FinalAll, Start;
    var w := Start(size, initval);
    var a, b, c := w.a, w.b, w.c;
    var length: nat, k: nat := size, 0;
    assert mem[0..size] == mem[..size];
    while length > 12
      invariant k + length == size && k % 4 == 0
      invariant Digest(Words(a, b, c), mem[k..k + length]) == Hash(mem[..size], initval)
    {
      BlockAdded(Words(a, b, c), mem, length, k);
      a := Add(a, Word(mem, k));
      b := Add(b, Word(mem, k + 4));
      c := Add(c, Word(mem, k + 8));
      var m := Mix(Words(a, b, c));
      a, b, c := m.a, m.b, m.c;
      length, k := length - 12, k + 12;
    }
    if length == 0 { return c; }
    c := TailWord(c, mem, k, length, 8);
    b := TailWord(b, mem, k, length, 4);
    a := TailWord(a, mem, k, length, 0);
    var f := Final(Words(a, b, c));
    r := f.c;
  }

  /** hash: the address decides how the key is read, and the result does not depend on it. */
  method HashAt(address: nat, mem: seq<byte>, size: nat, initval: bv32) returns (r: bv32)
    requires size <= |mem| && |mem| % 4 == 0
    ensures r == Hash(mem[..size], initval)
  {
    if address % 4 == 0 {
      r := HashWords(mem, size, initval);
    } else if address % 2 == 0 {
      r := HashHalves(mem[..size], initval);
    } else {
      r := HashBytes(mem[..size], initval);
    }
  }

  // ----- a published value

  /** "Four score and seven years ago". */
  function FourScore(): (r: seq<byte>)
    ensures |r| == 30
  {
    FirstTwelve() + NextTwelve() + LastSix()
  }

  function FirstTwelve(): (r: seq<byte>)
    ensures |r| == 12
  {
    [70, 111, 117, 114, 32, 115, 99, 111, 114, 101, 32, 97]
  }

  function NextTwelve(): (r: seq<byte>)
    ensures |r| == 12
  {
    [110, 100, 32, 115, 101, 118, 101, 110, 32, 121, 101, 97]
  }

  function LastSix(): (r: seq<byte>)
    ensures |r| == 6
  {
    [114, 115, 32, 97, 103, 111]
  }

  lemma FirstBlock()
    ensures MixAll(Absorb(Words(0xdead_bf0d, 0xdead_bf0d, 0xdead_bf0d), FirstTwelve()))
         == Words(0xf859_ad7a, 0x04bc_57ae, 0x40dd_dd7e)
  {
    assert Absorb(Words(0xdead_bf0d, 0xdead_bf0d, 0xdead_bf0d), FirstTwelve())
        == Words(0x5123_2e53, 0x4e11_322d, 0x3fce_247f);
    assert MixLine(Words(0x5123_2e53, 0x4e11_322d, 0x3fce_247f), 4) == Words(0x4e11_322d, 0x8ddf_56ac, 0xedb7_4e27);
    assert MixLine(Words(0x4e11_322d, 0x8ddf_56ac, 0xedb7_4e27), 6) == Words(0x8ddf_56ac, 0x7b96_a4d3, 0x0d8a_6dfd);
    assert MixLine(Words(0x8ddf_56ac, 0x7b96_a4d3, 0x0d8a_6dfd), 8) == Words(0x7b96_a4d3, 0x8921_12d0, 0x0a39_15a2);
    assert MixLine(Words(0x7b96_a4d3, 0x8921_12d0, 0x0a39_15a2), 16) == Words(0x8921_12d0, 0x935a_2872, 0x64ff_8508);
    assert MixLine(Words(0x8921_12d0, 0x935a_2872, 0x64ff_8508), 19) == Words(0x935a_2872, 0xf859_ad7a, 0x0c62_aa34);
    assert MixLine(Words(0x935a_2872, 0xf859_ad7a, 0x0c62_aa34), 4) == Words(0xf859_ad7a, 0x04bc_57ae, 0x40dd_dd7e);
  }

  lemma NextBlock()
    ensures MixAll(Absorb(Words(0xf859_ad7a, 0x04bc_57ae, 0x40dd_dd7e), NextTwelve()))
         == Words(0x336a_ded2, 0x059f_2642, 0xbd02_ebd5)
  {
    assert Absorb(Words(0xf859_ad7a, 0x04bc_57ae, 0x40dd_dd7e), NextTwelve())
        == Words(0x6b7a_11e8, 0x7321_ce13, 0xa243_569e);
    assert MixLine(Words(0x6b7a_11e8, 0x7321_ce13, 0xa243_569e), 4) == Words(0x7321_ce13, 0x1565_24b1, 0xed03_d2a0);
    assert MixLine(Words(0x7321_ce13, 0x1565_24b1, 0xed03_d2a0), 6) == Words(0x1565_24b1, 0x0268_f751, 0xc6e9_5348);
    assert MixLine(Words(0x1565_24b1, 0x0268_f751, 0xc6e9_5348), 8) == Words(0x0268_f751, 0xc952_4a99, 0xa728_99af);
    assert MixLine(Words(0x0268_f751, 0xc952_4a99, 0xa728_99af), 16) == Words(0xc952_4a99, 0x707a_e448, 0xc2ef_fa8a);
    assert MixLine(Words(0xc952_4a99, 0x707a_e448, 0xc2ef_fa8a), 19) == Words(0x707a_e448, 0x336a_ded2, 0xd234_4770);
    assert MixLine(Words(0x707a_e448, 0x336a_ded2, 0xd234_4770), 4) == Words(0x336a_ded2, 0x059f_2642, 0xbd02_ebd5);
  }

  lemma LastBlock()
    ensures FinalAll(Absorb(Words(0x336a_ded2, 0x059f_2642, 0xbd02_ebd5), Pad(LastSix()))).c == 0x1777_0551
  {
    assert Pad(LastSix()) == LastSix() + [0, 0, 0, 0, 0, 0];
    assert Absorb(Words(0x336a_ded2, 0x059f_2642, 0xbd02_ebd5), Pad(LastSix()))
        == Words(0x948b_5244, 0x059f_95a9, 0xbd02_ebd5);
    assert FinalLine(Words(0x948b_5244, 0x059f_95a9, 0xbd02_ebd5), 14) == Words(0x059f_95a9, 0xd333_3d15, 0x948b_5244);
    assert FinalLine(Words(0x059f_95a9, 0xd333_3d15, 0x948b_5244), 11) == Words(0xd333_3d15, 0xadcf_c0b8, 0x059f_95a9);
    assert FinalLine(Words(0xd333_3d15, 0xadcf_c0b8, 0x059f_95a9), 25) == Words(0xadcf_c0b8, 0x36f4_b590, 0xd333_3d15);
    assert FinalLine(Words(0xadcf_c0b8, 0x36f4_b590, 0xd333_3d15), 16) == Words(0x36f4_b590, 0x3037_5191, 0xadcf_c0b8);
    assert FinalLine(Words(0x36f4_b590, 0x3037_5191, 0xadcf_c0b8), 4) == Words(0x3037_5191, 0x9a83_7816, 0x36f4_b590);
    assert FinalLine(Words(0x3037_5191, 0x9a83_7816, 0x36f4_b590), 14) == Words(0x9a83_7816, 0xce72_26e6, 0x3037_5191);
    assert FinalLine(Words(0x9a83_7816, 0xce72_26e6, 0x3037_5191), 24) == Words(0xce72_26e6, 0x1777_0551, 0x9a83_7816);
  }

  /** The value published for this text and the start value 0. */
  lemma KnownValue()
    ensures Hash(FourScore(), 0) == 0x1777_0551
  {
    hide MixAll, FinalAll, Absorb, Add, FirstTwelve, NextTwelve, LastSix, Pad;
    FirstStart();
    FirstBlock();
    NextBlock();
    LastBlock();
    var key, more := FourScore(), NextTwelve() + LastSix();
    assert key[..12] == FirstTwelve() && key[12..] == more;
    assert more[..12] == NextTwelve() && more[12..] == LastSix();
    assert Digest(Words(0xf859_ad7a, 0x04bc_57ae, 0x40dd_dd7e), more)
        == Digest(Words(0x336a_ded2, 0x059f_2642, 0xbd02_ebd5), LastSix());
  }

  lemma FirstStart()
    ensures Start(30, 0) == Words(0xdead_bf0d, 0xdead_bf0d, 0xdead_bf0d)
  {
    Start30();
    Small30(30);
    hide Add;
  }

  lemma Small30(length: nat)
    requires length == 30
    ensures (length % 0x1_0000_0000) as bv32 == 30
  {
    assert length % 0x1_0000_0000 == length;
  }

  lemma Start30()
    ensures Add(Add(0xdead_beef, 30), 0) == 0xdead_bf0d
  {
  }

  /** The value of the empty text. */
  lemma EmptyValue()
    ensures Hash([], 0) == 0xdead_beef
  {
  }

  /** A text of twelve bytes is one last block, not a block and an empty rest. */
  lemma TwelveBytes()
    ensures Hash(FirstTwelve(), 0) == 0xccda_323b
  {
    hide FinalAll, Absorb, Add, FirstTwelve, Pad;
    TwelveStart();
    TwelveBlock();
    assert Pad(FirstTwelve()) == FirstTwelve();
  }

  lemma TwelveStart()
    ensures Start(12, 0) == Words(0xdead_befb, 0xdead_befb, 0xdead_befb)
  {
    assert Add(Add(0xdead_beef, 12), 0) == 0xdead_befb;
    Small12(12);
    hide Add;
  }

  lemma Small12(length: nat)
    requires length == 12
    ensures (length % 0x1_0000_0000) as bv32 == 12
  {
    assert length % 0x1_0000_0000 == length;
  }

  lemma TwelveBlock()
    ensures FinalAll(Absorb(Words(0xdead_befb, 0xdead_befb, 0xdead_befb), FirstTwelve())).c == 0xccda_323b
  {
    assert Absorb(Words(0xdead_befb, 0xdead_befb, 0xdead_befb), FirstTwelve())
        == Words(0x5123_2e41, 0x4e11_321b, 0x3fce_246d);
    assert FinalLine(Words(0x5123_2e41, 0x4e11_321b, 0x3fce_246d), 14) == Words(0x4e11_321b, 0x2558_42f2, 0x5123_2e41);
    assert FinalLine(Words(0x4e11_321b, 0x2558_42f2, 0x5123_2e41), 11) == Words(0x2558_42f2, 0xb263_db89, 0x4e11_321b);
    assert FinalLine(Words(0x2558_42f2, 0xb263_db89, 0x4e11_321b), 25) == Words(0xb263_db89, 0xe90e_21db, 0x2558_42f2);
    assert FinalLine(Words(0xb263_db89, 0xe90e_21db, 0x2558_42f2), 16) == Words(0xe90e_21db, 0xaa7a_7a1b, 0xb263_db89);
    assert FinalLine(Words(0xe90e_21db, 0xaa7a_7a1b, 0xb263_db89), 4) == Words(0xaa7a_7a1b, 0x7071_ffd8, 0xe90e_21db);
    assert FinalLine(Words(0xaa7a_7a1b, 0x7071_ffd8, 0xe90e_21db), 14) == Words(0x7071_ffd8, 0x1989_c1e7, 0xaa7a_7a1b);
    assert FinalLine(Words(0x7071_ffd8, 0x1989_c1e7, 0xaa7a_7a1b), 24) == Words(0x1989_c1e7, 0xccda_323b, 0x7071_ffd8);
  }
}
