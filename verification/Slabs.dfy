/** The slab schedule: which chunk sizes a store has, and which one serves a given item.

    Sizes are those of a 64-bit build.  The growth factor is a fraction num/den; multiplying a size
    by it and storing the product back into an integer rounds down. */
module Slabs {

  const HEADER: nat := 64        // sizeof(shmc_item_t)
  const ALIGN_BYTES: nat := 8

  datatype Attr = Attr(memLimit: nat, nbuckets: nat, itemSizeMin: nat, itemSizeMax: nat,
                       num: nat, den: nat, evictToFree: bool, defaultCounter: bool)

  /** The factor of r is the larger of attr's and 3/2; everything else is as in attr. */
  predicate Raised(attr: Attr, r: Attr) {
    && r == attr.(num := r.num, den := r.den) && r.den > 0
    && 2 * r.num >= 3 * r.den && r.num * attr.den >= attr.num * r.den
    && (2 * r.num == 3 * r.den || r.num * attr.den == attr.num * r.den)
  }

  /** shmc_init raises a factor of at most 3/2 to 3/2. */
  function Clamp(attr: Attr): (r: Attr)
    requires attr.den > 0
    ensures FactorOk(r) && Raised(attr, r)
  {
    if 2 * attr.num <= 3 * attr.den then attr.(num := 3, den := 2) else attr
  }

  predicate FactorOk(attr: Attr) {
    attr.den > 0 && 2 * attr.num >= 3 * attr.den
  }

  function AlignSize(size: nat): (r: nat)
    ensures r % ALIGN_BYTES == 0 && size <= r < size + ALIGN_BYTES
  {
    if size % ALIGN_BYTES != 0 then size + ALIGN_BYTES - size % ALIGN_BYTES else size
  }

  /** The product with the factor, rounded down. */
  function Grow(attr: Attr, size: nat): (r: nat)
    requires attr.den > 0
    ensures r * attr.den <= size * attr.num < r * attr.den + attr.den
  {
    FloorBounds(size * attr.num, attr.den);
    size * attr.num / attr.den
  }

  /** Flooring the product, in numbers: q is the floor of p / d. */
  lemma FloorBounds(p: nat, d: nat)
    requires d > 0
    ensures (p / d) * d <= p < (p / d) * d + d
  {
    assert p == (p / d) * d + p % d;
  }

  lemma GrowsByHalf(attr: Attr, size: nat)
    requires FactorOk(attr)
    ensures 2 * Grow(attr, size) + 1 >= 3 * size
  {
    FloorBounds(size * attr.num, attr.den);
    HalfArithmetic(size, attr.num, attr.den, Grow(attr, size));
  }

  lemma HalfArithmetic(size: nat, n: nat, d: nat, q: nat)
    requires d > 0 && 2 * n >= 3 * d && size * n < q * d + d
    ensures 2 * q + 1 >= 3 * size
  {
    calc {
      (3 * size) * d;
      size * (3 * d);
    <= { LessTimes(3 * d, 2 * n, size); }
      size * (2 * n);
      2 * (size * n);
    < 2 * (q * d + d);
      (2 * q + 2) * d;
    }
    if 2 * q + 2 <= 3 * size {
      LessTimes(2 * q + 2, 3 * size, d);
    }
  }

  lemma LessTimes(x: nat, y: nat, k: nat)
    requires x <= y
    ensures x * k <= y * k && k * x <= k * y
  {
  }

  /** The chunk sizes from a given starting size on, as both count_of_slabs and format_slabs visit them. */
  function Schedule(attr: Attr, size: nat): seq<nat>
    requires FactorOk(attr) && size >= HEADER
    decreases attr.itemSizeMax - size
  {
    if size < attr.itemSizeMax then
      var aligned := AlignSize(size);
      GrowsByHalf(attr, aligned);
      [aligned] + Schedule(attr, Grow(attr, aligned))
    else
      []
  }

  function Sizes(attr: Attr): seq<nat>
    requires FactorOk(attr)
  {
    Schedule(attr, HEADER + attr.itemSizeMin)
  }

  ghost predicate Increasing(sizes: seq<nat>) {
    forall i, j :: 0 <= i < j < |sizes| ==> sizes[i] < sizes[j]
  }

  /** Every scheduled size is a multiple of 8 no larger than the limit, sizes strictly increase, each one is the
      aligned product of its predecessor, and they go on until the product reaches the limit. */
  lemma {:induction false} ScheduleShape(attr: Attr, size: nat)
    requires FactorOk(attr) && size >= HEADER && attr.itemSizeMax % ALIGN_BYTES == 0
    ensures var s := Schedule(attr, size);
            && Increasing(s)
            && (forall i :: 0 <= i < |s| ==> s[i] % ALIGN_BYTES == 0 && size <= s[i] <= attr.itemSizeMax)
            && (forall i :: 0 < i < |s| ==> s[i] == AlignSize(Grow(attr, s[i - 1])))
            && (s != [] ==> s[0] == AlignSize(size) && Grow(attr, s[|s| - 1]) >= attr.itemSizeMax)
            && (s == [] <==> size >= attr.itemSizeMax)
    decreases attr.itemSizeMax - size
  {
    if size < attr.itemSizeMax {
      var aligned := AlignSize(size);
      GrowsByHalf(attr, aligned);
      var grown := Grow(attr, aligned);
      var rest, s := Schedule(attr, grown), Schedule(attr, size);
      ScheduleShape(attr, grown);
      assert s == [aligned] + rest;
      AlignedBelow(size, attr.itemSizeMax);
      ConsIncreasing(aligned, rest);
      forall i | 0 < i < |s| ensures s[i] == AlignSize(Grow(attr, s[i - 1])) {
        assert s[i] == rest[i - 1];
        if i > 1 { assert s[i - 1] == rest[i - 2]; }
      }
    }
  }

  lemma AlignedBelow(size: nat, max: nat)
    requires size < max && max % ALIGN_BYTES == 0
    ensures AlignSize(size) <= max
  {
  }

  lemma ConsIncreasing(x: nat, rest: seq<nat>)
    requires Increasing(rest) && (rest != [] ==> x < rest[0])
    ensures Increasing([x] + rest)
  {
    var s := [x] + rest;
    forall i, j | 0 <= i < j < |s| ensures s[i] < s[j] {
      assert s[j] == rest[j - 1];
      if i > 0 { assert s[i] == rest[i - 1]; }
    }
  }

  /** count_of_slabs. */
  method CountOfSlabs(attr: Attr) returns (count: nat)
    requires FactorOk(attr)
    ensures count == |Sizes(attr)|
  {
    var size := HEADER + attr.itemSizeMin;
    count := 0;
    while size < attr.itemSizeMax
      invariant size >= HEADER
      invariant |Sizes(attr)| == count + |Schedule(attr, size)|
      decreases attr.itemSizeMax - size
    {
      size := AlignSize(size);
      GrowsByHalf(attr, size);
      size := Grow(attr, size);
      count := count + 1;
    }
  }

  // ----- the configuration a running store works with

  /** sizes, counts: bytes per chunk and chunks per page of each class. */
  datatype Config = Config(sizes: seq<nat>, counts: seq<nat>, itemSizeMax: nat, memLimit: nat, nbuckets: nat,
                           evictToFree: bool, defaultCounter: bool)
  {
    predicate Valid() {
      && |counts| == |sizes| > 0 && nbuckets > 0
      && (forall i :: 0 <= i < |sizes| ==> HEADER <= sizes[i] <= itemSizeMax)
      && (forall i :: 0 <= i < |counts| ==> counts[i] >= 1)
    }

    function PageBytes(id: nat): nat
      requires Valid() && id < |sizes|
    {
      sizes[id] * counts[id]
    }

    function Last(): nat
      requires Valid()
    {
      sizes[|sizes| - 1]
    }

    /** item_size_ok, on the whole item. */
    predicate SizeOk(size: nat) {
      size < itemSizeMax
    }

    /** item_clsid walks past the end of the slab table unless the size is in range. */
    function ClassOf(size: nat): (id: nat)
      requires Valid() && size <= Last()
      ensures id < |sizes| && size <= sizes[id]
      ensures id > 0 ==> sizes[id - 1] < size
    {
      ClassFrom(size, 0)
    }

    function ClassFrom(size: nat, from: nat): (id: nat)
      requires Valid() && size <= Last() && from < |sizes|
      ensures from <= id < |sizes| && size <= sizes[id]
      ensures id > from ==> sizes[id - 1] < size
      decreases |sizes| - from
    {
      if size > sizes[from] then ClassFrom(size, from + 1) else from
    }

    /** The class chosen is the first that is large enough. */
    lemma ClassLeast(size: nat, from: nat, id: nat)
      requires Valid() && size <= Last() && from < |sizes| && from <= id < ClassFrom(size, from)
      ensures sizes[id] < size
      decreases |sizes| - from
    {
      if from < id {
        ClassLeast(size, from + 1, id);
      }
    }
  }

  /** Chunks per page. */
  function CountsOf(sizes: seq<nat>, itemSizeMax: nat): (r: seq<nat>)
    ensures |r| == |sizes| && forall i :: 0 <= i < |r| && sizes[i] > 0 ==> r[i] == itemSizeMax / sizes[i]
  {
    seq(|sizes|, i requires 0 <= i < |sizes| => if sizes[i] == 0 then 0 else itemSizeMax / sizes[i])
  }

  function ConfigOf(attr: Attr): Config
    requires FactorOk(attr)
  {
    Config(Sizes(attr), CountsOf(Sizes(attr), attr.itemSizeMax), attr.itemSizeMax, attr.memLimit, attr.nbuckets,
           attr.evictToFree, attr.defaultCounter)
  }

  /** The size loop of format_slabs: the table it fills is the one count_of_slabs counted. */
  method FormatSizes(attr: Attr, slabsCount: nat) returns (sizes: seq<nat>, counts: seq<nat>)
    requires FactorOk(attr) && slabsCount == |Sizes(attr)|
    ensures sizes == ConfigOf(attr).sizes && counts == ConfigOf(attr).counts
  {
    hide Schedule;
    var size := HEADER + attr.itemSizeMin;
    sizes, counts := [], [];
    assert [] + Sizes(attr) == Sizes(attr);
    for id := 0 to slabsCount
      invariant size >= HEADER && |sizes| == |counts| == id
      invariant Sizes(attr) == sizes + Schedule(attr, size)
      invariant forall i :: 0 <= i < id ==> sizes[i] > 0 && counts[i] == attr.itemSizeMax / sizes[i]
    {
      ScheduleStep(attr, size, sizes);
      size := AlignSize(size);
      sizes := sizes + [size];
      counts := counts + [attr.itemSizeMax / size];
      size := Grow(attr, size);
    }
    assert sizes == Sizes(attr);
  }

  lemma ScheduleStep(attr: Attr, size: nat, before: seq<nat>)
    requires FactorOk(attr) && size >= HEADER && Schedule(attr, size) != []
    ensures Grow(attr, AlignSize(size)) >= HEADER
    ensures before + Schedule(attr, size) == (before + [AlignSize(size)]) + Schedule(attr, Grow(attr, AlignSize(size)))
  {
    GrowsByHalf(attr, AlignSize(size));
    var rest := Schedule(attr, Grow(attr, AlignSize(size)));
    assert before + ([AlignSize(size)] + rest) == (before + [AlignSize(size)]) + rest;
  }

  /** The attributes for which every class gets at least one chunk per page. */
  lemma ConfigValid(attr: Attr)
    requires FactorOk(attr) && attr.nbuckets > 0
    requires attr.itemSizeMax % ALIGN_BYTES == 0 && HEADER + attr.itemSizeMin < attr.itemSizeMax
    ensures ConfigOf(attr).Valid() && Increasing(ConfigOf(attr).sizes)
  {
    ScheduleShape(attr, HEADER + attr.itemSizeMin);
    var cfg := ConfigOf(attr);
    forall i | 0 <= i < |cfg.counts| ensures cfg.counts[i] >= 1 {
      QuotientPositive(attr.itemSizeMax, cfg.sizes[i]);
    }
  }

  lemma QuotientPositive(x: nat, y: nat)
    requires 0 < y <= x
    ensures x / y >= 1
  {
  }

  /** Internal waste: apart from items that fit the first class, the chunk chosen is smaller than the
      factor times the item, plus the alignment. */
  lemma WasteBound(attr: Attr, size: nat)
    requires FactorOk(attr) && attr.itemSizeMax % ALIGN_BYTES == 0
    requires ConfigOf(attr).Valid() && size <= ConfigOf(attr).Last()
    requires size > Sizes(attr)[0]
    ensures Sizes(attr)[ConfigOf(attr).ClassOf(size)] * attr.den < size * attr.num + ALIGN_BYTES * attr.den
  {
    var sizes := Sizes(attr);
    ScheduleShape(attr, HEADER + attr.itemSizeMin);
    var id := ConfigOf(attr).ClassOf(size);
    assert sizes[id] == AlignSize(Grow(attr, sizes[id - 1]));
    WasteArithmetic(sizes[id - 1], size, attr.num, attr.den, sizes[id]);
  }

  lemma WasteArithmetic(below: nat, size: nat, n: nat, d: nat, chosen: nat)
    requires below < size && d > 0 && chosen < below * n / d + ALIGN_BYTES
    ensures chosen * d < size * n + ALIGN_BYTES * d
  {
    FloorBounds(below * n, d);
    WasteProducts(below, size, n, d, chosen, below * n / d);
  }

  lemma WasteProducts(below: nat, size: nat, n: nat, d: nat, chosen: nat, q: nat)
    requires below < size && d > 0 && chosen + 1 <= q + ALIGN_BYTES && q * d <= below * n
    ensures chosen * d < size * n + ALIGN_BYTES * d
  {
    LessTimes(chosen + 1, q + ALIGN_BYTES, d);
    LessTimes(below, size, n);
    Distribute(chosen, 1, d);
    Distribute(q, ALIGN_BYTES, d);
  }

  lemma Distribute(x: nat, y: nat, k: nat)
    ensures (x + y) * k == x * k + y * k
  {
  }

  /** item_size_ok alone does not keep item_clsid inside the table: it does exactly when the last
      chunk size reaches the limit, up to the strict comparison. */
  lemma SizeOkSufficesIff(cfg: Config)
    requires cfg.Valid()
    ensures (forall size: nat :: cfg.SizeOk(size) ==> size <= cfg.Last()) <==> cfg.itemSizeMax <= cfg.Last() + 1
  {
    if cfg.itemSizeMax > cfg.Last() + 1 {
      assert cfg.SizeOk(cfg.Last() + 1);
    }
  }

  const DEFAULT_ATTR := Attr(64 * 1024 * 1024, 65536, 64, 1024 * 1024, 2, 1, true, true)

  lemma DoublingSchedule(attr: Attr, size: nat)
    requires FactorOk(attr) && attr.num == 2 && attr.den == 1 && size >= HEADER && size % ALIGN_BYTES == 0
    requires size < attr.itemSizeMax
    ensures Schedule(attr, size) == [size] + Schedule(attr, 2 * size)
  {
    assert AlignSize(size) == size && Grow(attr, size) == 2 * size;
  }

  /** With the default attributes the gap is real: sizes stop at 524288, so an item of 600000 bytes
      passes item_size_ok although no class holds it. */
  lemma DefaultGap()
    ensures ConfigOf(DEFAULT_ATTR).Valid() && ConfigOf(DEFAULT_ATTR).Last() == 524288
    ensures ConfigOf(DEFAULT_ATTR).SizeOk(600000) && 600000 > ConfigOf(DEFAULT_ATTR).Last()
  {
    var a := DEFAULT_ATTR;
    ConfigValid(a);
    LastOfDoubling(a, 128, 12);
  }

  function Pow2(n: nat): nat { if n == 0 then 1 else 2 * Pow2(n - 1) }

  lemma {:induction false} LastOfDoubling(attr: Attr, size: nat, steps: nat)
    requires FactorOk(attr) && attr.num == 2 && attr.den == 1 && size >= HEADER && size % ALIGN_BYTES == 0
    requires size * Pow2(steps) < attr.itemSizeMax <= 2 * (size * Pow2(steps))
    ensures var s := Schedule(attr, size); s != [] && s[|s| - 1] == size * Pow2(steps)
    decreases steps
  {
    Pow2Positive(steps);
    Pow2Times(size, steps);
    hide Schedule, Pow2;
    DoublingSchedule(attr, size);
    if steps > 0 {
      LastOfDoubling(attr, 2 * size, steps - 1);
    } else {
      PastTheEnd(attr, 2 * size);
    }
  }

  lemma PastTheEnd(attr: Attr, size: nat)
    requires FactorOk(attr) && size >= HEADER && size >= attr.itemSizeMax
    ensures Schedule(attr, size) == []
  {
  }

  lemma Pow2Times(size: nat, steps: nat)
    ensures steps > 0 ==> (2 * size) * Pow2(steps - 1) == size * Pow2(steps)
    ensures steps == 0 ==> size * Pow2(steps) == size
    ensures size <= size * Pow2(steps)
  {
    Pow2Positive(steps);
    LessTimes(1, Pow2(steps), size);
    if steps > 0 { TwoTimes(size, Pow2(steps - 1)); }
  }

  lemma TwoTimes(x: nat, p: nat)
    ensures (2 * x) * p == x * (2 * p)
  {
  }

  lemma Pow2Positive(n: nat)
    ensures Pow2(n) >= 1
  {
  }
}
