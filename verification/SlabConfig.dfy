/** How a set of slab allocators is configured: item sizes, the sort by size, and the refusal of duplicates. */
module SlabConfig {
  import opened SlabMemory
  import opened SlabAllocator
  import opened Bits
  import opened Sequences

  // ---- Sizes and alignment ----

  /** boost::alignment::align_up: the least multiple of `align` that is at least x. */
  function AlignUp(x: nat, align: nat): nat
    requires align > 0
  {
    if x % align == 0 then x else x + (align - x % align)
  }

  lemma AlignUpIsAligned(x: nat, align: nat)
    requires align > 0
    ensures AlignUp(x, align) % align == 0 && x <= AlignUp(x, align) < x + align
  {
    if x % align != 0 {
      var q := x / align;
      assert align * (q + 1) == align * q + align;
      DivModUnique(AlignUp(x, align), align, q + 1, 0);
    }
  }

  lemma MultiplesApart(x: nat, y: nat, d: nat)
    requires d > 0 && x % d == 0 && y % d == 0 && y < x
    ensures y + d <= x
  {
    MulStep(d, y / d, x / d);
  }

  /** The arithmetic of size_t. */
  function Wrap(x: nat): nat { x % ADDRESSES }

  lemma WrapOnce(x: nat)
    requires x < 2 * ADDRESSES
    ensures Wrap(x) == if x < ADDRESSES then x else x - ADDRESSES
  {}

  /** SlabAllocator::size. */
  function ItemSize(typeSize: nat, extra: nat, align: nat): nat
    requires align > 0
  {
    Wrap(AlignUp(Wrap(typeSize + extra), align))
  }

  lemma ItemUnwrapped(typeSize: nat, extra: nat, align: nat)
    requires align > 0 && AlignUp(typeSize + extra, align) < ADDRESSES
    ensures ItemSize(typeSize, extra, align) == AlignUp(typeSize + extra, align) >= typeSize + extra
  {
    AlignUpIsAligned(typeSize + extra, align);
    hide AlignUp, Wrap;
    WrapOnce(typeSize + extra);
    WrapOnce(AlignUp(typeSize + extra, align));
  }

  /** An item holds the type and the extra bytes exactly when their aligned size does not wrap around. */
  lemma ItemHoldsRequestIff(typeSize: nat, extra: nat, align: nat)
    requires 0 < align < ADDRESSES && typeSize < ADDRESSES && extra < ADDRESSES
    ensures typeSize + extra <= ItemSize(typeSize, extra, align) <==> AlignUp(typeSize + extra, align) < ADDRESSES
  {
    var sum := typeSize + extra;
    AlignUpIsAligned(sum, align);
    AlignUpIsAligned(Wrap(sum), align);
    hide AlignUp, Wrap;
    WrapOnce(sum);
    WrapOnce(AlignUp(Wrap(sum), align));
  }

  /** SlabConfig: the extra bytes of an item, the size of a slab, and the alignment (0 for the type's own). */
  datatype Config = Config(extra: nat, alloc: nat, align: nat)

  function Alignment(c: Config, typeAlign: nat): nat {
    if c.align != 0 then c.align else typeAlign
  }

  /** The configuration is made of size_t values, and its item size does not wrap around. */
  predicate Sound(c: Config, typeSize: nat, typeAlign: nat) {
    && PTR <= typeSize && 0 < typeAlign
    && c.alloc < ADDRESSES && AlignUp(typeSize + c.extra, Alignment(c, typeAlign)) < ADDRESSES
  }

  /** An allocator has the slab size and the alignment of its configuration, the type's own alignment for none, and
      the least item size, a multiple of the alignment, that holds the type and the extra bytes. */
  ghost predicate Configured(a: Allocator, c: Config, typeSize: nat, typeAlign: nat) {
    && a.slabSize == c.alloc
    && (c.align != 0 ==> a.align == c.align) && (c.align == 0 ==> a.align == typeAlign)
    && a.align > 0 && a.item % a.align == 0 && a.item - a.align < typeSize + c.extra <= a.item
  }

  /** SlabAllocator::SlabAllocator. */
  function NewAllocator(c: Config, typeSize: nat, typeAlign: nat): (a: Allocator)
    requires Sound(c, typeSize, typeAlign)
    ensures Shape(a) && a.slabs == [] && Configured(a, c, typeSize, typeAlign)
  {
    var align := Alignment(c, typeAlign);
    AlignUpIsAligned(typeSize + c.extra, align);
    ItemUnwrapped(typeSize, c.extra, align);
    Allocator(align, ItemSize(typeSize, c.extra, align), c.alloc, [])
  }

  // ---- Configurations ----

  ghost predicate Ascending(cfg: seq<Config>) {
    forall i, j | 0 <= i < j < |cfg| :: cfg[i].extra <= cfg[j].extra
  }

  function Insert(c: Config, cfg: seq<Config>): seq<Config> {
    if cfg == [] || c.extra <= cfg[0].extra then [c] + cfg else [cfg[0]] + Insert(c, cfg[1..])
  }

  /** std::sort by the extra bytes. */
  function Sorted(cfg: seq<Config>): seq<Config> {
    if cfg == [] then [] else Insert(cfg[0], Sorted(cfg[1..]))
  }

  lemma {:induction false} InsertAdds(c: Config, cfg: seq<Config>)
    ensures multiset(Insert(c, cfg)) == multiset(cfg) + multiset{c}
  {
    if cfg != [] {
      assert cfg == [cfg[0]] + cfg[1..];
      if c.extra > cfg[0].extra { InsertAdds(c, cfg[1..]); }
    }
  }

  lemma {:induction false} InsertSorts(c: Config, cfg: seq<Config>)
    requires Ascending(cfg)
    ensures Ascending(Insert(c, cfg))
  {
    if cfg != [] && c.extra > cfg[0].extra {
      var rest := Insert(c, cfg[1..]);
      InsertSorts(c, cfg[1..]);
      InsertAdds(c, cfg[1..]);
      forall i | 0 <= i < |rest| ensures cfg[0].extra <= rest[i].extra {
        assert rest[i] in multiset(rest);
        assert rest[i] == c || rest[i] in cfg[1..];
      }
    }
  }

  lemma {:induction false} SortedSorts(cfg: seq<Config>)
    ensures Ascending(Sorted(cfg)) && multiset(Sorted(cfg)) == multiset(cfg)
  {
    if cfg != [] {
      SortedSorts(cfg[1..]);
      InsertSorts(cfg[0], Sorted(cfg[1..]));
      InsertAdds(cfg[0], Sorted(cfg[1..]));
      assert cfg == [cfg[0]] + cfg[1..];
    }
  }

  /** Two configurations, or two copies of one, ask for the same number of extra bytes. */
  ghost predicate Repeats(cfg: seq<Config>) {
    exists c, d | c in cfg && d in cfg :: c.extra == d.extra && (c == d ==> multiset(cfg)[c] > 1)
  }

  lemma RepeatsOfPermuted(cfg: seq<Config>, cfg': seq<Config>)
    requires multiset(cfg) == multiset(cfg')
    ensures Repeats(cfg) <==> Repeats(cfg')
  {
    assert forall c :: c in cfg <==> c in multiset(cfg);
    assert forall c :: c in cfg' <==> c in multiset(cfg');
  }

  /** std::adjacent_find for equal numbers of extra bytes. */
  predicate AdjacentSame(cfg: seq<Config>) {
    exists i | 0 <= i < |cfg| - 1 :: cfg[i].extra == cfg[i + 1].extra
  }

  lemma RepeatsIsAdjacent(cfg: seq<Config>)
    requires Ascending(cfg) && Repeats(cfg)
    ensures AdjacentSame(cfg)
  {
    var c, d :| c in cfg && d in cfg && c.extra == d.extra && (c == d ==> multiset(cfg)[c] > 1);
    var i: nat, j: nat;
    if c == d {
      i, j := TwoPlaces(cfg, c);
    } else {
      i :| i < |cfg| && cfg[i] == c;
      j :| j < |cfg| && cfg[j] == d;
      if j < i { i, j := j, i; }
    }
    hide Repeats;
    if i + 1 < j { assert cfg[i].extra <= cfg[i + 1].extra <= cfg[j].extra; }
    assert cfg[i].extra == cfg[i + 1].extra;
  }

  /** In a sorted list, looking at neighbours finds every repetition. */
  lemma AdjacentFindsAll(cfg: seq<Config>)
    requires Ascending(cfg)
    ensures AdjacentSame(cfg) <==> Repeats(cfg)
  {
    if Repeats(cfg) { RepeatsIsAdjacent(cfg); }
    hide Ascending;
    if i :| 0 <= i < |cfg| - 1 && cfg[i].extra == cfg[i + 1].extra {
      if cfg[i] == cfg[i + 1] { CountedTwice(cfg, i, i + 1); }
      assert cfg[i] in cfg && cfg[i + 1] in cfg;
    }
  }

  ghost predicate BuiltFrom(allocators: seq<Allocator>, cfg: seq<Config>, typeSize: nat, typeAlign: nat) {
    |allocators| == |cfg| && forall i | 0 <= i < |cfg| :: Configured(allocators[i], cfg[i], typeSize, typeAlign)
  }

  /** With the same alignment, more extra bytes need no smaller items. */
  lemma ItemGrows(a: Allocator, b: Allocator, c: Config, d: Config, typeSize: nat, typeAlign: nat)
    requires Configured(a, c, typeSize, typeAlign) && Configured(b, d, typeSize, typeAlign)
    requires c.extra <= d.extra && a.align == b.align
    ensures a.item <= b.item
  {
    if b.item < a.item { MultiplesApart(a.item, b.item, a.align); }
  }
}
