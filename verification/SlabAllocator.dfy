/** Slabs carved into equal items, each free item holding the link to the next one. */
module SlabAllocator {
  import opened SlabMemory
  import opened Bits

  /** A SlabBlock: the buffer it begins, where its header is, the extent [p, p + size) it carves, and the head of its
      free list (0 is null). The free list and the items handed out are recorded beside them. */
  datatype Slab = Slab(buf: nat, p: nat, size: nat, head: nat, free: seq<nat>, out: set<nat>)

  /** A SlabAllocator: its slabs, newest first. */
  datatype Allocator = Allocator(align: nat, item: nat, slabSize: nat, slabs: seq<Slab>)

  /** The allocators of one type over the memory they share; a slab's header takes `header` bytes. */
  datatype Heap = Heap(header: nat, mem: Memory, allocators: seq<Allocator>)

  predicate Own(s: Slab, a: nat) { s.p <= a < s.p + s.size }

  /** The free list stored in memory: each free item begins with the address of the next. */
  ghost predicate Linked(m: Memory, head: nat, free: seq<nat>)
    decreases |free|
  {
    if free == [] then head == 0
    else head == free[0] != 0 && Linked(m, LoadPtr(m, head), free[1..])
  }

  ghost function Elements(free: seq<nat>): set<nat> {
    set x | x in free
  }

  lemma ElementsCons(x: nat, free: seq<nat>)
    ensures Elements([x] + free) == {x} + Elements(free) && ([x] + free)[1..] == free
  {}

  ghost predicate Distinct(free: seq<nat>) {
    forall i, j | 0 <= i < j < |free| :: free[i] != free[j]
  }

  /** The highest item first. */
  ghost predicate Descending(free: seq<nat>) {
    forall i, j | 0 <= i < j < |free| :: free[i] > free[j]
  }

  /** The items carved from [data, limit). */
  ghost function Items(data: nat, item: nat, limit: nat): (r: set<nat>)
    requires item > 0
    ensures forall a | a in r :: data <= a && a + item <= limit
    decreases limit - data
  {
    if data + item <= limit then {data} + Items(data + item, item, limit) else {}
  }

  lemma {:induction false} ItemsApart(data: nat, item: nat, limit: nat)
    requires item > 0
    ensures forall a, b | a in Items(data, item, limit) && b in Items(data, item, limit) && a < b :: a + item <= b
    decreases limit - data
  {
    if data + item <= limit { ItemsApart(data + item, item, limit); }
  }

  lemma AddAligned(x: nat, y: nat, d: nat)
    requires d > 0 && x % d == 0 && y % d == 0
    ensures (x + y) % d == 0
  {
    var p, q := x / d, y / d;
    assert d * (p + q) == d * p + d * q;
    DivModUnique(x + y, d, p + q, 0);
  }

  lemma {:induction false} ItemsAligned(data: nat, item: nat, limit: nat, align: nat)
    requires item > 0 && align > 0 && data % align == 0 && item % align == 0
    ensures forall a | a in Items(data, item, limit) :: a % align == 0
    decreases limit - data
  {
    if data + item <= limit {
      AddAligned(data, item, align);
      ItemsAligned(data + item, item, limit, align);
    }
  }

  ghost predicate Shape(a: Allocator) {
    0 < a.align && PTR <= a.item < ADDRESSES && a.item % a.align == 0 && a.slabSize < ADDRESSES
  }

  ghost predicate SlabInv(m: Memory, a: Allocator, s: Slab)
    requires Shape(a)
  {
    && 0 < s.buf <= s.p && s.p + s.size <= ADDRESSES && s.p % a.align == 0
    && Linked(m, s.head, s.free) && Distinct(s.free)
    && Elements(s.free) !! s.out
    && Elements(s.free) + s.out == Items(s.p, a.item, s.p + s.size)
  }

  /** The buffers of two slabs, headers included, do not overlap. */
  predicate Apart(s: Slab, s': Slab) { s.p + s.size <= s'.buf || s'.p + s'.size <= s.buf }

  predicate At(h: Heap, i: nat, k: nat) {
    i < |h.allocators| && k < |h.allocators[i].slabs|
  }

  function SlabAt(h: Heap, i: nat, k: nat): Slab
    requires At(h, i, k)
  {
    h.allocators[i].slabs[k]
  }

  ghost predicate Inv(h: Heap) {
    && 0 < h.header < ADDRESSES
    && (forall i: nat | i < |h.allocators| :: Shape(h.allocators[i]))
    && (forall i: nat, k: nat | At(h, i, k) :: SlabInv(h.mem, h.allocators[i], SlabAt(h, i, k)))
    && (forall i: nat, k: nat | At(h, i, k) :: SlabAt(h, i, k).buf + h.header <= SlabAt(h, i, k).p)
    && (forall i: nat, k: nat, i': nat, k': nat | At(h, i, k) && At(h, i', k') && (i, k) != (i', k') ::
          Apart(SlabAt(h, i, k), SlabAt(h, i', k')))
  }

  // ---- Frames ----

  /** A free list survives a change of memory that misses all its items. */
  lemma {:induction false} LinkedFrame(m: Memory, m': Memory, lo: nat, hi: nat, head: nat, free: seq<nat>)
    requires Linked(m, head, free) && SameOutside(m, m', lo, hi)
    requires forall a | a in free :: a + PTR <= lo || hi <= a
    ensures Linked(m', head, free)
    decreases |free|
  {
    if free != [] {
      assert head in free && forall a | a in free[1..] :: a in free;
      PtrFrame(m, m', lo, hi, head);
      LinkedFrame(m, m', lo, hi, LoadPtr(m, head), free[1..]);
    }
  }

  lemma SlabFrame(m: Memory, m': Memory, lo: nat, hi: nat, a: Allocator, s: Slab)
    requires Shape(a) && SlabInv(m, a, s) && SameOutside(m, m', lo, hi)
    requires forall x | x in s.free :: x + PTR <= lo || hi <= x
    ensures SlabInv(m', a, s)
  {
    LinkedFrame(m, m', lo, hi, s.head, s.free);
  }

  /** A change inside one slab's extent leaves every other slab intact. */
  lemma OtherSlabFrame(m: Memory, m': Memory, s: Slab, a': Allocator, s': Slab)
    requires SameOutside(m, m', s.p, s.p + s.size) && s.buf <= s.p && Apart(s, s')
    requires Shape(a') && SlabInv(m, a', s')
    ensures SlabInv(m', a', s')
  {
    forall x | x in s'.free ensures x + PTR <= s.p || s.p + s.size <= x {
      assert x in Items(s'.p, a'.item, s'.p + s'.size);
    }
    SlabFrame(m, m', s.p, s.p + s.size, a', s');
  }

  /** A change inside one item that is handed out leaves its slab's free list intact. */
  lemma ItemFrame(m: Memory, m': Memory, a: Allocator, s: Slab, x: nat)
    requires Shape(a) && SlabInv(m, a, s) && x in s.out && SameOutside(m, m', x, x + a.item)
    ensures SlabInv(m', a, s)
    ensures SameOutside(m, m', s.p, s.p + s.size)
  {
    ItemsApart(s.p, a.item, s.p + s.size);
    assert x in Items(s.p, a.item, s.p + s.size);
    forall y | y in s.free ensures y + PTR <= x || x + a.item <= y {
      assert y in Items(s.p, a.item, s.p + s.size);
    }
    SlabFrame(m, m', x, x + a.item, a, s);
  }

  // ---- SlabBlock ----

  /** The state of the carving loop: everything below `data` is on the free list. */
  ghost predicate Carving(m: Memory, m': Memory, p: nat, limit: nat, item: nat, data: nat, l: nat, free: seq<nat>)
    requires 0 < item
  {
    && 0 < p <= data && l < ADDRESSES
    && Linked(m', l, free) && Distinct(free) && Descending(free)
    && (forall x | x in free :: x + item <= data)
    && Elements(free) + Items(data, item, limit) == Items(p, item, limit)
    && SameOutside(m, m', p, limit)
  }

  lemma CarveStep(m: Memory, m': Memory, p: nat, limit: nat, item: nat, data: nat, l: nat, free: seq<nat>)
    requires PTR <= item && data + item <= limit <= ADDRESSES && Carving(m, m', p, limit, item, data, l, free)
    ensures Carving(m, StorePtr(m', data, l), p, limit, item, data + item, data, [data] + free)
  {
    hide StorePtr, LoadPtr;
    var m1 := StorePtr(m', data, l);
    PtrRoundTrip(m', data, l);
    LinkedFrame(m', m1, data, data + PTR, l, free);
    ElementsCons(data, free);
    forall j | 0 <= j < |free| ensures data > free[j] {
      assert free[j] in free;
    }
  }

  /** SlabBlock::SlabBlock: thread every item of [p, p + size) onto the free list. */
  method Carve(m: Memory, buf: nat, p: nat, size: nat, a: Allocator) returns (m': Memory, s: Slab)
    requires Shape(a) && 0 < buf <= p && p + size <= ADDRESSES && p % a.align == 0
    ensures SlabInv(m', a, s) && s.buf == buf && s.p == p && s.size == size && s.out == {} && Descending(s.free)
    ensures SameOutside(m, m', p, p + size)
  {
    hide StorePtr, LoadPtr;
    var data, l: nat := p, 0;
    var free: seq<nat> := [];
    m' := m;
    while data + a.item <= p + size
      invariant Carving(m, m', p, p + size, a.item, data, l, free)
      decreases p + size - data
    {
      CarveStep(m, m', p, p + size, a.item, data, l, free);
      m', l, free, data := StorePtr(m', data, l), data, [data] + free, data + a.item;
    }
    s := Slab(buf, p, size, l, free, {});
  }

  /** SlabBlock::allocate, under the slab's mutex. */
  function Pop(m: Memory, s: Slab): (Slab, nat) {
    if s.head == 0 then (s, 0)
    else
      var free := if s.free == [] then [] else s.free[1..];
      (s.(head := LoadPtr(m, s.head), free := free, out := s.out + {s.head}), s.head)
  }

  lemma PopInv(m: Memory, a: Allocator, s: Slab)
    requires Shape(a) && SlabInv(m, a, s)
    ensures var (s', x) := Pop(m, s);
            && SlabInv(m, a, s')
            && (x == 0 <==> s.free == [])
            && (x != 0 ==> x !in s.out && s'.out == s.out + {x} && s.free == [x] + s'.free)
  {
    if s.free != [] {
      var (s', x) := Pop(m, s);
      assert s.free == [x] + s'.free;
      ElementsCons(x, s'.free);
    }
  }

  /** SlabBlock::deallocate, under the slab's mutex. */
  function Push(m: Memory, s: Slab, x: nat): (Memory, Slab) {
    (StorePtr(m, x, s.head), s.(head := x, free := [x] + s.free, out := s.out - {x}))
  }

  lemma PushInv(m: Memory, a: Allocator, s: Slab, x: nat)
    requires Shape(a) && SlabInv(m, a, s) && x in s.out
    ensures var (m', s') := Push(m, s, x);
            SlabInv(m', a, s') && SameOutside(m, m', x, x + a.item)
  {
    hide Items, StorePtr, LoadPtr;
    var (m', s') := Push(m, s, x);
    ElementsCons(x, s.free);
    HeadInRange(m, a, s);
    PtrRoundTrip(m, x, s.head);
    assert x in Items(s.p, a.item, s.p + s.size);
    ItemFrame(m, m', a, s, x);
  }

  lemma HeadInRange(m: Memory, a: Allocator, s: Slab)
    requires Shape(a) && SlabInv(m, a, s)
    ensures s.head < ADDRESSES
  {
    if s.free != [] { assert s.head in Elements(s.free); }
  }
}
