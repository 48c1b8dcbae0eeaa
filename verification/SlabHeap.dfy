/** A set of slab allocators over one memory: single steps in any order, and the search loops. */
module SlabHeap {
  import opened SlabMemory
  import opened SlabAllocator
  import opened SlabConfig

  // ---- The extent of a new slab ----

  datatype Extent = NoRoom | Room(p: nat, size: nat)

  /** What a slab's size leaves beside the header: an unsigned subtraction. */
  function SpaceIn(a: Allocator, header: nat): nat {
    (a.slabSize - header) % ADDRESSES
  }

  function Padding(a: Allocator, header: nat, buf: nat): nat
    requires 0 < a.align
  {
    AlignUpIsAligned(buf + header, a.align);
    AlignUp(buf + header, a.align) - (buf + header)
  }

  /** boost::alignment::align on what follows the slab header in a new buffer. */
  function ExtentIn(a: Allocator, header: nat, buf: nat): Extent
    requires 0 < a.align
  {
    var space, adjust := SpaceIn(a, header), Padding(a, header, buf);
    if a.item + adjust > space then NoRoom else Room(buf + header + adjust, space - adjust)
  }

  /** The extent comes after the header, is aligned and holds an item. It ends inside the buffer, with the header,
      exactly when the slab size is at least the header size. */
  lemma ExtentFitsIff(a: Allocator, header: nat, buf: nat)
    requires Shape(a) && header < ADDRESSES
    ensures var x := ExtentIn(a, header, buf); x.Room? ==>
              && buf + header <= x.p && x.p % a.align == 0 && a.item <= x.size
              && (x.p + x.size <= buf + a.slabSize <==> header <= a.slabSize)
              && (header <= a.slabSize ==> x.p + x.size == buf + a.slabSize)
  {
    AlignUpIsAligned(buf + header, a.align);
  }

  /** An allocator whose slabs have no room beside the header refuses every request, as one with a count of zero is
      meant to, exactly when its slab size is the header size or the wrapped-around space is still too small. */
  lemma DisabledIff(a: Allocator, header: nat, buf: nat)
    requires Shape(a) && a.slabSize <= header < ADDRESSES
    ensures ExtentIn(a, header, buf).NoRoom? <==>
      (a.slabSize == header || a.item + Padding(a, header, buf) > ADDRESSES - (header - a.slabSize))
  {
    if a.slabSize < header {
      assert SpaceIn(a, header) == ADDRESSES - (header - a.slabSize);
    }
  }

  /** The header of a new slab does not fit its buffer, and the slab is made all the same. */
  ghost predicate Overruns(a: Allocator, header: nat, buf: nat) {
    0 < a.align && a.slabSize < header && ExtentIn(a, header, buf).Room?
  }

  /** With a count of zero, items of 64 bytes and a header of 72, a buffer from the system allocator is overrun. */
  lemma CountZeroExample(a: Allocator)
    requires a == Allocator(8, 64, 0, [])
    ensures Shape(a) && Overruns(a, 72, 0x20_0000)
  {
    DisabledIff(a, 72, 0x20_0000);
  }

  // ---- Single steps ----

  datatype Step =
    | Take(i: nat, k: nat)                       // SlabBlock::allocate on slab k of allocator i
    | Return(x: nat)                             // SlabAllocatorSet::deallocate, at the owning slab
    | Grow(i: nat, buf: nat)                     // a new buffer carved and linked in front
    | Write(i: nat, k: nat, x: nat)              // the holder of an item writes into it

  /** x is handed out, by slab k of allocator i. */
  ghost predicate OutOf(h: Heap, i: nat, k: nat, x: nat) {
    At(h, i, k) && x in SlabAt(h, i, k).out
  }

  ghost predicate Out(h: Heap, x: nat) {
    exists i: nat, k: nat :: OutOf(h, i, k, x)
  }

  /** The system allocator hands out memory that no slab uses. */
  ghost predicate FreshBuffer(h: Heap, i: nat, buf: nat) {
    && i < |h.allocators|
    && 0 < buf && buf + h.allocators[i].slabSize <= ADDRESSES
    && forall i': nat, k': nat | At(h, i', k') ::
         SlabAt(h, i', k').p + SlabAt(h, i', k').size <= buf || buf + h.allocators[i].slabSize <= SlabAt(h, i', k').buf
  }

  function SetSlab(h: Heap, i: nat, k: nat, s: Slab): Heap
    requires At(h, i, k)
  {
    h.(allocators := h.allocators[i := h.allocators[i].(slabs := h.allocators[i].slabs[k := s])])
  }

  function AddSlab(h: Heap, i: nat, s: Slab): Heap
    requires i < |h.allocators|
  {
    h.(allocators := h.allocators[i := h.allocators[i].(slabs := [s] + h.allocators[i].slabs)])
  }

  /** What Carve guarantees of a new slab. */
  ghost predicate Carved(m: Memory, m': Memory, a: Allocator, buf: nat, x: Extent, s: Slab) {
    && Shape(a) && x.Room? && SlabInv(m', a, s)
    && s.buf == buf && s.p == x.p && s.size == x.size && s.out == {} && SameOutside(m, m', s.p, s.p + s.size)
  }

  /** One step. A growth that overruns its buffer is none: nothing is said of what follows it. */
  ghost predicate Next(h: Heap, e: Step, h': Heap) {
    match e
    case Take(i, k) => At(h, i, k) && h' == SetSlab(h, i, k, Pop(h.mem, SlabAt(h, i, k)).0)
    case Return(x) =>
      exists i: nat, k: nat | OutOf(h, i, k, x) ::
        var (m', s') := Push(h.mem, SlabAt(h, i, k), x); h' == SetSlab(h, i, k, s').(mem := m')
    case Grow(i, buf) =>
      && FreshBuffer(h, i, buf) && 0 < h.allocators[i].align && !Overruns(h.allocators[i], h.header, buf)
      && var x := ExtentIn(h.allocators[i], h.header, buf);
         if x.NoRoom? then h' == h
         else exists s :: Carved(h.mem, h'.mem, h.allocators[i], buf, x, s) && h' == AddSlab(h, i, s).(mem := h'.mem)
    case Write(i, k, x) =>
      && OutOf(h, i, k, x)
      && h' == h.(mem := h'.mem) && SameOutside(h.mem, h'.mem, x, x + h.allocators[i].item)
  }

  /** Changing one slab and memory inside its extent keeps the invariant if that slab keeps its own. */
  lemma SetSlabInv(h: Heap, i: nat, k: nat, s: Slab, m': Memory)
    requires Inv(h) && At(h, i, k)
    requires s.buf == SlabAt(h, i, k).buf && s.p == SlabAt(h, i, k).p && s.size == SlabAt(h, i, k).size
    requires SlabInv(m', h.allocators[i], s) && SameOutside(h.mem, m', s.p, s.p + s.size)
    ensures Inv(SetSlab(h, i, k, s).(mem := m'))
  {
    hide SlabInv, SameOutside, LoadPtr;
    var h' := SetSlab(h, i, k, s).(mem := m');
    forall i': nat, k': nat | At(h', i', k')
      ensures SlabInv(h'.mem, h'.allocators[i'], SlabAt(h', i', k'))
    {
      SlabInvShape(m', h.allocators[i], h'.allocators[i], s);
      if (i', k') != (i, k) {
        assert At(h, i', k') && Apart(SlabAt(h, i, k), SlabAt(h, i', k'));
        OtherSlabFrame(h.mem, m', s, h.allocators[i'], SlabAt(h, i', k'));
        SlabInvShape(m', h.allocators[i'], h'.allocators[i'], SlabAt(h, i', k'));
      }
    }
    forall i1: nat, k1: nat, i2: nat, k2: nat | At(h', i1, k1) && At(h', i2, k2) && (i1, k1) != (i2, k2)
      ensures Apart(SlabAt(h', i1, k1), SlabAt(h', i2, k2))
    {
      assert At(h, i1, k1) && At(h, i2, k2) && Apart(SlabAt(h, i1, k1), SlabAt(h, i2, k2));
    }
  }

  lemma SlabInvShape(m: Memory, a: Allocator, a': Allocator, s: Slab)
    requires Shape(a) && a' == a.(slabs := a'.slabs) && SlabInv(m, a, s)
    ensures Shape(a') && SlabInv(m, a', s)
  {}

  lemma AddSlabInv(h: Heap, i: nat, buf: nat, s: Slab, m': Memory)
    requires Inv(h) && FreshBuffer(h, i, buf) && h.header <= h.allocators[i].slabSize
    requires Carved(h.mem, m', h.allocators[i], buf, ExtentIn(h.allocators[i], h.header, buf), s)
    ensures Inv(AddSlab(h, i, s).(mem := m'))
  {
    hide SlabInv, SameOutside, LoadPtr, ExtentIn;
    ExtentFitsIff(h.allocators[i], h.header, buf);
    var h' := AddSlab(h, i, s).(mem := m');
    forall i': nat, k': nat | At(h', i', k')
      ensures SlabInv(h'.mem, h'.allocators[i'], SlabAt(h', i', k'))
    {
      SlabInvShape(m', h.allocators[i], h'.allocators[i], s);
      if (i', k') != (i, 0) {
        var k0 := if i' == i then k' - 1 else k';
        assert At(h, i', k0) && SlabAt(h, i', k0) == SlabAt(h', i', k');
        OtherSlabFrame(h.mem, m', s, h.allocators[i'], SlabAt(h, i', k0));
        SlabInvShape(m', h.allocators[i'], h'.allocators[i'], SlabAt(h, i', k0));
      }
    }
    forall i': nat, k': nat | At(h', i', k') ensures SlabAt(h', i', k').buf + h'.header <= SlabAt(h', i', k').p {
      if (i', k') != (i, 0) {
        var k0 := if i' == i then k' - 1 else k';
        assert At(h, i', k0) && SlabAt(h, i', k0) == SlabAt(h', i', k');
      }
    }
    AddSlabApart(h, i, buf, s, m');
  }

  lemma AddSlabApart(h: Heap, i: nat, buf: nat, s: Slab, m': Memory)
    requires Inv(h) && FreshBuffer(h, i, buf)
    requires s.buf == buf && s.p + s.size == buf + h.allocators[i].slabSize
    ensures var h' := AddSlab(h, i, s).(mem := m');
            forall i1: nat, k1: nat, i2: nat, k2: nat | At(h', i1, k1) && At(h', i2, k2) && (i1, k1) != (i2, k2) ::
              Apart(SlabAt(h', i1, k1), SlabAt(h', i2, k2))
  {
    hide SlabInv;
    var h' := AddSlab(h, i, s).(mem := m');
    forall i1: nat, k1: nat, i2: nat, k2: nat | At(h', i1, k1) && At(h', i2, k2) && (i1, k1) != (i2, k2)
      ensures Apart(SlabAt(h', i1, k1), SlabAt(h', i2, k2))
    {
      var j1 := if i1 == i then k1 - 1 else k1;
      var j2 := if i2 == i then k2 - 1 else k2;
      assert (i1, k1) != (i, 0) ==> At(h, i1, j1) && SlabAt(h, i1, j1) == SlabAt(h', i1, k1);
      assert (i2, k2) != (i, 0) ==> At(h, i2, j2) && SlabAt(h, i2, j2) == SlabAt(h', i2, k2);
    }
  }

  lemma TakeInv(h: Heap, i: nat, k: nat)
    requires Inv(h) && At(h, i, k)
    ensures Inv(SetSlab(h, i, k, Pop(h.mem, SlabAt(h, i, k)).0))
  {
    hide SlabInv, LoadPtr;
    PopInv(h.mem, h.allocators[i], SlabAt(h, i, k));
    SetSlabInv(h, i, k, Pop(h.mem, SlabAt(h, i, k)).0, h.mem);
  }

  lemma ReturnInv(h: Heap, i: nat, k: nat, x: nat)
    requires Inv(h) && OutOf(h, i, k, x)
    ensures var (m', s') := Push(h.mem, SlabAt(h, i, k), x); Inv(SetSlab(h, i, k, s').(mem := m'))
  {
    hide StorePtr, LoadPtr, Linked;
    var a, s := h.allocators[i], SlabAt(h, i, k);
    var (m', s') := Push(h.mem, s, x);
    PushInv(h.mem, a, s, x);
    ItemFrame(h.mem, m', a, s, x);
    SetSlabInv(h, i, k, s', m');
  }

  lemma WriteInv(h: Heap, i: nat, k: nat, x: nat, m': Memory)
    requires Inv(h) && OutOf(h, i, k, x) && SameOutside(h.mem, m', x, x + h.allocators[i].item)
    ensures Inv(h.(mem := m'))
  {
    hide SlabInv, LoadPtr, SameOutside;
    var s := SlabAt(h, i, k);
    ItemFrame(h.mem, m', h.allocators[i], s, x);
    SetSlabInv(h, i, k, s, m');
    assert SetSlab(h, i, k, s).allocators[i].slabs == h.allocators[i].slabs;
    assert SetSlab(h, i, k, s).allocators == h.allocators;
  }

  lemma StepInv(h: Heap, e: Step, h': Heap)
    requires Inv(h) && Next(h, e, h')
    ensures Inv(h')
  {
    hide Inv, Carved, ExtentIn, Push, Pop;
    match e
    case Take(i, k) => TakeInv(h, i, k);
    case Return(x) =>
      var i: nat, k: nat :| OutOf(h, i, k, x)
        && var (m', s') := Push(h.mem, SlabAt(h, i, k), x); h' == SetSlab(h, i, k, s').(mem := m');
      ReturnInv(h, i, k, x);
    case Grow(i, buf) =>
      if ExtentIn(h.allocators[i], h.header, buf).Room? {
        var s :| Carved(h.mem, h'.mem, h.allocators[i], buf, ExtentIn(h.allocators[i], h.header, buf), s)
          && h' == AddSlab(h, i, s).(mem := h'.mem);
        AddSlabInv(h, i, buf, s, h'.mem);
      }
    case Write(i, k, x) =>
      WriteInv(h, i, k, x, h'.mem);
  }

  // ---- Runs ----

  /** A heap before its first slab. */
  ghost predicate Start(h: Heap) {
    && 0 < h.header < ADDRESSES
    && forall i: nat | i < |h.allocators| :: Shape(h.allocators[i]) && h.allocators[i].slabs == []
  }

  ghost predicate IsRun(heaps: seq<Heap>, steps: seq<Step>) {
    && |heaps| == |steps| + 1 && Start(heaps[0])
    && forall n | 0 <= n < |steps| :: Next(heaps[n], steps[n], heaps[n + 1])
  }

  lemma {:induction false} RunInv(heaps: seq<Heap>, steps: seq<Step>, n: nat)
    requires IsRun(heaps, steps) && n < |heaps|
    ensures Inv(heaps[n])
  {
    if n > 0 {
      hide Inv, Next;
      RunInv(heaps, steps, n - 1);
      StepInv(heaps[n - 1], steps[n - 1], heaps[n]);
    }
  }

  lemma ItemPlace(h: Heap, i: nat, k: nat, x: nat)
    requires Inv(h) && OutOf(h, i, k, x)
    ensures var s := SlabAt(h, i, k);
            && Shape(h.allocators[i]) && x % h.allocators[i].align == 0
            && s.buf + h.header <= s.p <= x && x + h.allocators[i].item <= s.p + s.size
  {
    var a, s := h.allocators[i], SlabAt(h, i, k);
    hide Linked;
    assert x in Items(s.p, a.item, s.p + s.size);
    ItemsAligned(s.p, a.item, s.p + s.size, a.align);
  }

  lemma SameSlabApart(h: Heap, i: nat, k: nat, x: nat, y: nat)
    requires Inv(h) && OutOf(h, i, k, x) && OutOf(h, i, k, y) && x != y
    ensures x + h.allocators[i].item <= y || y + h.allocators[i].item <= x
  {
    var a, s := h.allocators[i], SlabAt(h, i, k);
    hide Linked;
    assert x in Items(s.p, a.item, s.p + s.size) && y in Items(s.p, a.item, s.p + s.size);
    ItemsApart(s.p, a.item, s.p + s.size);
  }

  /** In every run, an item that is handed out is aligned, has the allocator's full item size inside its slab, and
      overlaps neither the header of any slab nor any other item that is handed out, from whichever allocator. */
  lemma OutstandingItems(heaps: seq<Heap>, steps: seq<Step>, n: nat, i: nat, k: nat, x: nat, i': nat, k': nat, y: nat)
    requires IsRun(heaps, steps) && n < |heaps|
    requires OutOf(heaps[n], i, k, x) && At(heaps[n], i', k')
    ensures var h := heaps[n]; var s := SlabAt(h, i, k); var s' := SlabAt(h, i', k');
            && Shape(h.allocators[i]) && x % h.allocators[i].align == 0
            && s.p <= x && x + h.allocators[i].item <= s.p + s.size
            && (x + h.allocators[i].item <= s'.buf || s'.buf + h.header <= x)
            && (y in s'.out && (i, k, x) != (i', k', y) ==>
                  x + h.allocators[i].item <= y || y + h.allocators[i'].item <= x)
  {
    hide SlabInv, Shape, Next;
    RunInv(heaps, steps, n);
    var h := heaps[n];
    ItemPlace(h, i, k, x);
    if y in SlabAt(h, i', k').out { ItemPlace(h, i', k', y); }
    if (i, k) == (i', k') {
      if y in SlabAt(h, i', k').out && x != y { SameSlabApart(h, i, k, x, y); }
    } else {
      assert Apart(SlabAt(h, i, k), SlabAt(h, i', k'));
    }
  }

  /** In every run, the free list read from memory and the items handed out partition the items carved. */
  lemma FreeAndOutPartition(heaps: seq<Heap>, steps: seq<Step>, n: nat, i: nat, k: nat)
    requires IsRun(heaps, steps) && n < |heaps| && At(heaps[n], i, k)
    ensures var h := heaps[n]; var s := SlabAt(h, i, k);
            && Linked(h.mem, s.head, s.free) && Distinct(s.free)
            && 0 < h.allocators[i].item
            && Elements(s.free) !! s.out && Elements(s.free) + s.out == Items(s.p, h.allocators[i].item, s.p + s.size)
  {
    RunInv(heaps, steps, n);
  }

  // ---- The search loops ----

  ghost predicate OneMoreOut(h: Heap, h': Heap, x: nat) {
    !Out(h, x) && forall y :: Out(h', y) <==> Out(h, y) || y == x
  }

  predicate SameSizes(h: Heap, h': Heap) {
    && h'.header == h.header && |h'.allocators| == |h.allocators|
    && forall i: nat | i < |h.allocators| :: h'.allocators[i] == h.allocators[i].(slabs := h'.allocators[i].slabs)
  }

  ghost predicate OneLessOut(h: Heap, h': Heap, x: nat) {
    Out(h, x) && forall y :: Out(h', y) <==> Out(h, y) && y != x
  }

  /** An item belongs to at most one slab. */
  lemma OwnerUnique(h: Heap, i: nat, k: nat, i': nat, k': nat, x: nat)
    requires Inv(h) && OutOf(h, i, k, x) && At(h, i', k') && Own(SlabAt(h, i', k'), x)
    ensures (i, k) == (i', k')
  {
    hide Linked;
    var a, s := h.allocators[i], SlabAt(h, i, k);
    assert x in Items(s.p, a.item, s.p + s.size);
  }

  lemma OutIsOwned(h: Heap, i: nat, k: nat, x: nat)
    requires Inv(h) && OutOf(h, i, k, x)
    ensures Own(SlabAt(h, i, k), x)
  {
    hide Linked;
    var a, s := h.allocators[i], SlabAt(h, i, k);
    assert x in Items(s.p, a.item, s.p + s.size);
  }

  lemma TakeEffect(h: Heap, i: nat, k: nat)
    requires Inv(h) && At(h, i, k)
    ensures var (s', x) := Pop(h.mem, SlabAt(h, i, k)); var h' := SetSlab(h, i, k, s');
            if SlabAt(h, i, k).free == [] then x == 0 && h' == h
            else x != 0 && x == SlabAt(h, i, k).free[0] && OutOf(h', i, k, x) && OneMoreOut(h, h', x)
  {
    var s := SlabAt(h, i, k);
    var (s', x) := Pop(h.mem, s);
    var h' := SetSlab(h, i, k, s');
    PopInv(h.mem, h.allocators[i], s);
    TakeInv(h, i, k);
    hide SlabInv, LoadPtr, Linked;
    if s.free == [] {
      assert h'.allocators[i].slabs == h.allocators[i].slabs;
      assert h'.allocators == h.allocators;
    } else {
      assert OutOf(h', i, k, x);
      OutIsOwned(h', i, k, x);
      forall i': nat, k': nat ensures !OutOf(h, i', k', x) {
        if OutOf(h, i', k', x) {
          OwnerUnique(h, i', k', i, k, x);
        }
      }
      forall y ensures Out(h', y) <==> Out(h, y) || y == x {
        forall i': nat, k': nat
          ensures OutOf(h', i', k', y) <==> OutOf(h, i', k', y) || ((i', k') == (i, k) && y == x)
        {}
      }
    }
  }

  lemma ReturnEffect(h: Heap, i: nat, k: nat, x: nat)
    requires Inv(h) && OutOf(h, i, k, x)
    ensures var (m', s') := Push(h.mem, SlabAt(h, i, k), x); OneLessOut(h, SetSlab(h, i, k, s').(mem := m'), x)
  {
    var (m', s') := Push(h.mem, SlabAt(h, i, k), x);
    var h' := SetSlab(h, i, k, s').(mem := m');
    OutIsOwned(h, i, k, x);
    hide SlabInv, StorePtr;
    forall y ensures Out(h', y) <==> Out(h, y) && y != x {
      forall i': nat, k': nat ensures OutOf(h', i', k', y) <==> OutOf(h, i', k', y) && y != x {
        if OutOf(h, i', k', x) { OwnerUnique(h, i', k', i, k, x); }
      }
    }
  }

  lemma AddSlabEffect(h: Heap, i: nat, s: Slab, m': Memory)
    requires i < |h.allocators| && s.out == {}
    ensures forall y :: Out(AddSlab(h, i, s).(mem := m'), y) <==> Out(h, y)
  {
    var h' := AddSlab(h, i, s).(mem := m');
    forall y ensures Out(h', y) <==> Out(h, y) {
      forall i': nat, k': nat | OutOf(h, i', k', y) ensures Out(h', y) {
        assert OutOf(h', i', if i' == i then k' + 1 else k', y);
      }
      forall i': nat, k': nat | OutOf(h', i', k', y) ensures Out(h, y) {
        assert OutOf(h, i', if i' == i then k' - 1 else k', y);
      }
    }
  }

  ghost predicate NoneFree(h: Heap, i: nat)
    requires i < |h.allocators|
  {
    forall k: nat | k < |h.allocators[i].slabs| :: h.allocators[i].slabs[k].free == []
  }

  /** Slab k is the newest slab of allocator i with a free item. */
  ghost predicate FirstFree(h: Heap, i: nat, k: nat) {
    && At(h, i, k) && SlabAt(h, i, k).free != []
    && forall j: nat | j < k :: h.allocators[i].slabs[j].free == []
  }

  /** What an allocation comes to. After an overrun nothing more is said of the heap. */
  datatype Served = Null | Item(x: nat) | Overrun

  /** The outcome of a growth in the buffer that the system allocator returns, 0 for none. */
  ghost predicate Grown(a: Allocator, header: nat, buf: nat, r: Served)
    requires Shape(a)
  {
    && (r.Null? <==> buf == 0 || ExtentIn(a, header, buf).NoRoom?)
    && (r.Overrun? <==> buf != 0 && Overruns(a, header, buf))
  }

  /** The outcome of an allocation from allocator i. */
  ghost predicate ServedFrom(h: Heap, i: nat, buf: nat, r: Served)
    requires i < |h.allocators| && Shape(h.allocators[i])
  {
    if NoneFree(h, i) then Grown(h.allocators[i], h.header, buf, r) else r.Item?
  }

  /** Allocator i is the first whose items hold `size` bytes. */
  ghost predicate Fitting(h: Heap, i: nat, size: nat) {
    && i < |h.allocators|
    && size <= h.allocators[i].item
    && forall j: nat | j < i :: h.allocators[j].item < size
  }

  /** With one alignment throughout, the first allocator that fits wastes least. */
  lemma FirstFitIsBest(h: Heap, cfg: seq<Config>, typeSize: nat, typeAlign: nat, size: nat, i: nat, j: nat)
    requires BuiltFrom(h.allocators, cfg, typeSize, typeAlign) && Ascending(cfg)
    requires forall a, b | a in h.allocators && b in h.allocators :: a.align == b.align
    requires Fitting(h, i, size) && j < |cfg| && size <= h.allocators[j].item
    ensures h.allocators[i].item <= h.allocators[j].item
  {
    assert i <= j;
    assert h.allocators[i] in h.allocators && h.allocators[j] in h.allocators;
    if i < j {
      assert cfg[i].extra <= cfg[j].extra;
      hide BuiltFrom, Ascending, Configured;
      ItemGrows(h.allocators[i], h.allocators[j], cfg[i], cfg[j], typeSize, typeAlign);
    }
  }

  /** The size that SlabAllocatorSet::allocate looks for, in the arithmetic of size_t. */
  function Requested(typeSize: nat, extra: nat): nat {
    Wrap(typeSize + extra)
  }

  /** The item found holds what was asked for exactly when the requested size does not wrap around. */
  lemma FoundHoldsRequestIff(h: Heap, i: nat, typeSize: nat, extra: nat)
    requires Inv(h) && Fitting(h, i, Requested(typeSize, extra))
    ensures typeSize + extra <= h.allocators[i].item <==> typeSize + extra < ADDRESSES
  {
    assert Shape(h.allocators[i]);
  }

  /** A growth gives an item exactly when header, padding and item fit into the slab. */
  lemma GrownIff(a: Allocator, header: nat, buf: nat, r: Served)
    requires Shape(a) && header < ADDRESSES && buf != 0 && Grown(a, header, buf, r)
    ensures r.Item? <==> header + Padding(a, header, buf) + a.item <= a.slabSize
  {
    AlignUpIsAligned(buf + header, a.align);
    if a.slabSize < header {
      DisabledIff(a, header, buf);
    }
  }

  lemma SameSizesBuilt(h: Heap, h': Heap, cfg: seq<Config>, typeSize: nat, typeAlign: nat)
    requires SameSizes(h, h') && BuiltFrom(h.allocators, cfg, typeSize, typeAlign)
    ensures BuiltFrom(h'.allocators, cfg, typeSize, typeAlign)
  {}

  /** At any later time a set serves every request that fits one of its configurations, while the system allocator has
      memory, if the slabs of that configuration hold a header and an aligned item. */
  lemma ConfiguredServes(made: Heap, h: Heap, cfg: seq<Config>, typeSize: nat, typeAlign: nat, i: nat, buf: nat,
                         r: Served)
    requires BuiltFrom(made.allocators, cfg, typeSize, typeAlign) && SameSizes(made, h) && Inv(h) && i < |cfg|
    requires buf != 0 && ServedFrom(h, i, buf, r)
    requires var align := if cfg[i].align != 0 then cfg[i].align else typeAlign;
             h.header + typeSize + cfg[i].extra + 2 * align <= cfg[i].alloc
    ensures r.Item?
  {
    SameSizesBuilt(made, h, cfg, typeSize, typeAlign);
    var a := h.allocators[i];
    AlignUpIsAligned(buf + h.header, a.align);
    if NoneFree(h, i) { GrownIff(a, h.header, buf, r); }
  }

  const MAX_ALLOCATORS: nat := 64

  datatype Made = Made(allocatorSet: SlabAllocatorSet) | DuplicateSize | TooMany

  /** SlabAllocatorSet: all allocators of one type, over the memory they share. */
  class SlabAllocatorSet {
    const typeSize: nat
    const maxSize: nat
    var heap: Heap

    ghost predicate Valid()
      reads this
    {
      Inv(heap) && forall i: nat | i < |heap.allocators| :: heap.allocators[i].item <= maxSize
    }

    /** Builds the allocators in the order given, and finds the largest item size. */
    constructor (header: nat, typeSize: nat, typeAlign: nat, cfg: seq<Config>)
      requires 0 < header < ADDRESSES && forall c | c in cfg :: Sound(c, typeSize, typeAlign)
      ensures Valid() && Start(heap) && heap.header == header && this.typeSize == typeSize
      ensures BuiltFrom(heap.allocators, cfg, typeSize, typeAlign)
      ensures if cfg == [] then maxSize == 0 else exists i | 0 <= i < |cfg| :: heap.allocators[i].item == maxSize
    {
      var allocators: seq<Allocator> := [];
      var size := 0;
      hide Configured, NewAllocator, Shape;
      for i := 0 to |cfg|
        invariant BuiltFrom(allocators, cfg[..i], typeSize, typeAlign)
        invariant forall j: nat | j < i :: Shape(allocators[j]) && allocators[j].slabs == []
        invariant forall j: nat | j < i :: allocators[j].item <= size
        invariant if i == 0 then size == 0 else exists j | 0 <= j < i :: allocators[j].item == size
      {
        assert cfg[i] in cfg;
        var a := NewAllocator(cfg[i], typeSize, typeAlign);
        allocators := allocators + [a];
        if a.item > size { size := a.item; }
        assert a.item == size ==> allocators[i].item == size;
      }
      assert cfg[..|cfg|] == cfg;
      this.typeSize, maxSize := typeSize, size;
      heap := Heap(header, map[], allocators);
    }

    /** SlabAllocator::allocate for allocator i: the first slab with a free item, or else a new slab.
        `buf` is what the system allocator would return, 0 for none. */
    method AllocateFrom(i: nat, buf: nat) returns (r: Served)
      requires Valid() && i < |heap.allocators| && (buf == 0 || FreshBuffer(heap, i, buf))
      modifies this
      ensures Valid() && SameSizes(old(heap), heap)
      ensures Shape(old(heap).allocators[i]) && ServedFrom(old(heap), i, buf, r)
      ensures !r.Item? ==> heap == old(heap)
      ensures r.Item? ==> OneMoreOut(old(heap), heap, r.x) && exists k: nat :: OutOf(heap, i, k, r.x)
      ensures forall k: nat | FirstFree(old(heap), i, k) ::
                r == Item(SlabAt(old(heap), i, k).free[0]) && OutOf(heap, i, k, r.x)
    {
      assert Shape(heap.allocators[i]);
      hide Inv, Pop, Carved, ExtentIn;
      var k := 0;
      while k < |heap.allocators[i].slabs|
        invariant heap == old(heap) && k <= |heap.allocators[i].slabs|
        invariant forall j: nat | j < k :: heap.allocators[i].slabs[j].free == []
      {
        TakeInv(heap, i, k);
        TakeEffect(heap, i, k);
        var (s, x) := Pop(heap.mem, SlabAt(heap, i, k));
        if x != 0 {
          assert forall j: nat | FirstFree(heap, i, j) :: j == k;
          heap := SetSlab(heap, i, k, s);
          return Item(x);
        }
        k := k + 1;
      }
      r := Null;
      if buf != 0 {
        r := GrowAndTake(i, buf);
      }
    }

    method GrowAndTake(i: nat, buf: nat) returns (r: Served)
      requires Valid() && FreshBuffer(heap, i, buf)
      modifies this
      ensures Valid() && SameSizes(old(heap), heap)
      ensures Shape(old(heap).allocators[i]) && Grown(old(heap).allocators[i], heap.header, buf, r)
      ensures !r.Item? ==> heap == old(heap)
      ensures r.Item? ==> OneMoreOut(old(heap), heap, r.x) && OutOf(heap, i, 0, r.x)
    {
      var a := heap.allocators[i];
      var room := ExtentIn(a, heap.header, buf);
      if room.NoRoom? { return Null; }
      if a.slabSize < heap.header { return Overrun; }
      ExtentFitsIff(a, heap.header, buf);
      hide Inv, ExtentIn, SlabInv, Pop;
      var m, s := Carve(heap.mem, buf, room.p, room.size, a);
      AddSlabInv(heap, i, buf, s, m);
      AddSlabEffect(heap, i, s, m);
      NewSlabHasItem(m, a, s);
      var h1 := AddSlab(heap, i, s).(mem := m);
      TakeInv(h1, i, 0);
      TakeEffect(h1, i, 0);
      var (s', x) := Pop(h1.mem, SlabAt(h1, i, 0));
      heap := SetSlab(h1, i, 0, s');
      r := Item(x);
    }

    /** SlabAllocatorSet::allocate: the first allocator whose items are large enough. */
    method Allocate(extra: nat, buf: nat) returns (r: Served)
      requires Valid() && extra < ADDRESSES
      requires forall i: nat | Fitting(heap, i, Requested(typeSize, extra)) :: buf == 0 || FreshBuffer(heap, i, buf)
      modifies this
      ensures Valid() && SameSizes(old(heap), heap)
      ensures forall i: nat | Fitting(old(heap), i, Requested(typeSize, extra)) ::
                && Shape(old(heap).allocators[i]) && ServedFrom(old(heap), i, buf, r)
                && (r.Item? ==> exists k: nat :: OutOf(heap, i, k, r.x))
      ensures (forall i: nat :: !Fitting(old(heap), i, Requested(typeSize, extra))) ==> r.Null?
      ensures !r.Item? ==> heap == old(heap)
      ensures r.Item? ==> OneMoreOut(old(heap), heap, r.x)
    {
      var size := Requested(typeSize, extra);
      if size <= maxSize {
        for i := 0 to |heap.allocators|
          invariant heap == old(heap)
          invariant forall j: nat | j < i :: heap.allocators[j].item < size
        {
          if heap.allocators[i].item >= size {
            assert Fitting(heap, i, size);
            hide ServedFrom, Inv;
            r := AllocateFrom(i, buf);
            return;
          }
        }
      }
      r := Null;
    }

    /** SlabAllocatorSet::deallocate: the first slab that owns the pointer takes it back. An item that
        is handed out goes to the front of the free list of the slab that it came from. */
    method Deallocate(x: nat) returns (ok: bool)
      requires Valid()
      requires Out(heap, x) || forall i: nat, k: nat | At(heap, i, k) ::
                 x < SlabAt(heap, i, k).p || SlabAt(heap, i, k).p + SlabAt(heap, i, k).size <= x
      modifies this
      ensures Valid() && ok == Out(old(heap), x)
      ensures !ok ==> heap == old(heap)
      ensures ok ==> OneLessOut(old(heap), heap, x)
      ensures forall i: nat, k: nat | OutOf(old(heap), i, k, x) ::
                At(heap, i, k) && SlabAt(heap, i, k).free == [x] + SlabAt(old(heap), i, k).free
    {
      hide Inv, StorePtr;
      for i := 0 to |heap.allocators|
        invariant heap == old(heap)
        invariant forall i': nat, k': nat | i' < i && At(heap, i', k') :: !Own(SlabAt(heap, i', k'), x)
      {
        for k := 0 to |heap.allocators[i].slabs|
          invariant heap == old(heap)
          invariant forall i': nat, k': nat | i' < i && At(heap, i', k') :: !Own(SlabAt(heap, i', k'), x)
          invariant forall k': nat | k' < k && At(heap, i, k') :: !Own(SlabAt(heap, i, k'), x)
        {
          if Own(SlabAt(heap, i, k), x) {
            ghost var i0: nat, k0: nat :| OutOf(heap, i0, k0, x);
            OwnerUnique(heap, i0, k0, i, k, x);
            ReturnInv(heap, i, k, x);
            ReturnEffect(heap, i, k, x);
            forall i1: nat, k1: nat | OutOf(heap, i1, k1, x) ensures (i1, k1) == (i, k) {
              OwnerUnique(heap, i1, k1, i, k, x);
            }
            var (m', s') := Push(heap.mem, SlabAt(heap, i, k), x);
            heap := SetSlab(heap, i, k, s').(mem := m');
            return true;
          }
        }
      }
      forall i: nat, k: nat | OutOf(heap, i, k, x) ensures false { OutIsOwned(heap, i, k, x); }
      return false;
    }
  }

  lemma NewSlabHasItem(m: Memory, a: Allocator, s: Slab)
    requires Shape(a) && SlabInv(m, a, s) && s.out == {} && a.item <= s.size
    ensures s.free != []
  {
    assert s.p in Items(s.p, a.item, s.p + s.size);
    assert s.p in Elements(s.free);
  }

  /** SlabAllocatorSet::SlabAllocatorSet: sorts the configurations, refuses two of one size and more than the list of
      allocators can hold, and builds an allocator for each. */
  method MakeSet(header: nat, typeSize: nat, typeAlign: nat, cfg: seq<Config>) returns (r: Made)
    requires 0 < header < ADDRESSES && forall c | c in cfg :: Sound(c, typeSize, typeAlign)
    ensures r.DuplicateSize? <==> Repeats(cfg)
    ensures r.TooMany? <==> !Repeats(cfg) && |cfg| > 64
    ensures r.Made? ==>
              && fresh(r.allocatorSet) && r.allocatorSet.Valid() && Start(r.allocatorSet.heap)
              && r.allocatorSet.heap.header == header && r.allocatorSet.typeSize == typeSize
              && exists order: seq<Config> ::
                   && multiset(order) == multiset(cfg)
                   && (forall i, j | 0 <= i < j < |order| :: order[i].extra < order[j].extra)
                   && BuiltFrom(r.allocatorSet.heap.allocators, order, typeSize, typeAlign)
  {
    var order := Sorted(cfg);
    SortedSorts(cfg);
    RepeatsOfPermuted(cfg, order);
    AdjacentFindsAll(order);
    assert |order| == |multiset(order)| == |multiset(cfg)| == |cfg|;
    if AdjacentSame(order) { return DuplicateSize; }
    if |order| > MAX_ALLOCATORS { return TooMany; }
    forall c | c in order ensures Sound(c, typeSize, typeAlign) {
      assert c in multiset(order);
    }
    forall i, j | 0 <= i < j < |order| ensures order[i].extra < order[j].extra {
      assert order[i].extra != order[i + 1].extra;
    }
    var made := new SlabAllocatorSet(header, typeSize, typeAlign, order);
    r := Made(made);
  }
}
