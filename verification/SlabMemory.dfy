/** Raw memory as bytes, and pointers copied in and out of it. */
module SlabMemory {
  import opened Wrappers

  type Memory = map<nat, Byte>

  /** sizeof(std::uint8_t*). */
  const PTR: nat := 8
  const ADDRESSES: nat := 0x1_0000_0000_0000_0000

  function ByteAt(m: Memory, a: nat): Byte {
    if a in m then m[a] else 0
  }

  /** memcpy of n bytes out of memory, read as a little-endian number. */
  function Load(m: Memory, a: nat, n: nat): nat
    decreases n
  {
    if n == 0 then 0 else ByteAt(m, a) + 256 * Load(m, a + 1, n - 1)
  }

  /** memcpy of an n-byte number into memory. */
  function Store(m: Memory, a: nat, n: nat, v: nat): Memory
    decreases n
  {
    if n == 0 then m else Store(m[a := v % 256], a + 1, n - 1, v / 256)
  }

  function LoadPtr(m: Memory, a: nat): nat { Load(m, a, PTR) }
  function StorePtr(m: Memory, a: nat, v: nat): Memory { Store(m, a, PTR, v) }

  /** The two memories agree on every byte outside [lo, hi). */
  ghost predicate SameOutside(m: Memory, m': Memory, lo: nat, hi: nat) {
    forall b: nat | b < lo || hi <= b :: ByteAt(m', b) == ByteAt(m, b)
  }

  function Pow256(n: nat): nat {
    if n == 0 then 1 else 256 * Pow256(n - 1)
  }

  lemma AddressSpace()
    ensures Pow256(PTR) == ADDRESSES
  {}

  lemma {:induction false} StoreFrame(m: Memory, a: nat, n: nat, v: nat)
    ensures SameOutside(m, Store(m, a, n, v), a, a + n)
    decreases n
  {
    if n > 0 { StoreFrame(m[a := v % 256], a + 1, n - 1, v / 256); }
  }

  lemma {:induction false} LoadFrame(m: Memory, m': Memory, a: nat, n: nat)
    requires forall b | a <= b < a + n :: ByteAt(m', b) == ByteAt(m, b)
    ensures Load(m', a, n) == Load(m, a, n)
    decreases n
  {
    if n > 0 { LoadFrame(m, m', a + 1, n - 1); }
  }

  lemma {:induction false} LoadStore(m: Memory, a: nat, n: nat, v: nat)
    requires v < Pow256(n)
    ensures Load(Store(m, a, n, v), a, n) == v
    decreases n
  {
    if n > 0 {
      LoadStore(m[a := v % 256], a + 1, n - 1, v / 256);
      StoreFrame(m[a := v % 256], a + 1, n - 1, v / 256);
    }
  }

  /** A pointer written to memory reads back, and nothing else changes. */
  lemma PtrRoundTrip(m: Memory, a: nat, v: nat)
    requires v < ADDRESSES
    ensures LoadPtr(StorePtr(m, a, v), a) == v
    ensures SameOutside(m, StorePtr(m, a, v), a, a + PTR)
  {
    AddressSpace();
    LoadStore(m, a, PTR, v);
    StoreFrame(m, a, PTR, v);
  }

  lemma PtrFrame(m: Memory, m': Memory, lo: nat, hi: nat, a: nat)
    requires SameOutside(m, m', lo, hi) && (a + PTR <= lo || hi <= a)
    ensures LoadPtr(m', a) == LoadPtr(m, a)
  {
    LoadFrame(m, m', a, PTR);
  }
}
