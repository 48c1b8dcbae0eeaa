/** PartitionedUnorderedMap: a hash map split into partitions, each an unordered_map of its own.
    A partition is the sequence of its entries in the order in which it happens to iterate. */
module PartitionedMap {
  import opened Sequences
  import opened Wrappers

  type Part<K, V> = seq<(K, V)>

  /** All entries in iteration order. */
  function Flat<K, V>(parts: seq<Part<K, V>>): seq<(K, V)>
    decreases |parts|
  {
    if parts == [] then [] else parts[0] + Flat(parts[1..])
  }

  ghost predicate UniqueKeys<K, V>(s: seq<(K, V)>) {
    forall i, j | 0 <= i < j < |s| :: s[i].0 != s[j].0
  }

  /** The ordinary map that a sequence of entries stands for. */
  ghost function AsMap<K, V>(s: seq<(K, V)>): map<K, V>
    requires UniqueKeys(s)
  {
    map e | e in s :: e.0 := e.1
  }

  lemma AsMapEntries<K, V>(s: seq<(K, V)>, k: K, v: V)
    requires UniqueKeys(s)
    ensures (k, v) in s <==> k in AsMap(s) && AsMap(s)[k] == v
  {
    if k in AsMap(s) {
      var e :| e in s && e.0 == k;
      assert AsMap(s)[e.0] == e.1;
      assert e == (k, e.1);
      if (k, v) in s {
        var i :| 0 <= i < |s| && s[i] == e;
        var j :| 0 <= j < |s| && s[j] == (k, v);
      }
    }
  }

  lemma AsMapKey<K, V>(s: seq<(K, V)>, k: K)
    requires UniqueKeys(s)
    ensures k in AsMap(s) <==> exists i | 0 <= i < |s| :: s[i].0 == k
  {
    if i :| 0 <= i < |s| && s[i].0 == k {
      assert s[i] in s;
    }
  }

  lemma {:induction false} AsMapSize<K, V>(s: seq<(K, V)>)
    requires UniqueKeys(s)
    ensures |AsMap(s)| == |s|
    decreases |s|
  {
    if s != [] {
      hide AsMap;
      var n := |s| - 1;
      AsMapSize(s[..n]);
      forall k ensures k in AsMap(s) <==> k in AsMap(s[..n]) || k == s[n].0 {
        AsMapKey(s, k);
        AsMapKey(s[..n], k);
      }
      AsMapKey(s[..n], s[n].0);
      assert AsMap(s).Keys == AsMap(s[..n]).Keys + {s[n].0};
    }
  }

  /** Every key sits in the partition that its hash selects, once. */
  ghost predicate Placed<K, V>(parts: seq<Part<K, V>>, home: K -> nat) {
    && (forall p | 0 <= p < |parts| :: UniqueKeys(parts[p]))
    && forall p, i | 0 <= p < |parts| && 0 <= i < |parts[p]| :: home(parts[p][i].0) == p
  }

  lemma {:induction false} FlatMember<K, V>(parts: seq<Part<K, V>>, e: (K, V))
    ensures e in Flat(parts) <==> exists p | 0 <= p < |parts| :: e in parts[p]
    decreases |parts|
  {
    if parts != [] {
      FlatMember(parts[1..], e);
      assert forall p | 1 <= p < |parts| :: parts[p] == parts[1..][p - 1];
      if e in Flat(parts[1..]) {
        var p :| 0 <= p < |parts[1..]| && e in parts[1..][p];
        assert e in parts[p + 1];
      }
    }
  }

  lemma {:induction false} FlatSplit<K, V>(parts: seq<Part<K, V>>, p: nat)
    requires p < |parts|
    ensures Flat(parts) == Flat(parts[..p]) + parts[p] + Flat(parts[p + 1..])
    decreases p
  {
    if p > 0 {
      FlatSplit(parts[1..], p - 1);
      assert parts[1..][..p - 1] == parts[..p][1..] && parts[1..][p..] == parts[p + 1..];
    }
  }

  /** Keys are unique across partitions too, since they have different homes. */
  lemma {:induction false} PlacedUnique<K, V>(parts: seq<Part<K, V>>, home: K -> nat, from: nat)
    requires forall p | 0 <= p < |parts| :: UniqueKeys(parts[p])
    requires forall p, i | 0 <= p < |parts| && 0 <= i < |parts[p]| :: home(parts[p][i].0) == from + p
    ensures UniqueKeys(Flat(parts))
    ensures forall i | 0 <= i < |Flat(parts)| :: from <= home(Flat(parts)[i].0)
    decreases |parts|
  {
    if parts != [] {
      PlacedUnique(parts[1..], home, from + 1);
      var a, b := parts[0], Flat(parts[1..]);
      assert forall i | 0 <= i < |a| + |b| :: (a + b)[i] == if i < |a| then a[i] else b[i - |a|];
    }
  }

  // ---- Iterators ----

  /** `ait` is a position in the vector of partitions; `mit` a position in partition `part`. */
  datatype Iter = Iter(ait: nat, part: nat, mit: nat)

  function End<K, V>(parts: seq<Part<K, V>>): Iter
    requires parts != []
  {
    Iter(|parts|, |parts| - 1, |parts[|parts| - 1]|)
  }

  predicate At<K, V>(parts: seq<Part<K, V>>, it: Iter) {
    it.ait == it.part < |parts| && it.mit < |parts[it.ait]|
  }

  /** The iterator stands at entry n of the iteration order, or is end() when n is the size. */
  ghost predicate StandsAt<K, V>(parts: seq<Part<K, V>>, it: Iter, n: nat)
    requires parts != []
  {
    if it == End(parts) then n == |Flat(parts)|
    else At(parts, it) && n == |Flat(parts[..it.ait])| + it.mit
  }

  lemma {:induction false} StandsAtEntry<K, V>(parts: seq<Part<K, V>>, it: Iter)
    requires At(parts, it)
    ensures |Flat(parts[..it.ait])| + it.mit < |Flat(parts)|
    ensures Flat(parts)[|Flat(parts[..it.ait])| + it.mit] == parts[it.ait][it.mit]
  {
    FlatSplit(parts, it.ait);
  }

  lemma {:induction false} FlatTake<K, V>(parts: seq<Part<K, V>>, p: nat)
    requires p < |parts|
    ensures Flat(parts[..p + 1]) == Flat(parts[..p]) + parts[p]
    decreases p
  {
    FlatSplit(parts[..p + 1], p);
    assert parts[..p + 1][..p] == parts[..p] && parts[..p + 1][p + 1..] == [];
  }

  /** The loop at the end of inc() and of erase(): from a position that may be one past its partition's
      last entry, move to the next entry there is. */
  method Settle<K, V>(parts: seq<Part<K, V>>, p: nat, i: nat) returns (it: Iter)
    requires p < |parts| && i <= |parts[p]|
    ensures StandsAt(parts, it, |Flat(parts[..p])| + i)
  {
    var ait: nat, mit: nat := p, i;
    while mit == |parts[ait]|
      invariant ait < |parts| && mit <= |parts[ait]|
      invariant |Flat(parts[..ait])| + mit == |Flat(parts[..p])| + i
      decreases |parts| - ait
    {
      FlatTake(parts, ait);
      ait := ait + 1;
      if ait == |parts| {
        assert parts[..ait] == parts;
        return Iter(ait, ait - 1, mit);
      }
      mit := 0;
    }
    return Iter(ait, ait, mit);
  }

  /** begin(): the first entry of the first partition that has one. */
  method Begin<K, V>(parts: seq<Part<K, V>>) returns (it: Iter)
    requires parts != []
    ensures StandsAt(parts, it, 0)
  {
    var ait := 0;
    while ait != |parts|
      invariant ait <= |parts| && |Flat(parts[..ait])| == 0
    {
      if parts[ait] != [] { return Iter(ait, ait, 0); }
      FlatTake(parts, ait);
      ait := ait + 1;
    }
    assert parts[..ait] == parts;
    return End(parts);
  }

  /** ++it. */
  method Increment<K, V>(parts: seq<Part<K, V>>, it: Iter) returns (it': Iter)
    requires At(parts, it)
    ensures StandsAt(parts, it', |Flat(parts[..it.ait])| + it.mit + 1)
  {
    it' := Settle(parts, it.ait, it.mit + 1);
  }

  /** A walk from begin() to end() visits every entry once, in order. */
  method Walk<K(==), V(==)>(parts: seq<Part<K, V>>) returns (seen: seq<(K, V)>)
    requires parts != []
    ensures seen == Flat(parts)
  {
    var it := Begin(parts);
    seen := [];
    while it != End(parts)
      invariant StandsAt(parts, it, |seen|) && |seen| <= |Flat(parts)|
      invariant seen == Flat(parts)[..|seen|]
      decreases |Flat(parts)| - |seen|
    {
      StandsAtEntry(parts, it);
      seen := seen + [parts[it.ait][it.mit]];
      it := Increment(parts, it);
    }
  }

  // ---- The map ----

  /** Replacing one partition replaces its stretch of the iteration order. */
  lemma FlatReplace<K, V>(parts: seq<Part<K, V>>, p: nat, part: Part<K, V>)
    requires p < |parts|
    ensures Flat(parts[p := part]) == Flat(parts[..p]) + part + Flat(parts[p + 1..])
  {
    var parts' := parts[p := part];
    FlatSplit(parts', p);
    assert parts'[..p] == parts[..p] && parts'[p + 1..] == parts[p + 1..];
  }

  /** Two maps with the same entries, as sequences, are the same map. */
  lemma SameEntries<K(!new), V(!new)>(s: seq<(K, V)>, m: map<K, V>)
    requires UniqueKeys(s) && forall k, v :: (k, v) in s <==> k in m && m[k] == v
    ensures AsMap(s) == m
  {
    forall k ensures k in AsMap(s) <==> k in m {
      if k in m { AsMapEntries(s, k, m[k]); }
      if k in AsMap(s) { AsMapEntries(s, k, AsMap(s)[k]); }
    }
    forall k | k in m ensures AsMap(s)[k] == m[k] { AsMapEntries(s, k, m[k]); }
  }

  /** unordered_map::find inside one partition; |part| stands for its end(). */
  method FindIn<K(==), V>(part: Part<K, V>, key: K) returns (i: nat)
    ensures i <= |part| && (i < |part| ==> part[i].0 == key)
    ensures i == |part| ==> forall j | 0 <= j < |part| :: part[j].0 != key
  {
    i := 0;
    while i < |part| && part[i].0 != key
      invariant i <= |part| && forall j | 0 <= j < i :: part[j].0 != key
    {
      i := i + 1;
    }
  }

  function Without<T>(s: seq<T>, i: nat): seq<T>
    requires i < |s|
  {
    s[..i] + s[i + 1..]
  }

  lemma ErasedFlat<K, V>(parts: seq<Part<K, V>>, it: Iter)
    requires At(parts, it)
    ensures var p := it.ait; var n := |Flat(parts[..p])| + it.mit; var parts' := parts[p := Without(parts[p], it.mit)];
            n < |Flat(parts)| && Flat(parts') == Without(Flat(parts), n) && parts'[..p] == parts[..p]
  {
    var p, i := it.ait, it.mit;
    StandsAtEntry(parts, it);
    FlatSplit(parts, p);
    FlatReplace(parts, p, Without(parts[p], i));
    var before, after := Flat(parts[..p]), Flat(parts[p + 1..]);
    assert before + Without(parts[p], i) + after == Without(before + parts[p] + after, |before| + i);
  }

  /** An entry more, in whatever order. */
  ghost predicate Adds<K, V>(s: Part<K, V>, e: (K, V), s': Part<K, V>) {
    multiset(s') == multiset(s) + multiset{e}
  }

  lemma AddsMember<K, V>(s: Part<K, V>, e: (K, V), s': Part<K, V>, x: (K, V))
    requires Adds(s, e, s')
    ensures x in s' <==> x in s || x == e
  {
    assert x in s' <==> x in multiset(s');
    assert x in s <==> x in multiset(s);
  }

  lemma SameKey<K, V>(s: Part<K, V>, x: (K, V), y: (K, V))
    requires UniqueKeys(s) && x in s && y in s && x.0 == y.0
    ensures x == y
  {
    var i :| 0 <= i < |s| && s[i] == x;
    var j :| 0 <= j < |s| && s[j] == y;
  }

  lemma AddsUnique<K, V>(s: Part<K, V>, e: (K, V), s': Part<K, V>)
    requires Adds(s, e, s') && UniqueKeys(s) && forall j | 0 <= j < |s| :: s[j].0 != e.0
    ensures UniqueKeys(s')
  {
    forall i, j | 0 <= i < j < |s'| ensures s'[i].0 != s'[j].0 {
      var x, y := s'[i], s'[j];
      AddsMember(s, e, s', x);
      AddsMember(s, e, s', y);
      if x.0 == y.0 {
        if x in s && y in s { SameKey(s, x, y); }
        assert x == y;
        CountedTwice(s', i, j);
        assert x in s;
        var a, b := TwoPlaces(s, x);
      }
    }
  }

  lemma WithoutMember<K, V>(s: Part<K, V>, i: nat, k: K, v: V)
    requires i < |s| && UniqueKeys(s)
    ensures UniqueKeys(Without(s, i))
    ensures (k, v) in Without(s, i) <==> (k, v) in s && k != s[i].0
  {
    if (k, v) in s && k != s[i].0 {
      var j :| 0 <= j < |s| && s[j] == (k, v);
      assert Without(s, i)[if j < i then j else j - 1] == (k, v);
    }
  }

  class PartitionedUnorderedMap<K(!new, ==), V(!new, ==)> {
    const extract: K -> nat
    const partitions: nat
    var parts: seq<Part<K, V>>

    /** A number of partitions that is missing or zero stands for the number of hardware threads. */
    constructor (extract: K -> nat, wanted: Option<nat>, hardwareThreads: nat)
      requires hardwareThreads > 0 || (wanted.Some? && wanted.value > 0)
      ensures Valid() && Contents() == map[] && this.extract == extract
      ensures wanted == Some(partitions) || (partitions == hardwareThreads && wanted in {None, Some(0)})
    {
      var n := if wanted.Some? && wanted.value != 0 then wanted.value else hardwareThreads;
      this.extract, this.partitions := extract, n;
      parts := seq(n, i => []);
      new;
      EmptyFlat(parts);
    }

    /** partitioner. */
    function Home(key: K): nat {
      if partitions == 0 then 0 else extract(key) % partitions
    }

    ghost predicate Valid()
      reads this
    {
      |parts| == partitions > 0 && Placed(parts, (k: K) => Home(k))
    }

    /** The ordinary map that this one stands for. */
    ghost function Contents(): map<K, V>
      requires Valid()
      reads this
    {
      PlacedUnique(parts, (k: K) => Home(k), 0);
      AsMap(Flat(parts))
    }

    lemma EntryHome(k: K, v: V)
      requires Valid()
      ensures Home(k) < |parts|
      ensures k in Contents() && Contents()[k] == v <==> (k, v) in parts[Home(k)]
    {
      PlacedUnique(parts, (k: K) => Home(k), 0);
      AsMapEntries(Flat(parts), k, v);
      FlatMember(parts, (k, v));
      HomeInRange(extract(k), partitions);
    }

    /** find(). */
    method Find(key: K) returns (it: Iter)
      requires Valid()
      ensures key in Contents() ==> At(parts, it) && parts[it.ait][it.mit] == (key, Contents()[key])
      ensures key in Contents() ==> it.ait == extract(key) % partitions
      ensures key !in Contents() ==> it == End(parts)
    {
      HomeInRange(extract(key), partitions);
      var p := Home(key);
      var i := FindIn(parts[p], key);
      if i == |parts[p]| {
        it := End(parts);
        if key in Contents() { EntryHome(key, Contents()[key]); }
      } else {
        it := Iter(p, p, i);
        EntryHome(key, parts[p][i].1);
      }
    }

    /** emplace(key, val). A new entry can go anywhere in its partition, and a rehash can rearrange all the others:
        `arranged` is the order in which the partition iterates afterwards. */
    method Emplace(key: K, val: V, arranged: Part<K, V>) returns (it: Iter, inserted: bool)
      requires Valid() && (key !in Contents() ==> Adds(parts[Home(key)], (key, val), arranged))
      modifies this
      ensures Valid()
      ensures inserted == (key !in old(Contents()))
      ensures Contents() == if inserted then old(Contents())[key := val] else old(Contents())
      ensures parts == if inserted then old(parts)[Home(key) := arranged] else old(parts)
      ensures At(parts, it) && parts[it.ait][it.mit] == (key, Contents()[key])
      ensures it.ait == extract(key) % partitions
    {
      HomeInRange(extract(key), partitions);
      var p := Home(key);
      var i := FindIn(parts[p], key);
      if i < |parts[p]| {
        EntryHome(key, parts[p][i].1);
        return Iter(p, p, i), false;
      }
      ghost var m := Contents();
      if key in m { EntryHome(key, m[key]); }
      ArrangedPart(p, key, val, arranged);
      PutPart(p, arranged, m[key := val]);
      i := FindIn(arranged, key);
      AddsMember(parts[p], (key, val), arranged, (key, val));
      SameKey(arranged, arranged[i], (key, val));
      parts := parts[p := arranged];
      return Iter(p, p, i), true;
    }

    lemma ArrangedPart(p: nat, key: K, val: V, part: Part<K, V>)
      requires Valid() && p < |parts| && Home(key) == p && key !in Contents() && Adds(parts[p], (key, val), part)
      ensures UniqueKeys(part) && (forall j | 0 <= j < |part| :: Home(part[j].0) == p)
      ensures forall k, v | Home(k) == p ::
                (k, v) in part <==> k in Contents()[key := val] && Contents()[key := val][k] == v
    {
      forall j | 0 <= j < |parts[p]| ensures parts[p][j].0 != key { EntryHome(key, parts[p][j].1); }
      AddsUnique(parts[p], (key, val), part);
      forall j | 0 <= j < |part| ensures Home(part[j].0) == p { AddsMember(parts[p], (key, val), part, part[j]); }
      forall k, v | Home(k) == p
        ensures (k, v) in part <==> k in Contents()[key := val] && Contents()[key := val][k] == v
      {
        EntryHome(k, v);
        AddsMember(parts[p], (key, val), part, (k, v));
      }
    }

    /** Storing another partition changes the map to m, if the partition is right for m. */
    lemma PutPart(p: nat, part: Part<K, V>, m: map<K, V>)
      requires Valid() && p < |parts| && UniqueKeys(part)
      requires forall i | 0 <= i < |part| :: Home(part[i].0) == p
      requires forall k, v | Home(k) == p :: (k, v) in part <==> k in m && m[k] == v
      requires forall k | Home(k) != p :: k in m <==> k in Contents()
      requires forall k | Home(k) != p && k in m :: m[k] == Contents()[k]
      ensures Placed(parts[p := part], (k: K) => Home(k))
      ensures UniqueKeys(Flat(parts[p := part])) && AsMap(Flat(parts[p := part])) == m
    {
      var parts' := parts[p := part];
      PlacedUnique(parts', (k: K) => Home(k), 0);
      forall k, v ensures (k, v) in Flat(parts') <==> k in m && m[k] == v {
        FlatMember(parts', (k, v));
        EntryHome(k, v);
        if Home(k) == p {
          assert (k, v) in parts'[p] <==> exists q | 0 <= q < |parts'| :: (k, v) in parts'[q];
        } else {
          assert (k, v) in parts'[Home(k)] <==> exists q | 0 <= q < |parts'| :: (k, v) in parts'[q];
        }
      }
      SameEntries(Flat(parts'), m);
    }

    /** erase(position): the entry goes, and the iterator returned stands where the next one now is. */
    method Erase(it: Iter) returns (it': Iter)
      requires Valid() && At(parts, it)
      modifies this
      ensures Valid()
      ensures Contents() == old(Contents()) - {old(parts)[it.ait][it.mit].0}
      ensures var n := |Flat(old(parts)[..it.ait])| + it.mit;
              && n < |Flat(old(parts))| && Flat(parts) == Without(Flat(old(parts)), n)
              && StandsAt(parts, it', n)
    {
      var p, i := it.ait, it.mit;
      var part := Without(parts[p], i);
      ErasedPart(p, i);
      PutPart(p, part, Contents() - {parts[p][i].0});
      ErasedFlat(parts, it);
      hide Flat, AsMap, UniqueKeys;
      parts := parts[p := part];
      it' := Settle(parts, p, i);
    }

    lemma ErasedPart(p: nat, i: nat)
      requires Valid() && p < |parts| && i < |parts[p]|
      ensures var part := Without(parts[p], i); var key := parts[p][i].0;
              && Home(key) == p && UniqueKeys(part)
              && (forall j | 0 <= j < |part| :: Home(part[j].0) == p)
              && forall k, v | Home(k) == p :: (k, v) in part <==> k in Contents() - {key} && Contents()[k] == v
    {
      var part := Without(parts[p], i);
      var key := parts[p][i].0;
      WithoutMember(parts[p], i, key, parts[p][i].1);
      hide UniqueKeys;
      forall k, v | Home(k) == p
        ensures (k, v) in part <==> k in Contents() - {key} && Contents()[k] == v
      {
        EntryHome(k, v);
        WithoutMember(parts[p], i, k, v);
      }
    }

    /** size(). */
    method Size() returns (n: nat)
      requires Valid()
      ensures n == |Contents()|
    {
      n := 0;
      for p := 0 to |parts|
        invariant n == |Flat(parts[..p])|
      {
        FlatTake(parts, p);
        n := n + |parts[p]|;
      }
      assert parts[..|parts|] == parts;
      PlacedUnique(parts, (k: K) => Home(k), 0);
      AsMapSize(Flat(parts));
    }

    /** One round of such a walk: erase the entry if it matches, or else step over it. */
    method EraseOrStep(it: Iter, pred: ((K, V)) -> bool, ghost n: nat) returns (it': Iter, e: (K, V))
      requires Valid() && At(parts, it) && n == |Flat(parts[..it.ait])| + it.mit
      modifies this
      ensures Valid() && parts != [] && n < |Flat(old(parts))| && e == Flat(old(parts))[n]
      ensures Flat(parts) == if pred(e) then Without(Flat(old(parts)), n) else Flat(old(parts))
      ensures StandsAt(parts, it', if pred(e) then n else n + 1)
    {
      hide Flat, Placed, Without, AsMap, UniqueKeys;
      StandsAtEntry(parts, it);
      e := parts[it.ait][it.mit];
      if pred(e) {
        it' := Erase(it);
      } else {
        it' := Increment(parts, it);
      }
    }

    /** A walk that erases the entries that match and steps over the others sees every entry once. */
    method EraseIf(pred: ((K, V)) -> bool) returns (seen: seq<(K, V)>)
      requires Valid()
      modifies this
      ensures Valid() && seen == Flat(old(parts)) && Flat(parts) == Retained(Flat(old(parts)), pred)
    {
      var it := Begin(parts);
      seen := [];
      ghost var all, n := Flat(parts), 0;
      hide Flat, Placed, Retained, Without, Valid, Merged;
      MergedStart(all, pred);
      while it != End(parts)
        invariant Valid() && parts != [] && n <= |all| && seen == all[..n]
        invariant Flat(parts) == Merged(all, n, pred)
        invariant StandsAt(parts, it, |Retained(all[..n], pred)|)
        decreases |all| - n
      {
        StandsAtEntry(parts, it);
        MergedStep(all, n, pred);
        var e;
        it, e := EraseOrStep(it, pred, |Retained(all[..n], pred)|);
        seen, n := seen + [e], n + 1;
      }
      MergedEnd(all, n, pred);
    }
  }

  /** The iteration order when the first n of the original entries have been dealt with. */
  ghost function Merged<T>(all: seq<T>, n: nat, pred: T -> bool): seq<T>
    requires n <= |all|
  {
    Retained(all[..n], pred) + all[n..]
  }

  lemma MergedStart<T>(all: seq<T>, pred: T -> bool)
    ensures Merged(all, 0, pred) == all && Retained(all[..0], pred) == []
  {}

  lemma MergedEnd<T>(all: seq<T>, n: nat, pred: T -> bool)
    requires n <= |all| && |Retained(all[..n], pred)| == |Merged(all, n, pred)|
    ensures n == |all| && all[..n] == all && Merged(all, n, pred) == Retained(all, pred)
  {}

  lemma MergedStep<T>(all: seq<T>, n: nat, pred: T -> bool)
    requires n <= |all| && |Retained(all[..n], pred)| < |Merged(all, n, pred)|
    ensures n < |all| && Merged(all, n, pred)[|Retained(all[..n], pred)|] == all[n]
    ensures all[..n + 1] == all[..n] + [all[n]]
    ensures |Retained(all[..n + 1], pred)| == |Retained(all[..n], pred)| + if pred(all[n]) then 0 else 1
    ensures Merged(all, n + 1, pred)
            == if pred(all[n]) then Without(Merged(all, n, pred), |Retained(all[..n], pred)|) else Merged(all, n, pred)
  {
    assert all[..n + 1][..n] == all[..n];
  }

  lemma HomeInRange(h: nat, n: nat)
    requires n > 0
    ensures 0 <= h % n < n
  {}

  lemma {:induction false} EmptyFlat<K, V>(parts: seq<Part<K, V>>)
    requires forall p | 0 <= p < |parts| :: parts[p] == []
    ensures Flat(parts) == []
    decreases |parts|
  {
    if parts != [] { EmptyFlat(parts[1..]); }
  }

  ghost function Retained<T>(s: seq<T>, pred: T -> bool): seq<T> {
    if s == [] then []
    else Retained(s[..|s| - 1], pred) + if pred(s[|s| - 1]) then [] else [s[|s| - 1]]
  }
}
