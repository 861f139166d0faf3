/** The free ring of umalloc.c as values. Addresses and sizes are counted in header
    units of eight bytes. ring lists the free blocks in address order from base on; live
    maps each allocated block to its size; cover names, for every unit obtained from
    sbrk, the block it belongs to. */
module HeapModel {

  datatype Hdr = Hdr(ptr: nat, size: nat)

  type Mem = map<nat, Hdr>

  ghost predicate Links(mem: Mem, xs: seq<nat>) {
    && xs != [] && (forall i :: 0 <= i < |xs| ==> xs[i] in mem)
    && (forall i :: 0 <= i < |xs| - 1 ==> mem[xs[i]].ptr == xs[i + 1])
    && mem[xs[|xs| - 1]].ptr == xs[0]
  }

  /** Block a ends before block b starts; strictly, if two free blocks may not touch. */
  ghost predicate Before(mem: Mem, a: nat, b: nat)
    requires a in mem
  {
    a < b && a + mem[a].size <= b
  }

  /** The ring is linked, starts at base, ascends, and holds disjoint blocks. */
  ghost predicate Ring(mem: Mem, ring: seq<nat>, base: nat) {
    && Links(mem, ring) && ring[0] == base && mem[base].size == 0
    && (forall i :: 1 <= i < |ring| ==> mem[ring[i]].size > 0)
    && (forall i, j :: 0 <= i < j < |ring| ==> Before(mem, ring[i], ring[j]))
  }

  /** The free blocks at i and i + 1 do not touch. */
  ghost predicate Gap(mem: Mem, ring: seq<nat>, i: nat)
    requires i + 1 < |ring| && ring[i] in mem
  {
    ring[i] + mem[ring[i]].size != ring[i + 1]
  }

  /** The free and the allocated blocks with their sizes. */
  ghost function AllBlocks(mem: Mem, ring: seq<nat>, live: map<nat, nat>, base: nat): map<nat, nat> {
    map b | b in mem && (b in live || (b in ring && b != base)) :: mem[b].size
  }

  /** Allocated blocks carry the size they were asked for and are not on the ring. */
  ghost predicate LiveOk(mem: Mem, ring: seq<nat>, live: map<nat, nat>, base: nat) {
    forall b :: b in live ==> b in mem && mem[b].size == live[b] > 0 && b > base && b !in ring
  }

  ghost predicate Inside(blocks: map<nat, nat>, b: nat, u: nat) {
    b in blocks && b <= u < b + blocks[b]
  }

  /** cover names, for exactly the units inside blocks, the one block that contains them. */
  ghost predicate Partition(blocks: map<nat, nat>, cover: map<nat, nat>) {
    && (forall b :: b in blocks ==> blocks[b] > 0)
    && (forall u :: u in cover ==> Inside(blocks, cover[u], u))
    && (forall b: nat, u: nat :: Inside(blocks, b, u) ==> u in cover && cover[u] == b)
  }

  /** What Partition says: no two blocks overlap, and together they are the arena. */
  lemma PartitionMeans(blocks: map<nat, nat>, cover: map<nat, nat>)
    requires Partition(blocks, cover)
    ensures forall a: nat, b: nat, u: nat :: Inside(blocks, a, u) && Inside(blocks, b, u) ==> a == b
    ensures forall u: nat :: u in cover <==> exists b: nat :: Inside(blocks, b, u)
  {
    forall u | u in cover
      ensures exists b: nat :: Inside(blocks, b, u)
    {
      assert Inside(blocks, cover[u], u);
    }
  }

  /** Blocks p and q = p + size become one. */
  lemma MergePartition(blocks: map<nat, nat>, cover: map<nat, nat>, p: nat, q: nat) returns (cover': map<nat, nat>)
    requires Partition(blocks, cover) && p in blocks && q in blocks && p + blocks[p] == q && p < q
    ensures Partition((blocks - {q})[p := blocks[p] + blocks[q]], cover') && cover'.Keys == cover.Keys
  {
    cover' := map u | u in cover :: if cover[u] == q then p else cover[u];
    var blocks' := (blocks - {q})[p := blocks[p] + blocks[q]];
    forall u | u in cover'
      ensures Inside(blocks', cover'[u], u)
    {
      assert Inside(blocks, cover[u], u);
    }
    forall b: nat, u: nat | Inside(blocks', b, u)
      ensures u in cover' && cover'[u] == b
    {
      if b == p {
        assert Inside(blocks, p, u) || Inside(blocks, q, u);
      } else {
        assert Inside(blocks, b, u);
      }
    }
  }

  /** Block p gives its last n units to a new block. */
  lemma SplitPartition(blocks: map<nat, nat>, cover: map<nat, nat>, p: nat, n: nat) returns (cover': map<nat, nat>)
    requires Partition(blocks, cover) && p in blocks && 0 < n < blocks[p]
    ensures p + blocks[p] - n !in blocks
    ensures Partition(blocks[p := blocks[p] - n][p + blocks[p] - n := n], cover') && cover'.Keys == cover.Keys
  {
    var q := p + blocks[p] - n;
    assert Inside(blocks, p, q);
    var blocks' := blocks[p := blocks[p] - n][q := n];
    cover' := map u | u in cover :: if cover[u] == p && u >= q then q else cover[u];
    assert q in blocks ==> Inside(blocks, q, q);
    forall u | u in cover'
      ensures Inside(blocks', cover'[u], u)
    {
      assert Inside(blocks, cover[u], u);
    }
    forall b: nat, u: nat | Inside(blocks', b, u)
      ensures u in cover' && cover'[u] == b
    {
      if b == p || b == q {
        assert Inside(blocks, p, u);
      } else {
        assert Inside(blocks, b, u);
      }
    }
  }

  /** The n units from b on. */
  ghost function Units(b: nat, n: nat): (s: set<nat>)
    ensures forall u :: u in s <==> b <= u < b + n
  {
    if n == 0 then {} else Units(b, n - 1) + {b + n - 1}
  }

  /** A fresh region from sbrk becomes a block. */
  lemma GrowPartition(blocks: map<nat, nat>, cover: map<nat, nat>, b: nat, n: nat) returns (cover': map<nat, nat>)
    requires Partition(blocks, cover) && n > 0 && b !in blocks && forall u :: b <= u < b + n ==> u !in cover
    ensures Partition(blocks[b := n], cover') && cover'.Keys == cover.Keys + Units(b, n)
  {
    cover' := map u: nat | u in cover.Keys + Units(b, n) :: if u in cover then cover[u] else b;
    var blocks' := blocks[b := n];
    forall u | u in cover'
      ensures Inside(blocks', cover'[u], u)
    {
      if u in cover {
        assert Inside(blocks, cover[u], u);
      }
    }
    forall c: nat, u: nat | Inside(blocks', c, u)
      ensures u in cover' && cover'[u] == c
    {
      if c != b {
        assert Inside(blocks, c, u);
      }
    }
  }

  // ---------------------------------------------------------- changing the ring

  function InsertAt(ring: seq<nat>, t: nat, b: nat): seq<nat>
    requires t < |ring|
  {
    ring[..t + 1] + [b] + ring[t + 1..]
  }

  function RemoveAt(ring: seq<nat>, i: nat): seq<nat>
    requires i < |ring|
  {
    ring[..i] + ring[i + 1..]
  }

  function Next(ring: seq<nat>, t: nat): nat
    requires t < |ring|
  {
    if t + 1 < |ring| then ring[t + 1] else ring[0]
  }

  /** Linking live block b behind ring[t]. */
  lemma InsertKeepsRing(mem: Mem, ring: seq<nat>, base: nat, t: nat, b: nat)
    requires Ring(mem, ring, base) && t < |ring| && b in mem && b !in ring && mem[b].size > 0
    requires Before(mem, ring[t], b) && (t + 1 < |ring| ==> Before(mem, b, ring[t + 1]))
    ensures var mem' := mem[b := mem[b].(ptr := Next(ring, t))][ring[t] := mem[ring[t]].(ptr := b)];
            Ring(mem', InsertAt(ring, t, b), base)
  {
    var mem' := mem[b := mem[b].(ptr := Next(ring, t))][ring[t] := mem[ring[t]].(ptr := b)];
    var ring' := InsertAt(ring, t, b);
    forall i | 0 <= i < |ring'|
      ensures ring'[i] in mem' && mem'[ring'[i]].size == mem[ring'[i]].size
      ensures ring'[i] == if i <= t then ring[i] else if i == t + 1 then b else ring[i - 1]
    {
    }
    forall i, j | 0 <= i < j < |ring'|
      ensures Before(mem', ring'[i], ring'[j])
    {
      if i <= t && j == t + 1 {
        assert i < t ==> Before(mem, ring[i], ring[t]);
      } else if i == t + 1 {
        assert j > t + 2 ==> Before(mem, ring[t + 1], ring[j - 1]);
      }
    }
  }

  /** The old index of element k of a sequence that lost its element i. */
  function Skip(i: nat, k: nat): nat { if k < i then k else k + 1 }

  lemma Removed(ring: seq<nat>, i: nat)
    requires i < |ring|
    ensures |RemoveAt(ring, i)| == |ring| - 1
    ensures forall k {:trigger RemoveAt(ring, i)[k]} :: 0 <= k < |ring| - 1 ==> RemoveAt(ring, i)[k] == ring[Skip(i, k)]
  {
  }

  /** Each free block is on the ring once. */
  lemma OnceOnRing(mem: Mem, ring: seq<nat>, base: nat, i: nat)
    requires Ring(mem, ring, base) && i < |ring|
    ensures forall k :: 0 <= k < |ring| && k != i ==> ring[k] != ring[i]
  {
    forall k | 0 <= k < |ring| && k != i ensures ring[k] != ring[i] {
      assert k < i ==> Before(mem, ring[k], ring[i]);
      assert k > i ==> Before(mem, ring[i], ring[k]);
    }
  }

  /** ring[i] takes over the link of ring[i + 1] and is n units long from then on. */
  lemma BypassLinks(mem: Mem, ring: seq<nat>, base: nat, i: nat, n: nat)
    requires Ring(mem, ring, base) && i + 1 < |ring|
    ensures Links(mem[ring[i] := Hdr(mem[ring[i + 1]].ptr, n)], RemoveAt(ring, i + 1))
  {
    hide RemoveAt, Before;
    var mem', ring' := mem[ring[i] := Hdr(mem[ring[i + 1]].ptr, n)], RemoveAt(ring, i + 1);
    Removed(ring, i + 1);
    OnceOnRing(mem, ring, base, i);
    forall k | 0 <= k < |ring'|
      ensures ring'[k] in mem' && mem'[ring'[k]].ptr == if k + 1 < |ring'| then ring'[k + 1] else ring'[0]
    {
    }
  }

  lemma BypassBefore(mem: Mem, ring: seq<nat>, base: nat, i: nat, n: nat, j: nat, k: nat)
    requires Ring(mem, ring, base) && i + 1 < |ring| && j < k < |ring| - 1
    requires i + 2 < |ring| ==> ring[i] + n <= ring[i + 2]
    ensures RemoveAt(ring, i + 1)[j] in mem[ring[i] := Hdr(mem[ring[i + 1]].ptr, n)]
    ensures Before(mem[ring[i] := Hdr(mem[ring[i + 1]].ptr, n)], RemoveAt(ring, i + 1)[j], RemoveAt(ring, i + 1)[k])
  {
    hide RemoveAt, Links;
    Removed(ring, i + 1);
    OnceOnRing(mem, ring, base, i);
    var a, c := Skip(i + 1, j), Skip(i + 1, k);
    assert ring[a] in mem by { LinksKnown(mem, ring, a); }
    assert Before(mem, ring[a], ring[c]);
    if j == i && k > i + 1 {
      assert Before(mem, ring[i + 2], ring[k + 1]) by { LinksKnown(mem, ring, i + 2); }
    }
  }

  lemma LinksKnown(mem: Mem, ring: seq<nat>, a: nat)
    requires Links(mem, ring) && a < |ring|
    ensures ring[a] in mem
  {
  }

  /** Taking ring[i + 1] off the ring, with ring[i] of size n from then on. */
  lemma BypassKeepsRing(mem: Mem, ring: seq<nat>, base: nat, i: nat, n: nat)
    requires Ring(mem, ring, base) && i + 1 < |ring| && (if i == 0 then n == 0 else n > 0)
    requires i + 2 < |ring| ==> ring[i] + n <= ring[i + 2]
    ensures Ring(mem[ring[i] := Hdr(mem[ring[i + 1]].ptr, n)], RemoveAt(ring, i + 1), base)
  {
    hide Links, RemoveAt, Before;
    LinksKnown(mem, ring, i + 1);
    var mem', ring' := mem[ring[i] := Hdr(mem[ring[i + 1]].ptr, n)], RemoveAt(ring, i + 1);
    Removed(ring, i + 1);
    OnceOnRing(mem, ring, base, i);
    BypassLinks(mem, ring, base, i, n);
    forall k | 0 <= k < |ring'| ensures ring'[k] in mem' {
      LinksKnown(mem', ring', k);
    }
    forall j, k | 0 <= j < k < |ring'| ensures Before(mem', ring'[j], ring'[k]) {
      BypassBefore(mem, ring, base, i, n, j, k);
    }
  }

  /** Two touching free blocks become one. */
  lemma MergeKeepsRing(mem: Mem, ring: seq<nat>, base: nat, i: nat)
    requires Ring(mem, ring, base) && 0 < i && i + 1 < |ring| && !Gap(mem, ring, i)
    ensures var q := mem[ring[i + 1]];
            Ring(mem[ring[i] := Hdr(q.ptr, mem[ring[i]].size + q.size)], RemoveAt(ring, i + 1), base)
  {
    hide RemoveAt;
    assert i + 2 < |ring| ==> Before(mem, ring[i + 1], ring[i + 2]);
    BypassKeepsRing(mem, ring, base, i, mem[ring[i]].size + mem[ring[i + 1]].size);
  }

  /** A free block leaves the ring (exact fit). */
  lemma RemoveKeepsRing(mem: Mem, ring: seq<nat>, base: nat, i: nat)
    requires Ring(mem, ring, base) && 0 < i < |ring|
    ensures Ring(mem[ring[i - 1] := mem[ring[i - 1]].(ptr := mem[ring[i]].ptr)], RemoveAt(ring, i), base)
  {
    hide RemoveAt;
    assert i + 1 < |ring| ==> Before(mem, ring[i - 1], ring[i + 1]);
    BypassKeepsRing(mem, ring, base, i - 1, mem[ring[i - 1]].size);
  }

  /** A free block gives up its tail (split). */
  lemma ShrinkKeepsRing(mem: Mem, ring: seq<nat>, base: nat, i: nat, n: nat)
    requires Ring(mem, ring, base) && 0 < i < |ring| && 0 < n < mem[ring[i]].size
    ensures Ring(mem[ring[i] := mem[ring[i]].(size := mem[ring[i]].size - n)], ring, base)
  {
  }

  // ------------------------------------------------------ the whole invariant

  ghost predicate Known(mem: Mem, ring: seq<nat>) {
    forall i :: 0 <= i < |ring| ==> ring[i] in mem
  }

  /** Every neighbouring pair of free blocks except those at the indices in x has a gap. */
  ghost predicate GapsExcept(mem: Mem, ring: seq<nat>, x: set<nat>)
    requires Known(mem, ring)
  {
    forall i :: 0 <= i < |ring| - 1 && i !in x ==> Gap(mem, ring, i)
  }

  /** The invariant, except that the free pairs at the indices in x may still touch. */
  ghost predicate AlmostOk(mem: Mem, ring: seq<nat>, live: map<nat, nat>, cover: map<nat, nat>, base: nat, x: set<nat>) {
    && Ring(mem, ring, base) && Known(mem, ring) && GapsExcept(mem, ring, x)
    && LiveOk(mem, ring, live, base) && Partition(AllBlocks(mem, ring, live, base), cover)
  }

  ghost predicate HeapOk(mem: Mem, ring: seq<nat>, live: map<nat, nat>, cover: map<nat, nat>, base: nat) {
    AlmostOk(mem, ring, live, cover, base, {})
  }

  /** Where a live block belongs on the ring. */
  lemma FindPlace(mem: Mem, ring: seq<nat>, live: map<nat, nat>, cover: map<nat, nat>, base: nat, b: nat) returns (t: nat)
    requires HeapOk(mem, ring, live, cover, base) && b in live
    ensures t < |ring| && Before(mem, ring[t], b) && (t + 1 < |ring| ==> Before(mem, b, ring[t + 1]))
    ensures forall i :: 0 <= i < |ring| ==> (ring[i] < b <==> i <= t) && ring[i] != b
  {
    t := 0;
    while t + 1 < |ring| && ring[t + 1] < b
      invariant 0 <= t < |ring| && ring[t] < b
    {
      t := t + 1;
    }
    forall i | 0 <= i < |ring|
      ensures (ring[i] < b <==> i <= t) && ring[i] != b
    {
      assert i < t ==> Before(mem, ring[i], ring[t]);
      assert i > t + 1 ==> Before(mem, ring[t + 1], ring[i]);
    }
    var blocks := AllBlocks(mem, ring, live, base);
    assert b in blocks && Inside(blocks, b, b);
    if t > 0 && ring[t] + mem[ring[t]].size > b {
      assert Inside(blocks, ring[t], b);
    }
    if t + 1 < |ring| && b + mem[b].size > ring[t + 1] {
      assert Inside(blocks, ring[t + 1], ring[t + 1]) && Inside(blocks, b, ring[t + 1]);
    }
  }

  lemma InsertBlocks(mem: Mem, mem': Mem, ring: seq<nat>, live: map<nat, nat>, base: nat, t: nat, b: nat)
    requires t < |ring| && b in live && LiveOk(mem, ring, live, base)
    requires mem'.Keys == mem.Keys && forall x :: x in mem ==> mem'[x].size == mem[x].size
    ensures AllBlocks(mem', InsertAt(ring, t, b), live - {b}, base) == AllBlocks(mem, ring, live, base)
    ensures LiveOk(mem', InsertAt(ring, t, b), live - {b}, base)
  {
    assert forall x :: x in InsertAt(ring, t, b) <==> x in ring || x == b by {
      assert ring == ring[..t + 1] + ring[t + 1..];
    }
  }

  lemma InsertGaps(mem: Mem, mem': Mem, ring: seq<nat>, t: nat, b: nat)
    requires t < |ring| && Known(mem, ring) && b in mem && GapsExcept(mem, ring, {})
    requires mem'.Keys == mem.Keys && forall x :: x in mem ==> mem'[x].size == mem[x].size
    ensures Known(mem', InsertAt(ring, t, b)) && GapsExcept(mem', InsertAt(ring, t, b), {t, t + 1})
  {
    var ring' := InsertAt(ring, t, b);
    forall i | 0 <= i < |ring'| - 1 && i != t && i != t + 1
      ensures Gap(mem', ring', i)
    {
      assert Gap(mem, ring, if i < t then i else i - 1);
    }
  }

  lemma MergeBlocks(mem: Mem, ring: seq<nat>, live: map<nat, nat>, cover: map<nat, nat>, base: nat, i: nat)
    returns (cover': map<nat, nat>)
    requires Ring(mem, ring, base) && 0 < i && i + 1 < |ring| && !Gap(mem, ring, i)
    requires LiveOk(mem, ring, live, base) && Partition(AllBlocks(mem, ring, live, base), cover)
    ensures var mem' := mem[ring[i] := Hdr(mem[ring[i + 1]].ptr, mem[ring[i]].size + mem[ring[i + 1]].size)];
            && LiveOk(mem', RemoveAt(ring, i + 1), live, base)
            && Partition(AllBlocks(mem', RemoveAt(ring, i + 1), live, base), cover')
    ensures cover'.Keys == cover.Keys
  {
    hide AllBlocks, LiveOk, Partition, RemoveAt, Links;
    RingKnown(mem, ring, base);
    var p, q := ring[i], ring[i + 1];
    var mem' := mem[p := Hdr(mem[q].ptr, mem[p].size + mem[q].size)];
    var blocks := AllBlocks(mem, ring, live, base);
    assert Before(mem, p, q) && Before(mem, base, p) && Before(mem, base, q);
    RemoveMembers(mem, ring, base, i + 1);
    MergeAllBlocks(mem, mem', ring, RemoveAt(ring, i + 1), live, base, p, q);
    cover' := MergePartition(blocks, cover, p, q);
  }

  lemma RingKnown(mem: Mem, ring: seq<nat>, base: nat)
    requires Ring(mem, ring, base)
    ensures Known(mem, ring)
  {
  }

  lemma MergeAllBlocks(mem: Mem, mem': Mem, ring: seq<nat>, ring': seq<nat>, live: map<nat, nat>, base: nat, p: nat, q: nat)
    requires p in ring && q in ring && p in mem && q in mem && p != base && q != base && p != q
    requires mem' == mem[p := Hdr(mem[q].ptr, mem[p].size + mem[q].size)]
    requires forall x :: x in ring' <==> x in ring && x != q
    requires LiveOk(mem, ring, live, base)
    ensures LiveOk(mem', ring', live, base)
    ensures p in AllBlocks(mem, ring, live, base) && AllBlocks(mem, ring, live, base)[p] == mem[p].size
    ensures q in AllBlocks(mem, ring, live, base) && AllBlocks(mem, ring, live, base)[q] == mem[q].size
    ensures AllBlocks(mem', ring', live, base) == (AllBlocks(mem, ring, live, base) - {q})[p := mem[p].size + mem[q].size]
  {
  }

  lemma RemoveMembers(mem: Mem, ring: seq<nat>, base: nat, i: nat)
    requires Ring(mem, ring, base) && i < |ring|
    ensures forall x :: x in RemoveAt(ring, i) <==> x in ring && x != ring[i]
  {
    forall x
      ensures x in RemoveAt(ring, i) <==> x in ring && x != ring[i]
    {
      if x in ring && x != ring[i] {
        var k :| 0 <= k < |ring| && ring[k] == x;
        assert RemoveAt(ring, i)[if k < i then k else k - 1] == x;
      }
      if x in RemoveAt(ring, i) {
        var k :| 0 <= k < |ring| - 1 && RemoveAt(ring, i)[k] == x;
        assert ring[Skip(i, k)] == x;
        assert k < i ==> Before(mem, ring[k], ring[i]);
        assert k >= i ==> Before(mem, ring[i], ring[k + 1]);
      }
    }
  }

  lemma MergeGaps(mem: Mem, ring: seq<nat>, base: nat, i: nat, x: set<nat>)
    requires Ring(mem, ring, base) && 0 < i && i + 1 < |ring| && !Gap(mem, ring, i)
    requires GapsExcept(mem, ring, x + {i}) && (forall j :: j in x ==> j < i)
    ensures var mem' := mem[ring[i] := Hdr(mem[ring[i + 1]].ptr, mem[ring[i]].size + mem[ring[i + 1]].size)];
            && Known(mem', RemoveAt(ring, i + 1))
            && GapsExcept(mem', RemoveAt(ring, i + 1), x)
  {
    var mem' := mem[ring[i] := Hdr(mem[ring[i + 1]].ptr, mem[ring[i]].size + mem[ring[i + 1]].size)];
    var ring' := RemoveAt(ring, i + 1);
    assert forall k :: 0 <= k < |ring'| ==> ring'[k] == ring[Skip(i + 1, k)];
    forall j | 0 <= j < |ring'| - 1 && j !in x
      ensures Gap(mem', ring', j)
    {
      if j < i {
        assert Gap(mem, ring, j) && Before(mem, ring[j], ring[i]);
      } else {
        assert Gap(mem, ring, j + 1);
        assert j > i ==> Before(mem, ring[i], ring[j + 1]);
      }
    }
  }

  // --------------------------------------------------------------------- free

  /** The headers after free() linked b between p and next, merging where they touch. */
  function FreeMem(mem: Mem, p: nat, next: nat, b: nat): Mem
    requires p in mem && next in mem && b in mem
  {
    var hb := if b + mem[b].size == next then Hdr(mem[next].ptr, mem[b].size + mem[next].size)
              else Hdr(next, mem[b].size);
    if p + mem[p].size == b then mem[b := hb][p := Hdr(hb.ptr, mem[p].size + hb.size)]
    else mem[b := hb][p := Hdr(b, mem[p].size)]
  }

  /** Linking without merging. */
  lemma FreeInsert(mem: Mem, ring: seq<nat>, live: map<nat, nat>, cover: map<nat, nat>, base: nat, t: nat, b: nat)
    requires HeapOk(mem, ring, live, cover, base) && b in live && t < |ring|
    requires Before(mem, ring[t], b) && (t + 1 < |ring| ==> Before(mem, b, ring[t + 1]))
    ensures AlmostOk(mem[b := Hdr(Next(ring, t), mem[b].size)][ring[t] := Hdr(b, mem[ring[t]].size)],
                     InsertAt(ring, t, b), live - {b}, cover, base, {t, t + 1})
  {
    hide Partition, AllBlocks, InsertAt, Ring, Before;
    var mem' := mem[b := Hdr(Next(ring, t), mem[b].size)][ring[t] := Hdr(b, mem[ring[t]].size)];
    InsertKeepsRing(mem, ring, base, t, b);
    InsertBlocks(mem, mem', ring, live, base, t, b);
    InsertGaps(mem, mem', ring, t, b);
  }

  /** Merging the pair at i, if it touches, leaves gaps everywhere except in x. */
  lemma FreeMerge(mem: Mem, ring: seq<nat>, live: map<nat, nat>, cover: map<nat, nat>, base: nat, i: nat, x: set<nat>)
    returns (mem': Mem, ring': seq<nat>, cover': map<nat, nat>)
    requires AlmostOk(mem, ring, live, cover, base, x + {i}) && 0 < i && i + 1 < |ring| && (forall j :: j in x ==> j < i)
    ensures AlmostOk(mem', ring', live, cover', base, x) && cover'.Keys == cover.Keys
    ensures Gap(mem, ring, i) ==> mem' == mem && ring' == ring
    ensures !Gap(mem, ring, i) ==>
              && ring' == RemoveAt(ring, i + 1)
              && mem' == mem[ring[i] := Hdr(mem[ring[i + 1]].ptr, mem[ring[i]].size + mem[ring[i + 1]].size)]
  {
    hide Partition, AllBlocks, RemoveAt, LiveOk;
    mem', ring', cover' := mem, ring, cover;
    if !Gap(mem, ring, i) {
      ring' := RemoveAt(ring, i + 1);
      mem' := mem[ring[i] := Hdr(mem[ring[i + 1]].ptr, mem[ring[i]].size + mem[ring[i + 1]].size)];
      MergeKeepsRing(mem, ring, base, i);
      MergeGaps(mem, ring, base, i, x);
      cover' := MergeBlocks(mem, ring, live, cover, base, i);
    }
  }

  /** If the pair at i is no pair, or base cannot touch it, there was nothing to merge. */
  lemma NothingToMerge(mem: Mem, ring: seq<nat>, live: map<nat, nat>, cover: map<nat, nat>, base: nat, i: nat, x: set<nat>)
    requires AlmostOk(mem, ring, live, cover, base, x + {i}) && (i == 0 || i + 1 >= |ring|)
    ensures AlmostOk(mem, ring, live, cover, base, x)
  {
    assert i == 0 && |ring| > 1 ==> Before(mem, ring[0], ring[1]);
  }

  /** free() as a whole: b has become part of a free block that touches no other. */
  lemma FreeKeeps(mem: Mem, ring: seq<nat>, live: map<nat, nat>, cover: map<nat, nat>, base: nat, t: nat, b: nat)
    returns (ring': seq<nat>, cover': map<nat, nat>)
    requires HeapOk(mem, ring, live, cover, base) && b in live && t < |ring|
    requires Before(mem, ring[t], b) && (t + 1 < |ring| ==> Before(mem, b, ring[t + 1]))
    ensures Known(mem, ring) && b in mem
    ensures HeapOk(FreeMem(mem, ring[t], Next(ring, t), b), ring', live - {b}, cover', base)
    ensures cover'.Keys == cover.Keys && ring[t] in ring'
    ensures var m := FreeMem(mem, ring[t], Next(ring, t), b);
            exists f :: f in ring' && f in m && f <= b && b + live[b] <= f + m[f].size
  {
    hide AlmostOk, Known, Before, InsertAt, RemoveAt;
    HeapFacts(mem, ring, live, cover, base, t, b);
    var p, next := ring[t], Next(ring, t);
    var m1 := mem[b := Hdr(next, mem[b].size)][p := Hdr(b, mem[p].size)];
    var r1 := InsertAt(ring, t, b);
    FreeInsert(mem, ring, live, cover, base, t, b);
    InsertedAt(ring, t, b);
    assert {t, t + 1} == {t} + {t + 1} && {t} == {} + {t};
    var m2, r2, c2 := m1, r1, cover;
    if t + 1 < |ring| {
      m2, r2, c2 := FreeMerge(m1, r1, live - {b}, cover, base, t + 1, {t});
      Removed(r1, t + 2);
    } else {
      NothingToMerge(m1, r1, live - {b}, cover, base, t + 1, {t});
    }
    assert |r2| > t + 1 && r2[t] == p && r2[t + 1] == b;
    var m3 := m2;
    ring', cover' := r2, c2;
    if t > 0 {
      m3, ring', cover' := FreeMerge(m2, r2, live - {b}, c2, base, t, {});
      Removed(r2, t + 1);
    } else {
      NothingToMerge(m2, r2, live - {b}, c2, base, 0, {});
    }
    assert ring'[t] == p && (p + mem[p].size != b ==> ring'[t + 1] == b);
    assert m3 == FreeMem(mem, p, next, b);
    var f := if p + mem[p].size == b then p else b;
    assert f in ring' && f in m3 && f <= b && b + live[b] <= f + m3[f].size;
  }

  lemma HeapFacts(mem: Mem, ring: seq<nat>, live: map<nat, nat>, cover: map<nat, nat>, base: nat, t: nat, b: nat)
    requires HeapOk(mem, ring, live, cover, base) && b in live && t < |ring|
    requires Before(mem, ring[t], b) && (t + 1 < |ring| ==> Before(mem, b, ring[t + 1]))
    ensures Known(mem, ring) && b in mem && mem[b].size == live[b] > 0
    ensures ring[t] in mem && Next(ring, t) in mem && ring[t] < b
    ensures b + mem[b].size == Next(ring, t) ==> t + 1 < |ring|
    ensures ring[t] + mem[ring[t]].size == b ==> t > 0
    ensures Next(ring, t) != b && ring[t] != b && (t + 1 < |ring| ==> Next(ring, t) != ring[t])
  {
    LiveMeans(mem, ring, live, base, b);
    assert t + 1 < |ring| ==> Before(mem, ring[t], ring[t + 1]);
  }

  lemma InsertedAt(ring: seq<nat>, t: nat, b: nat)
    requires t < |ring|
    ensures var r := InsertAt(ring, t, b);
            |r| == |ring| + 1 && r[t] == ring[t] && r[t + 1] == b && (t + 1 < |ring| ==> r[t + 2] == ring[t + 1])
  {
  }

  lemma LiveMeans(mem: Mem, ring: seq<nat>, live: map<nat, nat>, base: nat, b: nat)
    requires LiveOk(mem, ring, live, base) && b in live
    ensures b in mem && mem[b].size == live[b] > 0 && b > base && b !in ring
  {
  }

  // ------------------------------------------------------------------- malloc

  /** Exact fit: free block i becomes a live block. */
  lemma TakeKeeps(mem: Mem, ring: seq<nat>, live: map<nat, nat>, cover: map<nat, nat>, base: nat, i: nat)
    requires HeapOk(mem, ring, live, cover, base) && 0 < i < |ring|
    ensures ring[i] in mem && ring[i] !in live && ring[i - 1] in mem && ring[i] != base
    ensures HeapOk(mem[ring[i - 1] := mem[ring[i - 1]].(ptr := mem[ring[i]].ptr)], RemoveAt(ring, i),
                   live[ring[i] := mem[ring[i]].size], cover, base)
  {
    hide Partition, RemoveAt;
    var b := ring[i];
    assert Before(mem, ring[0], b) && Before(mem, ring[i - 1], b);
    var mem' := mem[ring[i - 1] := mem[ring[i - 1]].(ptr := mem[b].ptr)];
    var ring' := RemoveAt(ring, i);
    var live' := live[b := mem[b].size];
    RemoveKeepsRing(mem, ring, base, i);
    RemoveMembers(mem, ring, base, i);
    TakeGaps(mem, mem', ring, base, i);
    assert AllBlocks(mem', ring', live', base) == AllBlocks(mem, ring, live, base);
  }

  lemma TakeGaps(mem: Mem, mem': Mem, ring: seq<nat>, base: nat, i: nat)
    requires Ring(mem, ring, base) && Known(mem, ring) && GapsExcept(mem, ring, {}) && 0 < i < |ring|
    requires mem'.Keys == mem.Keys && forall x :: x in mem ==> mem'[x].size == mem[x].size
    ensures Known(mem', RemoveAt(ring, i)) && GapsExcept(mem', RemoveAt(ring, i), {})
  {
    var ring' := RemoveAt(ring, i);
    assert forall k :: 0 <= k < |ring'| ==> ring'[k] == ring[Skip(i, k)];
    forall k | 0 <= k < |ring'| - 1
      ensures Gap(mem', ring', k)
    {
      if k == i - 1 {
        assert Before(mem, ring[i - 1], ring[i]) && Before(mem, ring[i], ring[i + 1]);
      } else {
        assert Gap(mem, ring, Skip(i, k));
      }
    }
  }

  /** Split: the last n units of free block i become a live block. */
  lemma SplitKeeps(mem: Mem, ring: seq<nat>, live: map<nat, nat>, cover: map<nat, nat>, base: nat, i: nat, n: nat, junk: nat)
    returns (cover': map<nat, nat>)
    requires HeapOk(mem, ring, live, cover, base) && 0 < i < |ring| && ring[i] in mem && 0 < n < mem[ring[i]].size
    ensures cover'.Keys == cover.Keys && ring[i] + mem[ring[i]].size - n !in live
    ensures var p := ring[i];
            var q := p + mem[p].size - n;
            HeapOk(mem[p := mem[p].(size := mem[p].size - n)][q := Hdr(junk, n)], ring, live[q := n], cover', base)
  {
    hide Partition, AllBlocks, LiveOk, Ring, GapsExcept, Before;
    var p := ring[i];
    var q := p + mem[p].size - n;
    var blocks := AllBlocks(mem, ring, live, base);
    FreeBlock(mem, ring, live, base, i);
    cover' := SplitPartition(blocks, cover, p, n);
    NewBlock(mem, ring, live, base, q);
    var mem1 := mem[p := mem[p].(size := mem[p].size - n)];
    var mem' := mem1[q := Hdr(junk, n)];
    ShrinkKeepsRing(mem, ring, base, i, n);
    FreshHeader(mem1, ring, base, q, Hdr(junk, n));
    SplitGaps(mem, mem', ring, base, i, n);
    SplitAllBlocks(mem, mem', ring, live, base, p, q, n, junk);
  }

  lemma FreeBlock(mem: Mem, ring: seq<nat>, live: map<nat, nat>, base: nat, i: nat)
    requires Ring(mem, ring, base) && LiveOk(mem, ring, live, base) && 0 < i < |ring|
    ensures ring[i] in mem && ring[i] > base && ring[i] !in live
    ensures ring[i] in AllBlocks(mem, ring, live, base) && AllBlocks(mem, ring, live, base)[ring[i]] == mem[ring[i]].size
    ensures forall k :: 0 <= k < |ring| && k != i ==> ring[k] != ring[i]
  {
    assert forall k :: 0 <= k < i ==> Before(mem, ring[k], ring[i]);
    assert forall k :: i < k < |ring| ==> Before(mem, ring[i], ring[k]);
  }

  lemma NewBlock(mem: Mem, ring: seq<nat>, live: map<nat, nat>, base: nat, q: nat)
    requires Ring(mem, ring, base) && LiveOk(mem, ring, live, base) && q !in AllBlocks(mem, ring, live, base) && q > base
    ensures q !in live && forall k :: 0 <= k < |ring| ==> ring[k] != q
  {
  }

  lemma SplitAllBlocks(mem: Mem, mem': Mem, ring: seq<nat>, live: map<nat, nat>, base: nat, p: nat, q: nat, n: nat, junk: nat)
    requires LiveOk(mem, ring, live, base) && p in ring && p in mem && p > base && q > base && q !in ring && q !in live
    requires p !in live && p != q && 0 < n < mem[p].size
    requires mem' == mem[p := mem[p].(size := mem[p].size - n)][q := Hdr(junk, n)]
    ensures LiveOk(mem', ring, live[q := n], base)
    ensures AllBlocks(mem', ring, live[q := n], base) == AllBlocks(mem, ring, live, base)[p := mem[p].size - n][q := n]
  {
  }

  lemma FreshHeader(mem: Mem, ring: seq<nat>, base: nat, q: nat, h: Hdr)
    requires Ring(mem, ring, base) && forall k :: 0 <= k < |ring| ==> ring[k] != q
    ensures Ring(mem[q := h], ring, base)
  {
    var mem' := mem[q := h];
    forall i, j | 0 <= i < j < |ring|
      ensures Before(mem', ring[i], ring[j])
    {
      assert Before(mem, ring[i], ring[j]);
    }
  }

  lemma SplitGaps(mem: Mem, mem': Mem, ring: seq<nat>, base: nat, i: nat, n: nat)
    requires Ring(mem, ring, base) && Known(mem, ring) && GapsExcept(mem, ring, {}) && 0 < i < |ring| && n > 0
    requires forall k :: 0 <= k < |ring| ==> ring[k] in mem' && mem'[ring[k]].size <= mem[ring[k]].size
    requires forall k :: 0 <= k < |ring| && k != i ==> mem'[ring[k]].size == mem[ring[k]].size
    ensures Known(mem', ring) && GapsExcept(mem', ring, {})
  {
    forall k | 0 <= k < |ring| - 1
      ensures Gap(mem', ring, k)
    {
      assert Gap(mem, ring, k) && Before(mem, ring[k], ring[k + 1]);
    }
  }

  /** morecore: a fresh region becomes a live block, about to be freed. */
  lemma GrowKeeps(mem: Mem, ring: seq<nat>, live: map<nat, nat>, cover: map<nat, nat>, base: nat, b: nat, n: nat, junk: nat)
    returns (cover': map<nat, nat>)
    requires HeapOk(mem, ring, live, cover, base) && n > 0 && b > base && b !in mem
    requires forall u :: b <= u < b + n ==> u !in cover
    ensures HeapOk(mem[b := Hdr(junk, n)], ring, live[b := n], cover', base) && cover'.Keys == cover.Keys + Units(b, n)
  {
    hide Partition, AllBlocks, LiveOk, Ring, GapsExcept;
    var mem' := mem[b := Hdr(junk, n)];
    GrowAllBlocks(mem, mem', ring, live, base, b, n, junk);
    cover' := GrowPartition(AllBlocks(mem, ring, live, base), cover, b, n);
    FreshHeader(mem, ring, base, b, Hdr(junk, n));
    SameGaps(mem, mem', ring);
  }

  lemma GrowAllBlocks(mem: Mem, mem': Mem, ring: seq<nat>, live: map<nat, nat>, base: nat, b: nat, n: nat, junk: nat)
    requires LiveOk(mem, ring, live, base) && Known(mem, ring) && b !in mem && b > base && n > 0
    requires mem' == mem[b := Hdr(junk, n)]
    ensures LiveOk(mem', ring, live[b := n], base) && b !in AllBlocks(mem, ring, live, base)
    ensures AllBlocks(mem', ring, live[b := n], base) == AllBlocks(mem, ring, live, base)[b := n]
  {
    assert b !in ring;
  }

  lemma SameGaps(mem: Mem, mem': Mem, ring: seq<nat>)
    requires Known(mem, ring) && GapsExcept(mem, ring, {})
    requires forall k :: 0 <= k < |ring| ==> ring[k] in mem' && mem'[ring[k]] == mem[ring[k]]
    ensures Known(mem', ring) && GapsExcept(mem', ring, {})
  {
    forall k | 0 <= k < |ring| - 1
      ensures Gap(mem', ring, k)
    {
      assert Gap(mem, ring, k);
    }
  }
}
