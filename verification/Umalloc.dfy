/** umalloc.c: Kernighan and Ritchie's allocator (The C Programming Language, second
    edition, section 8.7), a circular free list in address order. */
module Umalloc {
  import opened HeapModel

  const MINUNITS: nat := 4096
  const UNIT: nat := 8            // sizeof(Header)
  const WORD: nat := 0x1_0000_0000

  datatype Option<T> = None | Some(value: T)

  /** nunits in malloc, in 32-bit arithmetic. */
  function Nunits(nbytes: nat): (n: nat)
    requires nbytes < WORD
    ensures n >= 1
  {
    (nbytes + UNIT - 1) % WORD / UNIT + 1
  }

  /** A block of Nunits(nbytes) units holds its header and nbytes bytes, exactly when the
      rounding up does not overflow. */
  lemma NunitsSuffice(nbytes: nat)
    requires nbytes < WORD
    ensures (Nunits(nbytes) - 1) * UNIT >= nbytes <==> nbytes <= WORD - UNIT
  {
  }

  /** What sbrk(nu * sizeof(Header)) is asked for, as a signed 32-bit integer. */
  function SbrkRequest(nu: nat): int {
    var bytes := nu * UNIT % WORD;
    if bytes < 0x8000_0000 then bytes else bytes - WORD
  }

  /** The request is what was meant exactly for fewer than 2^28 units; just above, it is
      negative and sbrk would shrink the process. */
  lemma SbrkRequestExact(nu: nat)
    ensures SbrkRequest(nu) == nu * UNIT <==> nu < 0x1000_0000
  {
  }

  function Max(a: nat, b: nat): nat { if a < b then b else a }

  class Heap {
    const base: nat                  // &base
    var mem: Mem                     // the headers
    var freep: nat                   // 0 before the first malloc
    var brk: nat                     // the end of the memory obtained so far
    ghost var ring: seq<nat>
    ghost var live: map<nat, nat>
    ghost var cover: map<nat, nat>   // its keys are the units obtained from sbrk

    ghost predicate Valid()
      reads this
    {
      && 0 < base < brk && (forall u :: u in cover ==> u < brk) && (forall b :: b in mem ==> b < brk)
      && (freep == 0 ==> live == map[] && cover == map[] && mem == map[])
      && (freep != 0 ==> HeapOk(mem, ring, live, cover, base) && freep in ring)
    }

    constructor (base: nat, brk: nat)
      requires 0 < base < brk
      ensures Valid() && live == map[] && cover == map[] && this.base == base && this.brk == brk
    {
      this.base := base;
      this.brk := brk;
      mem, freep := map[], 0;
      ring, live, cover := [], map[], map[];
    }

    /** The search loop of free(): it stops, and at the free block that bp goes behind. */
    method Search(bp: nat, ghost t: nat) returns (p: nat)
      requires HeapOk(mem, ring, live, cover, base) && freep in ring && t < |ring|
      requires forall i :: 0 <= i < |ring| ==> (ring[i] < bp <==> i <= t) && ring[i] != bp
      ensures p == ring[t] && p in mem && mem[p].ptr == Next(ring, t)
    {
      hide Partition, AllBlocks, GapsExcept, LiveOk;
      p := freep;
      ghost var i :| 0 <= i < |ring| && ring[i] == p;
      while true
        invariant 0 <= i < |ring| && p == ring[i] && p in mem
        decreases if i <= t then t - i else |ring| - i + t
      {
        var next := mem[p].ptr;
        assert next == Next(ring, i) && (i + 1 < |ring| ==> Before(mem, p, next));
        assert i > 0 ==> Before(mem, ring[0], p);
        if bp > p && bp < next {
          assert i == t;
          return;
        }
        if p >= next && (bp > p || bp < next) {
          assert i == t;
          return;
        }
        p := next;
        i := if i + 1 < |ring| then i + 1 else 0;
      }
    }

    /** free of the block whose header is at bp: it leaves the live blocks and becomes part of
        a free block, merged with the free neighbours it touches. */
    method Free(bp: nat)
      requires Valid() && bp in live
      modifies this`mem, this`freep, this`ring, this`live, this`cover
      ensures Valid() && freep != 0 && live == old(live) - {bp} && cover.Keys == old(cover).Keys
      ensures exists f :: f in ring && f in mem && f <= bp && bp + old(live)[bp] <= f + mem[f].size
    {
      hide AlmostOk, FreeMem, Before;
      ghost var t := FindPlace(mem, ring, live, cover, base, bp);
      HeapFacts(mem, ring, live, cover, base, t, bp);
      var p := Search(bp, t);
      ghost var ring', cover' := FreeKeeps(mem, ring, live, cover, base, t, bp);
      LinkAndMerge(p, bp);
      ring, cover, live := ring', cover', live - {bp};
      freep := p;
      PositiveRing(mem, ring, live, cover, base, p);
    }

    /** What free() does to the links between p and its successor. */
    method LinkAndMerge(p: nat, bp: nat)
      requires p in mem && bp in mem && p != bp && mem[p].ptr in mem && mem[p].ptr != bp
      modifies this`mem
      ensures mem == FreeMem(old(mem), p, old(mem)[p].ptr, bp) && mem.Keys == old(mem).Keys
    {
      var next := mem[p].ptr;
      if bp + mem[bp].size == next {
        mem := mem[bp := mem[bp].(size := mem[bp].size + mem[next].size)];
        mem := mem[bp := mem[bp].(ptr := mem[next].ptr)];
      } else {
        mem := mem[bp := mem[bp].(ptr := next)];
      }
      if p + mem[p].size == bp {
        mem := mem[p := mem[p].(size := mem[p].size + mem[bp].size)];
        mem := mem[p := mem[p].(ptr := mem[bp].ptr)];
      } else {
        mem := mem[p := mem[p].(ptr := bp)];
      }
    }

    /** morecore: at least nu units from sbrk, freed into the ring. grant is what sbrk
        answers: the start of a fresh region, or nothing. */
    method Morecore(nu: nat, grant: Option<nat>) returns (ok: bool)
      requires Valid() && freep != 0 && nu >= 1
      requires grant.Some? ==> grant.value >= brk && SbrkRequest(Max(nu, MINUNITS)) == Max(nu, MINUNITS) * UNIT
      modifies this`mem, this`freep, this`brk, this`ring, this`live, this`cover
      ensures Valid() && freep != 0 && live == old(live) && ok == grant.Some?
      ensures ok ==> cover.Keys == old(cover).Keys + Units(grant.value, Max(nu, MINUNITS))
      ensures ok ==> exists f :: f in ring && f in mem && mem[f].size >= nu
      ensures !ok ==> cover == old(cover)
    {
      hide AlmostOk;
      if grant.None? {
        return false;
      }
      var hp, n := grant.value, Max(nu, MINUNITS);
      ghost var cover' := GrowKeeps(mem, ring, live, cover, base, hp, n, 0);
      mem := mem[hp := Hdr(0, n)];
      brk := hp + n;
      live, cover := live[hp := n], cover';
      Free(hp);
      assert live == old(live) by {
        LiveKnown(old(mem), old(ring), old(live), old(cover), base, hp);
      }
      return true;
    }

    /** The first call of malloc makes base a ring of its own. */
    method Init()
      requires Valid() && freep == 0
      modifies this`mem, this`freep, this`ring
      ensures Valid() && freep == base && live == old(live) && cover == old(cover) && brk == old(brk)
      ensures ring == [base] && mem == map[base := Hdr(base, 0)]
    {
      mem := map[base := Hdr(base, 0)];
      freep := base;
      ring := [base];
      assert AllBlocks(mem, ring, live, base) == map[];
      assert HeapOk(mem, ring, live, cover, base);
    }

    /** The end of malloc: free block p, whole or its tail, becomes live. */
    method Take(prevp: nat, p: nat, n: nat, ghost i: nat) returns (r: nat)
      requires Valid() && freep != 0 && 0 < i < |ring| && p == ring[i] && prevp == ring[i - 1]
      requires p in mem && mem[p].size >= n >= 1
      modifies this`mem, this`freep, this`ring, this`live, this`cover
      ensures Valid() && freep != 0 && r !in old(live) && live == old(live)[r := n] && cover.Keys == old(cover).Keys
    {
      hide AlmostOk;
      if mem[p].size == n {
        TakeKeeps(mem, ring, live, cover, base, i);
        StillMember(ring, i);
        mem := mem[prevp := mem[prevp].(ptr := mem[p].ptr)];
        r := p;
        ring := RemoveAt(ring, i);
        live := live[p := n];
      } else {
        ghost var cover' := SplitKeeps(mem, ring, live, cover, base, i, n, 0);
        BelowBreak(mem, ring, live, cover, base, i, brk);
        mem := mem[p := mem[p].(size := mem[p].size - n)];
        r := p + mem[p].size;
        mem := mem[r := Hdr(0, n)];
        live, cover := live[r := n], cover';
      }
      freep := prevp;
      PositiveRing(mem, ring, live, cover, base, prevp);
    }

    /** malloc: a block that was not live, of exactly the units asked for, or nothing if the
        ring has none big enough and sbrk refuses. One morecore is always enough. */
    method Malloc(nbytes: nat, grant: Option<nat>) returns (r: Option<nat>)
      requires Valid() && nbytes < WORD
      requires grant.Some? ==> grant.value >= brk
                               && SbrkRequest(Max(Nunits(nbytes), MINUNITS)) == Max(Nunits(nbytes), MINUNITS) * UNIT
      modifies this`mem, this`freep, this`brk, this`ring, this`live, this`cover
      ensures Valid() && freep != 0
      ensures r.Some? ==> r.value !in old(live) && live == old(live)[r.value := Nunits(nbytes)]
      ensures r.None? <==> grant.None? && !SomeFits(old(mem), old(ring), Nunits(nbytes))
      ensures r.None? ==> live == old(live) && cover == old(cover)
      ensures cover.Keys == if SomeFits(old(mem), old(ring), Nunits(nbytes)) || grant.None? then old(cover).Keys
                            else old(cover).Keys + Units(grant.value, Max(Nunits(nbytes), MINUNITS))
    {
      hide AlmostOk, Nunits, SbrkRequest;
      var nunits := Nunits(nbytes);
      ghost var fits := SomeFits(mem, ring, nunits);
      if freep == 0 {
        Init();
      }
      ghost var fi: nat := IndexOf(ring, freep);
      RingStep(mem, ring, live, cover, base, fi);
      var prevp := freep;
      var p := mem[prevp].ptr;
      ghost var i: nat := After(ring, fi);
      ghost var grown := false;
      while true
        invariant Valid() && freep != 0 && live == old(live)
        invariant fi < |ring| && ring[fi] == freep && i < |ring| && ring[i] == p && prevp == ring[PrevIndex(ring, i)]
        invariant Known(mem, ring) && NoneFits(mem, ring, fi, i, nunits)
        invariant if grown then SomeFits(mem, ring, nunits) && !fits else SomeFits(mem, ring, nunits) == fits
        invariant !grown ==> brk == old(brk) && cover == old(cover)
        invariant grown ==> grant.Some? && cover.Keys == old(cover).Keys + Units(grant.value, Max(nunits, MINUNITS))
        decreases !grown, if i > fi then |ring| - i + fi + 1 else fi - i
      {
        if mem[p].size >= nunits {
          FitsBehindBase(mem, ring, live, cover, base, i, nunits);
          var b := Take(prevp, p, nunits, i);
          return Some(b);
        }
        RingStep(mem, ring, live, cover, base, i);
        if p == freep {
          FullLap(mem, ring, live, cover, base, fi, i, nunits);
          var ok := Morecore(nunits, grant);
          if !ok {
            return None;
          }
          p := freep;
          fi := IndexOf(ring, p);
          i := fi;
          grown := true;
          RingStep(mem, ring, live, cover, base, i);
        }
        VisitNext(mem, ring, live, cover, base, fi, i, nunits);
        prevp := p;
        p := mem[p].ptr;
        i := After(ring, i);
      }
    }
  }

  // ------------------------------------------------------- walking the ring

  ghost function IndexOf(ring: seq<nat>, p: nat): (i: nat)
    requires p in ring
    ensures i < |ring| && ring[i] == p
  {
    var i: nat :| i < |ring| && ring[i] == p;
    i
  }

  function After(ring: seq<nat>, i: nat): nat { if i + 1 < |ring| then i + 1 else 0 }

  function PrevIndex(ring: seq<nat>, i: nat): (j: nat)
    requires ring != []
    ensures i < |ring| ==> j < |ring|
  {
    if i == 0 then |ring| - 1 else i - 1
  }

  /** Index j lies strictly between fi and i, going round. */
  predicate Visited(fi: nat, i: nat, j: nat) {
    if i > fi then fi < j < i else j > fi || j < i
  }

  ghost predicate NoneFits(mem: Mem, ring: seq<nat>, fi: nat, i: nat, n: nat)
    requires Known(mem, ring)
  {
    forall j: nat :: j < |ring| && Visited(fi, i, j) ==> mem[ring[j]].size < n
  }

  ghost predicate SomeFits(mem: Mem, ring: seq<nat>, n: nat) {
    exists f :: f in ring && f in mem && mem[f].size >= n
  }

  /** The successor in memory is the successor on the ring; elements are distinct. */
  lemma RingStep(mem: Mem, ring: seq<nat>, live: map<nat, nat>, cover: map<nat, nat>, base: nat, i: nat)
    requires HeapOk(mem, ring, live, cover, base) && i < |ring|
    ensures Known(mem, ring) && ring[i] in mem && mem[ring[i]].ptr == ring[After(ring, i)] && After(ring, i) < |ring|
    ensures PrevIndex(ring, After(ring, i)) == i
    ensures forall j :: 0 <= j < |ring| && ring[j] == ring[i] ==> j == i
    ensures NoneFits(mem, ring, i, After(ring, i), 0)
  {
    assert forall j :: 0 <= j < i ==> Before(mem, ring[j], ring[i]);
    assert forall j :: i < j < |ring| ==> Before(mem, ring[i], ring[j]);
  }

  /** A block that fits is not base, so it has a predecessor below it. */
  lemma FitsBehindBase(mem: Mem, ring: seq<nat>, live: map<nat, nat>, cover: map<nat, nat>, base: nat, i: nat, n: nat)
    requires HeapOk(mem, ring, live, cover, base) && i < |ring| && ring[i] in mem && mem[ring[i]].size >= n >= 1
    ensures i > 0
  {
  }

  /** Back at freep without a fit: nothing on the ring fits. */
  lemma FullLap(mem: Mem, ring: seq<nat>, live: map<nat, nat>, cover: map<nat, nat>, base: nat, fi: nat, i: nat, n: nat)
    requires HeapOk(mem, ring, live, cover, base) && fi < |ring| && i < |ring| && ring[fi] == ring[i]
    requires Known(mem, ring) && NoneFits(mem, ring, fi, i, n) && mem[ring[i]].size < n
    ensures i == fi && !SomeFits(mem, ring, n)
  {
    RingStep(mem, ring, live, cover, base, i);
    forall f | f in ring
      ensures f in mem && mem[f].size < n
    {
      var j: nat :| j < |ring| && ring[j] == f;
      assert j == i || Visited(fi, i, j);
    }
  }

  lemma VisitNext(mem: Mem, ring: seq<nat>, live: map<nat, nat>, cover: map<nat, nat>, base: nat, fi: nat, i: nat, n: nat)
    requires HeapOk(mem, ring, live, cover, base) && fi < |ring| && i < |ring| && Known(mem, ring)
    requires i == fi || (NoneFits(mem, ring, fi, i, n) && mem[ring[i]].size < n)
    ensures NoneFits(mem, ring, fi, After(ring, i), n)
  {
  }

  lemma LiveKnown(mem: Mem, ring: seq<nat>, live: map<nat, nat>, cover: map<nat, nat>, base: nat, b: nat)
    requires HeapOk(mem, ring, live, cover, base) && b !in mem
    ensures b !in live
  {
  }

  lemma StillMember(ring: seq<nat>, i: nat)
    requires 0 < i < |ring|
    ensures ring[i - 1] in RemoveAt(ring, i)
  {
    assert RemoveAt(ring, i)[i - 1] == ring[i - 1];
  }

  lemma BelowBreak(mem: Mem, ring: seq<nat>, live: map<nat, nat>, cover: map<nat, nat>, base: nat, i: nat, brk: nat)
    requires HeapOk(mem, ring, live, cover, base) && 0 < i < |ring| && ring[i] in mem && forall u :: u in cover ==> u < brk
    ensures mem[ring[i]].size > 0 ==> ring[i] + mem[ring[i]].size - 1 < brk
  {
    var blocks := AllBlocks(mem, ring, live, base);
    assert Before(mem, ring[0], ring[i]);
    assert mem[ring[i]].size > 0 ==> Inside(blocks, ring[i], ring[i] + mem[ring[i]].size - 1);
  }

  lemma PositiveRing(mem: Mem, ring: seq<nat>, live: map<nat, nat>, cover: map<nat, nat>, base: nat, p: nat)
    requires HeapOk(mem, ring, live, cover, base) && p in ring && base > 0
    ensures p > 0
  {
    var i :| 0 <= i < |ring| && ring[i] == p;
    assert i > 0 ==> Before(mem, ring[0], ring[i]);
  }
}
