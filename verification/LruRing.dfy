/** The doubly linked ring of bio.c: nodes 0 .. n - 1 are the buffers, node n is
    bcache.head, and ring lists the buffers from head.next on. */
module LruRing {

  datatype Node = Node(prev: nat, next: nat)

  /** The k-th node on a walk along next that starts and ends at the head. */
  function Walk(ring: seq<nat>, n: nat, k: nat): nat {
    if 1 <= k <= |ring| then ring[k - 1] else n
  }

  ghost predicate Distinct(ring: seq<nat>) {
    forall i, j :: 0 <= i < j < |ring| ==> ring[i] != ring[j]
  }

  ghost predicate Nodes(ring: seq<nat>, n: nat) {
    Distinct(ring) && forall i :: 0 <= i < |ring| ==> ring[i] < n
  }

  /** Following next visits ring in order, following prev visits it backwards. */
  ghost predicate Linked(links: seq<Node>, ring: seq<nat>, n: nat) {
    && |links| == n + 1 && Nodes(ring, n)
    && (forall k {:trigger Walk(ring, n, k)} :: 0 <= k <= |ring| ==>
          links[Walk(ring, n, k)].next == Walk(ring, n, k + 1) && links[Walk(ring, n, k + 1)].prev == Walk(ring, n, k))
  }

  /** One step along prev, and one along next. */
  lemma Back(links: seq<Node>, ring: seq<nat>, n: nat, k: nat)
    requires Linked(links, ring, n) && 1 <= k <= |ring| + 1
    ensures |links| == n + 1 && Nodes(ring, n) && Walk(ring, n, k) <= n && Walk(ring, n, k - 1) <= n
    ensures links[Walk(ring, n, k)].prev == Walk(ring, n, k - 1)
  {
    assert links[Walk(ring, n, k - 1)].next == Walk(ring, n, k);
  }

  lemma Ahead(links: seq<Node>, ring: seq<nat>, n: nat, k: nat)
    requires Linked(links, ring, n) && k <= |ring|
    ensures |links| == n + 1 && Nodes(ring, n) && Walk(ring, n, k) <= n && Walk(ring, n, k + 1) <= n
    ensures links[Walk(ring, n, k)].next == Walk(ring, n, k + 1)
  {
  }

  function SetNext(links: seq<Node>, i: nat, x: nat): seq<Node>
    requires i < |links|
  {
    links[i := links[i].(next := x)]
  }

  function SetPrev(links: seq<Node>, i: nat, x: nat): seq<Node>
    requires i < |links|
  {
    links[i := links[i].(prev := x)]
  }

  function Without(ring: seq<nat>, k: nat): seq<nat>
    requires k < |ring|
  {
    ring[..k] + ring[k + 1..]
  }

  /** b->next->prev = b->prev; b->prev->next = b->next. */
  lemma UnlinkKeeps(links: seq<Node>, ring: seq<nat>, n: nat, k: nat)
    requires Linked(links, ring, n) && k < |ring|
    ensures var b := links[ring[k]];
            && b.next <= n && b.prev <= n
            && Linked(SetNext(SetPrev(links, b.next, b.prev), b.prev, b.next), Without(ring, k), n)
  {
    var ring' := Without(ring, k);
    assert Walk(ring, n, k + 1) == ring[k];
    assert links[Walk(ring, n, k)].next == Walk(ring, n, k + 1);
    var p, q := Walk(ring, n, k), Walk(ring, n, k + 2);
    assert links[ring[k]] == Node(p, q);
    var links' := SetNext(SetPrev(links, q, p), p, q);
    forall j: nat {:trigger Walk(ring', n, j)} | j <= |ring'|
      ensures links'[Walk(ring', n, j)].next == Walk(ring', n, j + 1)
      ensures links'[Walk(ring', n, j + 1)].prev == Walk(ring', n, j)
    {
      UnlinkOne(links, ring, n, k, j);
    }
  }

  lemma UnlinkOne(links: seq<Node>, ring: seq<nat>, n: nat, k: nat, j: nat)
    requires Linked(links, ring, n) && k < |ring| && j < |ring|
    ensures var p, q, ring' := Walk(ring, n, k), Walk(ring, n, k + 2), Without(ring, k);
            p <= n && q <= n && Walk(ring', n, j) <= n && Walk(ring', n, j + 1) <= n
    ensures var p, q, ring' := Walk(ring, n, k), Walk(ring, n, k + 2), Without(ring, k);
            var links' := SetNext(SetPrev(links, q, p), p, q);
            links'[Walk(ring', n, j)].next == Walk(ring', n, j + 1) && links'[Walk(ring', n, j + 1)].prev == Walk(ring', n, j)
  {
    WalkWithout(ring, n, k, j);
    WalkWithout(ring, n, k, j + 1);
    hide Without;
    WalkDistinct(ring, n);
    assert links[Walk(ring, n, j)].next == Walk(ring, n, j + 1);
    assert links[Walk(ring, n, j + 1)].next == Walk(ring, n, j + 2);
  }

  lemma WalkWithout(ring: seq<nat>, n: nat, k: nat, j: nat)
    requires k < |ring|
    ensures Walk(Without(ring, k), n, j) == Walk(ring, n, if j <= k then j else j + 1)
  {
  }

  lemma WalkDistinct(ring: seq<nat>, n: nat)
    requires Nodes(ring, n)
    ensures forall i, j {:trigger Walk(ring, n, i), Walk(ring, n, j)} ::
              0 <= i <= |ring| && 0 <= j <= |ring| && Walk(ring, n, i) == Walk(ring, n, j) ==> i == j
  {
  }

  /** b->next = head.next; b->prev = &head; head.next->prev = b; head.next = b. */
  function PushFront(links: seq<Node>, n: nat, b: nat): seq<Node>
    requires |links| == n + 1 && b < n && links[n].next <= n
  {
    var first := links[n].next;
    SetNext(SetPrev(SetPrev(SetNext(links, b, first), b, n), first, b), n, b)
  }

  lemma PushFrontKeeps(links: seq<Node>, ring: seq<nat>, n: nat, b: nat)
    requires Linked(links, ring, n) && b < n && b !in ring
    ensures links[n].next <= n && Linked(PushFront(links, n, b), [b] + ring, n)
  {
    assert links[Walk(ring, n, 0)].next == Walk(ring, n, 1);
    var links', ring' := PushFront(links, n, b), [b] + ring;
    forall j {:trigger Walk(ring', n, j)} | 0 <= j <= |ring'|
      ensures links'[Walk(ring', n, j)].next == Walk(ring', n, j + 1)
      ensures links'[Walk(ring', n, j + 1)].prev == Walk(ring', n, j)
    {
      WalkDistinct(ring, n);
      assert j > 0 ==> Walk(ring', n, j) == if j == 1 then b else Walk(ring, n, j - 1);
      assert Walk(ring', n, j + 1) == if j == 0 then b else Walk(ring, n, j);
      assert j >= 1 ==> links[Walk(ring, n, j - 1)].next == Walk(ring, n, j);
    }
  }
}
