/** Choosing a page to swap out (proc.c): the process with the largest rss, its first
    page that was not accessed, and the accessed bits that are cleared if it has none. */
module Victim {
  import opened VmModel

  const NPROC: nat := 64

  /** rss is whatever the accounting made of it: nothing is claimed about its value. */
  datatype Proc = Proc(used: bool, pid: nat, rss: nat, sz: nat)

  function NPages(sz: nat): nat { (sz + PGSIZE - 1) / PGSIZE }

  /** v is at least as good a victim as q: more memory, or as much and an older pid. */
  predicate Beats(v: Proc, q: Proc) {
    v.rss > q.rss || (v.rss == q.rss && v.pid <= q.pid)
  }

  /** get_victim_process: a process of maximal rss and, among those, of lowest pid. */
  method GetVictimProcess(procs: seq<Proc>) returns (v: nat)
    requires |procs| == NPROC
    ensures v < NPROC && forall q :: 0 <= q < NPROC ==> Beats(procs[v], procs[q])
  {
    var maxRss := 0;
    var best := -1;
    var p := 0;
    while p < NPROC
      invariant 0 <= p <= NPROC && -1 <= best < p
      invariant best == -1 ==> p == 0
      invariant best >= 0 ==> maxRss == procs[best].rss
      invariant best == -1 ==> maxRss == 0
      invariant best >= 0 ==> forall q :: 0 <= q < p ==> Beats(procs[best], procs[q])
    {
      if procs[p].rss > maxRss {
        maxRss := procs[p].rss;
        best := p;
      } else if procs[p].rss == maxRss {
        if best == -1 {
          best := p;
        } else if procs[p].pid < procs[best].pid {
          best := p;
        }
      }
      p := p + 1;
    }
    v := best;
  }

  /** All pages of process v below its size have an entry. */
  ghost predicate Mapped(ptes: map<Va, Pte>, v: nat, n: nat) {
    forall i: nat :: i < n ==> Va(v, i) in ptes
  }

  predicate Candidate(e: Pte) { e.fl.p && e.fl.u && !e.fl.a }
  predicate Accessed(e: Pte) { e.fl.p && e.fl.u && e.fl.a }

  /** get_victim_page: the first present user page that was not accessed, if any. */
  method GetVictimPage(ptes: map<Va, Pte>, v: nat, n: nat) returns (found: bool, page: nat)
    requires Mapped(ptes, v, n)
    ensures found ==> page < n && Candidate(ptes[Va(v, page)]) && forall j: nat :: j < page ==> !Candidate(ptes[Va(v, j)])
    ensures !found ==> forall j: nat :: j < n ==> !Candidate(ptes[Va(v, j)])
  {
    var i := 0;
    while i < n
      invariant 0 <= i <= n
      invariant forall j: nat :: j < i ==> !Candidate(ptes[Va(v, j)])
    {
      if Candidate(ptes[Va(v, i)]) {
        return true, i;
      }
      i := i + 1;
    }
    return false, 0;
  }

  /** How many of the first n pages of v were accessed. */
  ghost function CountAccessed(ptes: map<Va, Pte>, v: nat, n: nat): nat
    requires Mapped(ptes, v, n)
  {
    if n == 0 then 0 else CountAccessed(ptes, v, n - 1) + if Accessed(ptes[Va(v, n - 1)]) then 1 else 0
  }

  /** What flush_table makes of page i of v: of the accessed pages, the first, the
      eleventh and so on are forgotten. */
  ghost function FlushedEntry(ptes: map<Va, Pte>, v: nat, i: nat): Pte
    requires Mapped(ptes, v, i + 1)
  {
    var e := ptes[Va(v, i)];
    if Accessed(e) && CountAccessed(ptes, v, i) % 10 == 0 then Aged(e) else e
  }

  /** ptes' is ptes with every tenth accessed page of v, from the first on, forgotten. */
  ghost predicate Flushed(ptes: map<Va, Pte>, ptes': map<Va, Pte>, v: nat, n: nat)
    requires Mapped(ptes, v, n)
  {
    && ptes'.Keys == ptes.Keys
    && (forall k :: k in ptes && !(k.proc == v && k.vpn < n) ==> ptes'[k] == ptes[k])
    && (forall i: nat :: i < n ==> ptes'[Va(v, i)] == FlushedEntry(ptes, v, i))
  }

  lemma {:induction false} CountNext(ptes: map<Va, Pte>, v: nat, n: nat)
    requires Mapped(ptes, v, n)
    ensures CountAccessed(ptes, v, 0) == 0
    ensures n > 0 ==>
              var e, c := ptes[Va(v, n - 1)], CountAccessed(ptes, v, n - 1);
              && CountAccessed(ptes, v, n) == c + (if Accessed(e) then 1 else 0)
              && FlushedEntry(ptes, v, n - 1) == (if Accessed(e) && c % 10 == 0 then Aged(e) else e)
  {
  }

  /** flush_table. */
  method FlushTable(ptes: map<Va, Pte>, v: nat, n: nat) returns (ptes': map<Va, Pte>)
    requires Mapped(ptes, v, n)
    ensures Flushed(ptes, ptes', v, n)
  {
    hide CountAccessed, FlushedEntry;
    ptes' := ptes;
    CountNext(ptes, v, n);
    var ctr, i := 0, 0;
    while i < n
      invariant 0 <= i <= n
      invariant ctr == CountAccessed(ptes, v, i) % 10
      invariant Flushed(ptes, ptes', v, i)
    {
      var k := Va(v, i);
      assert ptes'[k] == ptes[k];
      CountNext(ptes, v, i + 1);
      if Accessed(ptes'[k]) {
        if ctr == 0 {
          ptes' := ptes'[k := Aged(ptes'[k])];
        }
        ctr := (ctr + 1) % 10;
      }
      i := i + 1;
    }
  }

  /** flush_table clears the accessed bit of exactly ceil(k / 10) of k accessed pages. */
  lemma {:induction false} FlushClears(ptes: map<Va, Pte>, ptes': map<Va, Pte>, v: nat, n: nat)
    requires Mapped(ptes, v, n) && Mapped(ptes', v, n) && Flushed(ptes, ptes', v, n)
    ensures |ClearedPages(ptes, ptes', v, n)| == (CountAccessed(ptes, v, n) + 9) / 10
  {
    CountCleared(ptes, ptes', v, n);
  }

  lemma {:induction false} CountCleared(ptes: map<Va, Pte>, ptes': map<Va, Pte>, v: nat, n: nat)
    requires Mapped(ptes, v, n) && Mapped(ptes', v, n)
    requires forall i: nat :: i < n ==> ptes'[Va(v, i)] == FlushedEntry(ptes, v, i)
    ensures |ClearedPages(ptes, ptes', v, n)| == (CountAccessed(ptes, v, n) + 9) / 10
  {
    if n > 0 {
      var m := n - 1;
      var c, k := ClearedPages(ptes, ptes', v, m), Va(v, m);
      CountCleared(ptes, ptes', v, m);
      if Accessed(ptes[k]) && CountAccessed(ptes, v, m) % 10 == 0 {
        assert ClearedPages(ptes, ptes', v, n) == c + {m};
      } else {
        assert ClearedPages(ptes, ptes', v, n) == c;
      }
    }
  }

  ghost function ClearedPages(ptes: map<Va, Pte>, ptes': map<Va, Pte>, v: nat, n: nat): set<nat>
    requires Mapped(ptes, v, n) && Mapped(ptes', v, n)
  {
    set i: nat | i < n && ptes'[Va(v, i)] != ptes[Va(v, i)]
  }

  /** If any present user page exists, a page is found, at the latest after the flush. */
  lemma {:induction false} FlushMakesCandidate(ptes: map<Va, Pte>, ptes': map<Va, Pte>, v: nat, n: nat, j: nat)
    requires Mapped(ptes, v, n) && Flushed(ptes, ptes', v, n)
    requires forall i: nat :: i < n ==> !Candidate(ptes[Va(v, i)])
    requires j < n && ptes[Va(v, j)].fl.p && ptes[Va(v, j)].fl.u
    ensures exists i: nat :: i < n && Candidate(ptes'[Va(v, i)])
  {
    FirstAccessed(ptes, v, j);
    var i: nat :| i <= j && Accessed(ptes[Va(v, i)]) && CountAccessed(ptes, v, i) == 0;
    assert Candidate(ptes'[Va(v, i)]);
  }

  lemma {:induction false} FirstAccessed(ptes: map<Va, Pte>, v: nat, j: nat)
    requires Mapped(ptes, v, j + 1) && Accessed(ptes[Va(v, j)])
    ensures exists i: nat :: i <= j && Accessed(ptes[Va(v, i)]) && CountAccessed(ptes, v, i) == 0
  {
    if i: nat :| i < j && Accessed(ptes[Va(v, i)]) {
      FirstAccessed(ptes, v, i);
    } else {
      NoneAccessed(ptes, v, j);
    }
  }

  lemma {:induction false} NoneAccessed(ptes: map<Va, Pte>, v: nat, n: nat)
    requires Mapped(ptes, v, n) && forall i: nat :: i < n ==> !Accessed(ptes[Va(v, i)])
    ensures CountAccessed(ptes, v, n) == 0
  {
    if n > 0 {
      NoneAccessed(ptes, v, n - 1);
    }
  }

  ghost predicate UserPage(ptes: map<Va, Pte>, k: Va) {
    k in ptes && ptes[k].fl.p && ptes[k].fl.u
  }

  ghost predicate HasUserPage(ptes: map<Va, Pte>, v: nat, n: nat) {
    exists i: nat :: i < n && UserPage(ptes, Va(v, i))
  }

  /** final_page once the process is chosen: a page is found exactly when the process has a
      present user page at all, flushing the accessed bits only if that is necessary. */
  method ChoosePage(ptes: map<Va, Pte>, v: nat, n: nat) returns (ptes': map<Va, Pte>, found: bool, page: nat)
    requires Mapped(ptes, v, n)
    ensures ptes' == ptes || Flushed(ptes, ptes', v, n)
    ensures found <==> HasUserPage(ptes, v, n)
    ensures found ==> page < n && Va(v, page) in ptes' && Candidate(ptes'[Va(v, page)])
  {
    hide CountAccessed;
    ptes' := ptes;
    found, page := GetVictimPage(ptes, v, n);
    assert found ==> UserPage(ptes, Va(v, page));
    if !found {
      ptes' := FlushTable(ptes, v, n);
      FlushExposes(ptes, ptes', v, n);
      found, page := GetVictimPage(ptes', v, n);
    }
  }

  /** With no candidate left, a flush yields one exactly when there is a user page at all. */
  lemma {:induction false} FlushExposes(ptes: map<Va, Pte>, ptes': map<Va, Pte>, v: nat, n: nat)
    requires Mapped(ptes, v, n) && Flushed(ptes, ptes', v, n)
    requires forall i: nat :: i < n ==> !Candidate(ptes[Va(v, i)])
    ensures HasUserPage(ptes, v, n) <==> exists i: nat :: i < n && Candidate(ptes'[Va(v, i)])
  {
    hide CountAccessed;
    if j: nat :| j < n && UserPage(ptes, Va(v, j)) {
      FlushMakesCandidate(ptes, ptes', v, n, j);
    }
    if i: nat :| i < n && Candidate(ptes'[Va(v, i)]) {
      FlushedKeepsUser(ptes, ptes', v, n, i);
      assert UserPage(ptes, Va(v, i));
    }
  }

  lemma FlushedKeepsUser(ptes: map<Va, Pte>, ptes': map<Va, Pte>, v: nat, n: nat, i: nat)
    requires Mapped(ptes, v, n) && Flushed(ptes, ptes', v, n) && i < n
    ensures ptes'[Va(v, i)].fl.p == ptes[Va(v, i)].fl.p && ptes'[Va(v, i)].fl.u == ptes[Va(v, i)].fl.u
  {
    hide CountAccessed;
    assert ptes'[Va(v, i)] == FlushedEntry(ptes, v, i);
  }
}
