/** Runs of the VRAM pool: any sequence of allocations and of releases of live chunks
    (source/arm11/allocator/mem_pool.cpp, Allocate and Deallocate), empty ones included, and
    releases whose list node cannot be created. */
module MemRun {
  import opened MemSpans
  import opened MemPool

  // `lost` holds the chunks that were given back without getting into the list.
  datatype State = State(free: seq<Span>, live: set<Span>, lost: set<Span>) {
    ghost function Out(): set<Span> { live + lost }
  }

  datatype Event = Take(chunk: Span) | Give(chunk: Span) | Lose(chunk: Span)

  ghost predicate InUse(out: set<Span>, x: nat) {
    exists c :: c in out && c.Has(x)
  }

  // The chunks out of the pool are disjoint from the free list and from each other, and
  // together they make up the pool lo..hi. A chunk is live or lost, not both, unless empty.
  ghost predicate Inv(st: State, lo: nat, hi: nat) {
    && Loose(st.free) && (forall c :: c in st.live && c in st.lost ==> c.size == 0)
    && (forall c :: c in st.Out() ==> c.End() <= ADDRESS_SPACE && Apart(st.free, c))
    && (forall c, d, x: nat :: c in st.Out() && d in st.Out() && c.Has(x) && d.Has(x) ==> c == d)
    && (forall x: nat {:trigger Covers(st.free, x)} :: lo <= x < hi <==> Covers(st.free, x) || InUse(st.Out(), x))
  }

  // Chunks that are given back: those in hand. An empty one, which may have been handed out
  // more than once, may come back at any time.
  ghost predicate MayGive(st: State, c: Span) {
    c in st.live || (c.size == 0 && c.End() <= ADDRESS_SPACE)
  }

  // What Allocate does, with and without a node for the tail, and what Deallocate does,
  // with and without a node for the chunk.
  ghost predicate Step(st: State, e: Event, st': State) {
    match e
    case Take(c) => Taken(st.free, c, st'.free) && st'.live == st.live + {c} && st'.lost == st.lost
    case Give(c) => MayGive(st, c) && Released(st.free, c, st'.free) && st'.live == st.live - {c} && st'.lost == st.lost
    case Lose(c) => MayGive(st, c) && st'.free == st.free && st'.live == st.live - {c} && st'.lost == st.lost + {c}
  }

  // A free range is disjoint from every chunk that is out.
  lemma TakenIsNew(st: State, c: Span, lo: nat, hi: nat)
    requires Inv(st, lo, hi) && RangeFree(st.free, c.base, c.size)
    ensures c in st.Out() ==> c.size == 0
    ensures forall d, x: nat :: d in st.Out() && d.Has(x) ==> !c.Has(x)
  {
    hide Covers, Loose;
    forall x: nat | c.Has(x) ensures Covers(st.free, x) {}
    if c.size > 0 { assert c.Has(c.base); }
  }

  lemma TakeKeepsInv(st: State, c: Span, st': State, lo: nat, hi: nat)
    requires Inv(st, lo, hi) && Step(st, Take(c), st')
    ensures Inv(st', lo, hi)
  {
    hide Covers, Loose;
    TakenIsNew(st, c, lo, hi);
    assert st'.Out() == st.Out() + {c};
    forall x: nat ensures InUse(st'.Out(), x) <==> InUse(st.Out(), x) || c.Has(x) {
      if c.Has(x) { assert c in st'.Out(); }
      if InUse(st.Out(), x) {
        var d :| d in st.Out() && d.Has(x);
        assert d in st'.Out();
      }
    }
    forall x: nat | c.Has(x) ensures Covers(st.free, x) {}
  }

  // What is out besides c.
  lemma OutWithout(st: State, c: Span, st': State, lo: nat, hi: nat, x: nat)
    requires Inv(st, lo, hi) && MayGive(st, c) && st'.live == st.live - {c} && st'.lost == st.lost
    ensures InUse(st'.Out(), x) <==> InUse(st.Out(), x) && !c.Has(x)
  {
    hide Covers, Loose, Apart;
    if InUse(st.Out(), x) && !c.Has(x) {
      var d :| d in st.Out() && d.Has(x);
      assert d in st'.Out();
    }
    if InUse(st'.Out(), x) {
      var d :| d in st'.Out() && d.Has(x);
      assert d in st.Out();
    }
  }

  lemma GiveKeepsInv(st: State, c: Span, st': State, lo: nat, hi: nat)
    requires Inv(st, lo, hi) && Step(st, Give(c), st')
    ensures Inv(st', lo, hi)
  {
    hide Covers, Loose, InUse;
    forall d | d in st'.Out() ensures d in st.Out() {}
    forall x: nat ensures lo <= x < hi <==> Covers(st'.free, x) || InUse(st'.Out(), x) {
      OutWithout(st, c, st', lo, hi, x);
      if c.Has(x) { HasIsUse(st, c, x); }
    }
    forall d | d in st'.Out() ensures Apart(st'.free, d) {
      forall x: nat | d.Has(x) ensures !Covers(st'.free, x) {
        assert d in st.Out() && !(c.Has(x));
      }
    }
  }

  lemma HasIsUse(st: State, c: Span, x: nat)
    requires MayGive(st, c) && c.Has(x)
    ensures c in st.live && InUse(st.Out(), x)
  {
    assert c in st.Out();
  }

  lemma LoseKeepsInv(st: State, c: Span, st': State, lo: nat, hi: nat)
    requires Inv(st, lo, hi) && Step(st, Lose(c), st')
    ensures Inv(st', lo, hi)
  {
    hide Covers, Loose, InUse;
    forall d | d in st'.Out() ensures d in st.Out() || (d == c && c.size == 0) {}
    forall d | d in st.Out() ensures d in st'.Out() {}
    assert forall d :: d in st'.Out() ==> Apart(st'.free, d) by {
      forall d | d in st'.Out() ensures Apart(st'.free, d) {}
    }
    forall x: nat ensures InUse(st'.Out(), x) <==> InUse(st.Out(), x) { SameUse(st.Out(), st'.Out(), c, x); }
    forall x: nat ensures lo <= x < hi <==> Covers(st'.free, x) || InUse(st'.Out(), x) {
      assert lo <= x < hi <==> Covers(st.free, x) || InUse(st.Out(), x);
    }
  }

  lemma SameUse(out: set<Span>, out': set<Span>, c: Span, x: nat)
    requires out <= out' && forall d :: d in out' ==> d in out || (d == c && c.size == 0)
    ensures InUse(out', x) <==> InUse(out, x)
  {
  }

  ghost predicate Runs(st: State, es: seq<Event>, st': State)
    decreases |es|
  {
    if es == [] then st' == st
    else exists m :: Step(st, es[0], m) && Runs(m, es[1..], st')
  }

  lemma StepKeepsInv(st: State, e: Event, st': State, lo: nat, hi: nat)
    requires Inv(st, lo, hi) && Step(st, e, st')
    ensures Inv(st', lo, hi)
  {
    hide Inv, Step;
    match e {
      case Take(c) => TakeKeepsInv(st, c, st', lo, hi);
      case Give(c) => GiveKeepsInv(st, c, st', lo, hi);
      case Lose(c) => LoseKeepsInv(st, c, st', lo, hi);
    }
  }

  // Live chunks, lost chunks and free blocks partition the pool, whatever happens.
  lemma {:induction false} RunKeepsInv(st: State, es: seq<Event>, st': State, lo: nat, hi: nat)
    requires Inv(st, lo, hi) && Runs(st, es, st')
    ensures Inv(st', lo, hi)
    decreases |es|
  {
    hide Inv, Step;
    if es != [] {
      var m :| Step(st, es[0], m) && Runs(m, es[1..], st');
      StepKeepsInv(st, es[0], m, lo, hi);
      RunKeepsInv(m, es[1..], st', lo, hi);
    }
  }

  // A run loses exactly the chunks of its Lose events, and none of them ever comes back.
  lemma {:induction false} LostForGood(st: State, es: seq<Event>, st': State)
    requires Runs(st, es, st')
    ensures st'.lost == st.lost + set i | 0 <= i < |es| && es[i].Lose? :: es[i].chunk
    decreases |es|
  {
    hide Taken, Released;
    if es != [] {
      var m :| Step(st, es[0], m) && Runs(m, es[1..], st');
      LostForGood(m, es[1..], st');
      var all, tail := set i | 0 <= i < |es| && es[i].Lose? :: es[i].chunk,
                       set i | 0 <= i < |es[1..]| && es[1..][i].Lose? :: es[1..][i].chunk;
      assert all == tail + (if es[0].Lose? then {es[0].chunk} else {}) by {
        forall c | c in all ensures c in tail || (es[0].Lose? && c == es[0].chunk) {
          var i :| 0 <= i < |es| && es[i].Lose? && es[i].chunk == c;
          if i > 0 { assert es[1..][i - 1] == es[i]; }
        }
        forall c | c in tail ensures c in all {
          var i :| 0 <= i < |es[1..]| && es[1..][i].Lose? && es[1..][i].chunk == c;
          assert es[i + 1] == es[1..][i];
        }
      }
    }
  }

  // No request of the run was for nothing.
  predicate Filled(es: seq<Event>) {
    forall i :: 0 <= i < |es| ==> es[i].chunk.size > 0
  }

  // Without empty chunks the list stays coalesced.
  lemma {:induction false} RunStaysCanonical(st: State, es: seq<Event>, st': State)
    requires Canonical(st.free) && Runs(st, es, st') && Filled(es)
    ensures Canonical(st'.free)
    decreases |es|
  {
    hide Canonical, Covers, Loose, RangeFree;
    if es != [] {
      var m :| Step(st, es[0], m) && Runs(m, es[1..], st');
      assert es[0].chunk.size > 0 && forall i :: 0 <= i < |es[1..]| ==> es[1..][i] == es[i + 1];
      RunStaysCanonical(m, es[1..], st');
    }
  }

  // With no chunk out but empty ones, the pool is the one block it was exactly when it is
  // coalesced and nothing is lost.
  lemma AllBack(st: State, lo: nat, hi: nat)
    requires Inv(st, lo, hi) && (forall c :: c in st.live ==> c.size == 0) && lo < hi <= ADDRESS_SPACE
    ensures st.free == [Span(lo, hi - lo)] <==> Canonical(st.free) && forall c :: c in st.lost ==> c.size == 0
  {
    hide Loose;
    var whole := [Span(lo, hi - lo)];
    if forall c :: c in st.lost ==> c.size == 0 {
      forall x: nat ensures Covers(st.free, x) <==> Covers(whole, x) {
        assert !InUse(st.Out(), x);
        assert Covers(whole, x) <==> whole[0].Has(x) by { CoversAt(whole, 0, x); }
      }
      if Canonical(st.free) { SameAddresses(st.free, whole); }
    } else {
      var c :| c in st.lost && c.size != 0;
      assert c in st.Out() && c.Has(c.base) && InUse(st.Out(), c.base);
      assert !Covers(st.free, c.base);
      CoversAt(whole, 0, c.base);
    }
  }

  function Fresh(lo: nat, hi: nat): State
    requires lo < hi
  {
    State([Span(lo, hi - lo)], {}, {})
  }

  lemma FreshPool(lo: nat, hi: nat)
    requires lo < hi <= ADDRESS_SPACE
    ensures Inv(Fresh(lo, hi), lo, hi) && Canonical(Fresh(lo, hi).free)
  {
    var st := Fresh(lo, hi);
    forall x: nat ensures lo <= x < hi <==> Covers(st.free, x) || InUse(st.Out(), x) {
      CoversAt(st.free, 0, x);
    }
  }

  // From a fresh pool, a run that leaves no chunk out but empty ones restores the single
  // block, in whatever order the chunks came back, exactly when the list is coalesced and
  // every node that was to hold bytes could be created. Without empty chunks it always is
  // coalesced.
  lemma RunRestoresPool(es: seq<Event>, st: State, lo: nat, hi: nat)
    requires lo < hi <= ADDRESS_SPACE && Runs(Fresh(lo, hi), es, st) && forall c :: c in st.live ==> c.size == 0
    ensures st.free == [Span(lo, hi - lo)] <==>
            Canonical(st.free) && forall i :: 0 <= i < |es| && es[i].Lose? ==> es[i].chunk.size == 0
    ensures Filled(es) ==> Canonical(st.free)
  {
    hide Inv, Runs, Canonical;
    FreshPool(lo, hi);
    RunKeepsInv(Fresh(lo, hi), es, st, lo, hi);
    AllBack(st, lo, hi);
    LostForGood(Fresh(lo, hi), es, st);
    forall i | 0 <= i < |es| && es[i].Lose? ensures es[i].chunk in st.lost {}
    if Filled(es) { RunStaysCanonical(Fresh(lo, hi), es, st); }
  }

  // Over every run, empty requests included, live chunks overlap neither each other nor
  // the free list nor a chunk that was lost. Without empty chunks the list also stays
  // sorted and coalesced.
  lemma LiveChunksApart(es: seq<Event>, st: State, lo: nat, hi: nat, c: Span, d: Span, x: nat)
    requires lo < hi <= ADDRESS_SPACE && Runs(Fresh(lo, hi), es, st)
    requires c in st.live && d in st.Out() && c != d && c.Has(x)
    ensures Loose(st.free) && !d.Has(x) && !Covers(st.free, x) && lo <= x < hi
    ensures Filled(es) ==> Canonical(st.free)
  {
    hide Canonical, Loose, Filled;
    FreshPool(lo, hi);
    RunKeepsInv(Fresh(lo, hi), es, st, lo, hi);
    assert c in st.Out() && Apart(st.free, c);
    assert InUse(st.Out(), x);
    if Filled(es) { RunStaysCanonical(Fresh(lo, hi), es, st); }
  }

  // -- Taking and giving are inverse --

  lemma TakeThenGive(s: seq<Span>, c: Span, t: seq<Span>, u: seq<Span>)
    requires Canonical(s) && c.size > 0 && Taken(s, c, t) && Released(t, c, u)
    ensures u == s
  {
    forall x: nat ensures Covers(u, x) <==> Covers(s, x) {
      if c.Has(x) { assert Covers(s, x); }
    }
    SameAddresses(u, s);
  }

  // -- Free space --

  function Addresses(from: nat, n: nat): (a: set<nat>)
    ensures |a| == n && forall x: nat :: x in a <==> from <= x < from + n
  {
    if n == 0 then {} else Addresses(from, n - 1) + {from + n - 1}
  }

  // The free bytes are the addresses the list covers, however it is cut.
  lemma {:induction false} TotalCounts(s: seq<Span>, a: set<nat>)
    requires Loose(s) && forall x: nat :: x in a <==> Covers(s, x)
    ensures Total(s) == |a|
    decreases |s|
  {
    if s == [] {
      forall x: nat ensures x !in a { assert !Covers(s, x); }
      assert a == {};
    } else {
      var pre, b := s[..|s| - 1], s[|s| - 1];
      var of := Addresses(b.base, b.size);
      assert s == pre + [b];
      forall x: nat ensures x in a <==> Covers(pre, x) || x in of {
        CoversConcat(pre, [b], x);
        assert Covers([b], x) <==> b.Has(x) by { assert [b][0] == b; }
      }
      forall x: nat | x in of ensures !Covers(pre, x) {
        forall k | 0 <= k < |pre| ensures !pre[k].Has(x) { assert s[|s| - 1].Has(x) && pre[k] == s[k]; }
      }
      assert Loose(pre) by { forall k | 0 <= k < |pre| ensures pre[k] == s[k] {} }
      TotalCounts(pre, a - of);
      assert a == (a - of) + of;
    }
  }

  // The addresses a list covers.
  lemma CoveredBy(s: seq<Span>) returns (a: set<nat>)
    requires Loose(s)
    ensures forall x: nat :: x in a <==> Covers(s, x)
  {
    hide Loose, Covers;
    a := set x | x in Addresses(0, ADDRESS_SPACE) && Covers(s, x);
    forall x: nat ensures x in a <==> Covers(s, x) { if Covers(s, x) { CoversBelow(s, x); } }
  }

  lemma CoversBelow(s: seq<Span>, x: nat)
    requires Loose(s) && Covers(s, x)
    ensures x < ADDRESS_SPACE
  {
  }

  lemma TakenTotal(s: seq<Span>, c: Span, t: seq<Span>)
    requires Loose(s) && Taken(s, c, t)
    ensures Total(t) + c.size == Total(s)
  {
    hide Covers, Loose, Total;
    var a := CoveredBy(s);
    var of := Addresses(c.base, c.size);
    forall x | x in of ensures x in a { assert Covers(s, x); }
    TotalCounts(s, a);
    TotalCounts(t, a - of);
    assert a == (a - of) + of;
  }

  lemma ReleasedTotal(s: seq<Span>, c: Span, t: seq<Span>)
    requires Loose(s) && Apart(s, c) && Released(s, c, t)
    ensures Total(t) == Total(s) + c.size
  {
    hide Covers, Loose, Total;
    var a := CoveredBy(s);
    var of := Addresses(c.base, c.size);
    forall x | x in of ensures x !in a { assert c.Has(x); }
    TotalCounts(s, a);
    TotalCounts(t, a + of);
  }

  function Net(es: seq<Event>): int {
    if es == [] then 0
    else (match es[0] case Take(c) => c.size as int case Give(c) => 0 - c.size case Lose(c) => 0) + Net(es[1..])
  }

  // Free space drops by what is taken and rises by what is given back; a lost chunk stays
  // taken.
  lemma {:induction false} RunConserves(st: State, es: seq<Event>, st': State, lo: nat, hi: nat)
    requires Inv(st, lo, hi) && Runs(st, es, st')
    ensures Total(st'.free) == Total(st.free) - Net(es)
    decreases |es|
  {
    hide Covers, Loose, Canonical, Total, Taken, Released;
    if es != [] {
      var m :| Step(st, es[0], m) && Runs(m, es[1..], st');
      StepKeepsInv(st, es[0], m, lo, hi);
      match es[0] {
        case Take(c) => TakenTotal(st.free, c, m.free);
        case Give(c) =>
          assert c in st.Out() || c.size == 0;
          ReleasedTotal(st.free, c, m.free);
        case Lose(c) =>
      }
      RunConserves(m, es[1..], st', lo, hi);
    }
  }

  // -- The list itself --

  lemma {:induction false} RunAndStep(st: State, es: seq<Event>, m: State, e: Event, st': State)
    requires Runs(st, es, m) && Step(m, e, st')
    ensures Runs(st, es + [e], st')
    decreases |es|
  {
    hide Step;
    if es == [] {
      assert [e][1..] == [] && Runs(st', [], st');
    } else {
      var k :| Step(st, es[0], k) && Runs(k, es[1..], m);
      RunAndStep(k, es[1..], m, e, st');
      assert (es + [e])[0] == es[0] && (es + [e])[1..] == es[1..] + [e];
    }
  }

  // A chunk the client may give back can be given to Deallocate.
  lemma HeldIsApart(es: seq<Event>, st: State, lo: nat, hi: nat, c: Span)
    requires lo < hi <= ADDRESS_SPACE && Runs(Fresh(lo, hi), es, st) && MayGive(st, c)
    ensures c.End() <= ADDRESS_SPACE && Apart(st.free, c)
  {
    hide Loose;
    FreshPool(lo, hi);
    RunKeepsInv(Fresh(lo, hi), es, st, lo, hi);
    assert c.size > 0 ==> c in st.Out();
  }

  datatype Request = Alloc(size: nat, align: int) | Free(chunk: Span)

  // Serves a client that asks for what it likes, nothing included, and gives back only
  // chunks it holds: what the linked list goes through is a run, whether or not nodes can
  // be created.
  method Serve(p: Pool, reqs: seq<Request>, ghost lo: nat, ghost hi: nat)
    returns (live: set<Span>, ghost lost: set<Span>, ghost es: seq<Event>)
    requires p.Valid() && lo < hi <= ADDRESS_SPACE && p.Spans() == [Span(lo, hi - lo)]
    modifies p, p.nodes
    ensures p.Sound() && Runs(Fresh(lo, hi), es, State(p.Spans(), live, lost))
    ensures p.mallocFaults == old(p.mallocFaults) ==> lost == {}
  {
    hide Inv, Runs, Step, Pool.Linked, Canonical, Pool.Spans;
    live, lost, es := {}, {}, [];
    CanonicalIsLoose(p.Spans());
    assert Runs(Fresh(lo, hi), [], Fresh(lo, hi)) by { NoSteps(Fresh(lo, hi)); }
    for i := 0 to |reqs|
      invariant p.Sound() && fresh(p.nodes - old(p.nodes)) && p.mallocFaults >= old(p.mallocFaults)
      invariant p.mallocFaults == old(p.mallocFaults) ==> lost == {}
      invariant Runs(Fresh(lo, hi), es, State(p.Spans(), live, lost))
    {
      match reqs[i]
      case Alloc(size, align) =>
        if size < ADDRESS_SPACE {
          live, es := ServeAlloc(p, size, align, live, lost, es, Fresh(lo, hi));
        }
      case Free(chunk) =>
        if chunk in live || (chunk.size == 0 && chunk.base <= ADDRESS_SPACE) {
          HeldIsApart(es, State(p.Spans(), live, lost), lo, hi, chunk);
          live, lost, es := ServeFree(p, chunk, live, lost, es, Fresh(lo, hi));
        }
    }
  }

  lemma NoSteps(st: State)
    ensures Runs(st, [], st)
  {
  }

  method ServeAlloc(p: Pool, size: nat, align: int, live: set<Span>, ghost lost: set<Span>, ghost es: seq<Event>, ghost start: State)
    returns (live': set<Span>, ghost es': seq<Event>)
    requires p.Sound() && size < ADDRESS_SPACE && Runs(start, es, State(p.Spans(), live, lost))
    modifies p, p.nodes
    ensures p.Sound() && fresh(p.nodes - old(p.nodes)) && p.mallocFaults >= old(p.mallocFaults)
    ensures Runs(start, es', State(p.Spans(), live', lost))
  {
    hide Runs, Taken, Pool.Linked, Canonical, Pool.Spans, Total, Padded, Loose;
    ghost var was := State(p.Spans(), live, lost);
    live', es' := live, es;
    var ok, chunk := p.Allocate(size, align);
    if ok {
      live', es' := live + {chunk}, es + [Take(chunk)];
      RunAndStep(start, es, was, Take(chunk), State(p.Spans(), live', lost));
    }
  }

  method ServeFree(p: Pool, chunk: Span, live: set<Span>, ghost lost: set<Span>, ghost es: seq<Event>, ghost start: State)
    returns (live': set<Span>, ghost lost': set<Span>, ghost es': seq<Event>)
    requires p.Sound() && MayGive(State(p.Spans(), live, lost), chunk) && Runs(start, es, State(p.Spans(), live, lost))
    requires chunk.End() <= ADDRESS_SPACE && Apart(p.Spans(), chunk)
    modifies p, p.nodes
    ensures p.Sound() && fresh(p.nodes - old(p.nodes)) && p.mallocFaults >= old(p.mallocFaults)
    ensures Runs(start, es', State(p.Spans(), live', lost'))
    ensures p.mallocFaults == old(p.mallocFaults) ==> lost' == lost
  {
    hide Runs, Released, Pool.Linked, Canonical, Pool.Spans, Apart, Loose;
    ghost var was := State(p.Spans(), live, lost);
    p.Deallocate(chunk);
    live' := live - {chunk};
    ghost var e := if p.mallocFaults == old(p.mallocFaults) then Give(chunk) else Lose(chunk);
    lost' := if p.mallocFaults == old(p.mallocFaults) then lost else lost + {chunk};
    es' := es + [e];
    RunAndStep(start, es, was, e, State(p.Spans(), live', lost'));
  }
}
