/** The VRAM pool (source/arm11/allocator/mem_pool.h and mem_pool.cpp): a doubly linked,
    address-sorted, coalesced list of free blocks. */
module MemPool {
  import opened MemSpans

  class MemBlock {
    var prev: MemBlock?
    var next: MemBlock?
    var base: nat
    var size: nat

    constructor (base: nat, size: nat)
      ensures this.base == base && this.size == size && prev == null && next == null
    {
      this.base, this.size, prev, next := base, size, null, null;
    }
  }

  ghost function SpansOf(bs: seq<MemBlock>): (s: seq<Span>)
    reads bs`base, bs`size
    ensures |s| == |bs| && forall i :: 0 <= i < |s| ==> s[i] == Span(bs[i].base, bs[i].size)
  {
    if bs == [] then [] else SpansOf(bs[..|bs| - 1]) + [Span(bs[|bs| - 1].base, bs[|bs| - 1].size)]
  }

  lemma SpansDropped(bs: seq<MemBlock>, i: nat)
    requires i < |bs|
    ensures SpansOf(Dropped(bs, i)) == Dropped(SpansOf(bs), i)
  {
    hide SpansOf, Dropped;
  }

  lemma SpansInserted(bs: seq<MemBlock>, i: nat, n: MemBlock)
    requires i <= |bs|
    ensures SpansOf(Inserted(bs, i, n)) == Inserted(SpansOf(bs), i, Span(n.base, n.size))
  {
    hide SpansOf, Inserted;
  }

  ghost predicate Distinct(bs: seq<MemBlock>) {
    forall i, j :: 0 <= i < j < |bs| ==> bs[i] != bs[j]
  }

  lemma OthersDiffer(bs: seq<MemBlock>, i: nat)
    requires Distinct(bs) && i < |bs|
    ensures forall k {:trigger bs[k]} :: 0 <= k < |bs| && k != i ==> bs[k] != bs[i]
  {
  }

  lemma NotAmong(bs: seq<MemBlock>, p: MemBlock)
    requires p !in bs
    ensures forall k {:trigger bs[k]} :: 0 <= k < |bs| ==> bs[k] != p
  {
  }

  lemma DistinctInserted(bs: seq<MemBlock>, i: nat, p: MemBlock)
    requires Distinct(bs) && i <= |bs| && p !in bs
    ensures Distinct(Inserted(bs, i, p))
  {
    hide Inserted;
    forall k | 0 <= k < |bs| ensures bs[k] != p { assert bs[k] in bs; }
  }

  lemma DistinctDropped(bs: seq<MemBlock>, i: nat)
    requires Distinct(bs) && i < |bs|
    ensures Distinct(Dropped(bs, i))
  {
    hide Dropped;
  }

  class Pool {
    var first: MemBlock?
    var last: MemBlock?
    ghost var blocks: seq<MemBlock>
    ghost var nodes: set<MemBlock>   // every block that was ever in the list
    ghost var mallocFaults: nat

    // The pointers spell out `blocks` in both directions.
    ghost predicate Linked()
      reads `first, `last, `blocks, `nodes, blocks`prev, blocks`next
    {
      && Distinct(blocks) && (forall b :: b in blocks ==> b in nodes)
      && first == (if blocks == [] then null else blocks[0])
      && last == (if blocks == [] then null else blocks[|blocks| - 1])
      && (forall i {:trigger blocks[i].prev} :: 0 <= i < |blocks| ==> blocks[i].prev == if i == 0 then null else blocks[i - 1])
      && (forall i {:trigger blocks[i].next} :: 0 <= i < |blocks| ==> blocks[i].next == if i + 1 == |blocks| then null else blocks[i + 1])
    }

    ghost function Spans(): (s: seq<Span>)
      reads `blocks, blocks`base, blocks`size
      ensures |s| == |blocks| && forall i :: 0 <= i < |s| ==> s[i] == Span(blocks[i].base, blocks[i].size)
    {
      SpansOf(blocks)
    }

    constructor ()
      ensures Linked() && blocks == [] && nodes == {} && mallocFaults == 0
    {
      first, last, blocks, nodes, mallocFaults := null, null, [], {}, 0;
    }

    method AddBlock(blk: MemBlock)
      requires Linked() && blk !in blocks && blk.next == null
      modifies `first, `last, `blocks, `nodes, blk`prev, nodes`next
      ensures Linked() && blocks == Inserted(old(blocks), |old(blocks)|, blk) && nodes == old(nodes) + {blk}
    {
      hide Distinct, Inserted;
      DistinctInserted(blocks, |blocks|, blk);
      NotAmong(blocks, blk);
      if blocks != [] { OthersDiffer(blocks, |blocks| - 1); }
      blk.prev := last;
      if last != null { last.next := blk; }
      if first == null { first := blk; }
      last := blk;
      blocks, nodes := Inserted(blocks, |blocks|, blk), nodes + {blk};
    }

    method DelBlock(b: MemBlock, ghost i: nat)
      requires Linked() && i < |blocks| && blocks[i] == b
      modifies `first, `last, `blocks, nodes`prev, nodes`next
      ensures Linked() && blocks == Dropped(old(blocks), i)
    {
      hide Distinct, Dropped;
      DistinctDropped(blocks, i);
      OthersDiffer(blocks, i);
      if i > 0 { OthersDiffer(blocks, i - 1); }
      if i + 1 < |blocks| { OthersDiffer(blocks, i + 1); }
      var prev, next := b.prev, b.next;
      if prev != null { prev.next := next; } else { first := next; }
      if next != null { next.prev := prev; } else { last := prev; }
      blocks := Dropped(blocks, i);
    }

    // Puts p in front of b, which is the i-th block.
    method InsertBefore(b: MemBlock, p: MemBlock, ghost i: nat)
      requires Linked() && i < |blocks| && blocks[i] == b && p !in blocks
      modifies `first, `blocks, `nodes, p`prev, p`next, nodes`prev, nodes`next
      ensures Linked() && blocks == Inserted(old(blocks), i, p) && nodes == old(nodes) + {p}
    {
      hide Distinct, Inserted;
      DistinctInserted(blocks, i, p);
      NotAmong(blocks, p);
      OthersDiffer(blocks, i);
      if i > 0 { OthersDiffer(blocks, i - 1); }
      var prev := b.prev;
      b.prev := p;
      p.next := b;
      p.prev := prev;
      if prev != null { prev.next := p; } else { first := p; }
      blocks, nodes := Inserted(blocks, i, p), nodes + {p};
    }

    // Puts n behind b, which is the i-th block.
    method InsertAfter(b: MemBlock, n: MemBlock, ghost i: nat)
      requires Linked() && i < |blocks| && blocks[i] == b && n !in blocks
      modifies `last, `blocks, `nodes, n`prev, n`next, nodes`prev, nodes`next
      ensures Linked() && blocks == Inserted(old(blocks), i + 1, n) && nodes == old(nodes) + {n}
    {
      hide Distinct, Inserted;
      DistinctInserted(blocks, i + 1, n);
      NotAmong(blocks, n);
      OthersDiffer(blocks, i);
      if i + 1 < |blocks| { OthersDiffer(blocks, i + 1); }
      var next := b.next;
      b.next := n;
      n.prev := b;
      n.next := next;
      if next != null { next.prev := n; } else { last := n; }
      blocks, nodes := Inserted(blocks, i + 1, n), nodes + {n};
    }

    // MemBlock::Create: null when the node cannot be allocated.
    method Create(base: nat, size: nat) returns (b: MemBlock?)
      modifies `mallocFaults
      ensures b == null ==> mallocFaults == old(mallocFaults) + 1
      ensures b != null ==> mallocFaults == old(mallocFaults) && fresh(b) && b.base == base && b.size == size && b.next == null
    {
      var ok: bool := *;
      if ok {
        b := new MemBlock(base, size);
      } else {
        b := null;
        mallocFaults := mallocFaults + 1;
      }
    }

    lemma NextOf(i: nat)
      requires Linked() && i < |blocks|
      ensures blocks[i].next == if i + 1 == |blocks| then null else blocks[i + 1]
    {
    }

    // One merge: b, the i-th block, takes over the bytes of its successor.
    method Absorb(b: MemBlock, n: MemBlock, ghost i: nat)
      requires Linked() && i + 1 < |blocks| && blocks[i] == b && blocks[i + 1] == n
      modifies `first, `last, `blocks, nodes`prev, nodes`next, b`size
      ensures Linked() && blocks == Dropped(old(blocks), i + 1) && b.size == old(b.size + n.size)
      ensures var s := old(Spans()); Spans() == Merged(s, i, i + 2, Span(s[i].base, s[i].size + s[i + 1].size))
    {
      OthersDiffer(blocks, i);
      hide Pool.Linked, Distinct, Dropped, SpansOf;
      b.size := b.size + n.size;
      DelBlock(n, i + 1);
    }

    // Merges the blocks that follow b, the i-th, as long as they touch.
    method CoalesceRight(b: MemBlock, ghost i: nat)
      requires Linked() && i < |blocks| && blocks[i] == b
      modifies `first, `last, `blocks, nodes`prev, nodes`next, b`size
      ensures Linked() && Spans() == Coalesced(old(Spans()), i)
    {
      hide Pool.Linked, Coalesced, Merged, SpansOf, Dropped;
      var curPtr := b.base + b.size;
      NextOf(i);
      var next := b.next;
      var n := next;
      ghost var s := Spans();
      ghost var goal := Coalesced(s, i);
      while n != null
        invariant Linked() && i < |blocks| && blocks[i] == b
        invariant n == next == if i + 1 == |blocks| then null else blocks[i + 1]
        invariant Spans() == s && Coalesced(s, i) == goal
        invariant curPtr == b.base + b.size
        decreases |blocks|
      {
        CoalescedStep(s, i);
        NextOf(i + 1);
        next := n.next;
        if n.base != curPtr { break; }
        curPtr := curPtr + n.size;
        Absorb(b, n, i);
        s := Merged(s, i, i + 2, Span(s[i].base, s[i].size + s[i + 1].size));
        n := next;
      }
      CoalescedStep(s, i);
    }
  
    // Well linked, and no address twice.
    ghost predicate Sound()
      reads `first, `last, `blocks, `nodes, blocks`prev, blocks`next, blocks`base, blocks`size
    {
      Linked() && Loose(Spans())
    }

    // The list as a whole: well linked, sorted, disjoint and coalesced.
    ghost predicate Valid()
      reads `first, `last, `blocks, `nodes, blocks`prev, blocks`next, blocks`base, blocks`size
    {
      Linked() && Canonical(Spans())
    }

    // Moves and resizes the i-th block.
    method SetBlock(b: MemBlock, base: nat, size: nat, ghost i: nat)
      requires Linked() && i < |blocks| && blocks[i] == b
      modifies b`base, b`size
      ensures Spans() == old(Spans())[i := Span(base, size)]
    {
      OthersDiffer(blocks, i);
      b.base, b.size := base, size;
    }

    // Takes size bytes from the front of b, the i-th block.
    method TakeFront(b: MemBlock, size: nat, ghost i: nat)
      requires Linked() && i < |blocks| && blocks[i] == b && size <= b.size
      modifies `first, `last, `blocks, `nodes, nodes`prev, nodes`next, b`base, b`size
      ensures fresh(nodes - old(nodes)) && mallocFaults >= old(mallocFaults)
      ensures Linked() && Spans() == Carved(old(Spans()), i, old(b.base), size)
    {
      hide Pool.Linked, SpansOf, Carved, Inserted, Dropped;
      ghost var s, bs := Spans(), blocks;
      CarvedFront(s, i, size);
      SetBlock(b, b.base + size, b.size - size, i);
      if b.size == 0 {
        DelBlock(b, i);
        SpansDropped(bs, i);
      }
    }

    // A new block behind b, the i-th, if its node can be created.
    method AddTail(b: MemBlock, nAddr: nat, nSize: nat, ghost i: nat) returns (ok: bool)
      requires Linked() && i < |blocks| && blocks[i] == b
      modifies `last, `blocks, `nodes, `mallocFaults, nodes`prev, nodes`next
      ensures fresh(nodes - old(nodes)) && mallocFaults >= old(mallocFaults)
      ensures Linked() && mallocFaults == old(mallocFaults) + (if ok then 0 else 1)
      ensures Spans() == if ok then Inserted(old(Spans()), i + 1, Span(nAddr, nSize)) else old(Spans())
    {
      hide Pool.Linked, SpansOf, Inserted;
      ghost var bs := blocks;
      var n := Create(nAddr, nSize);
      if n != null {
        InsertAfter(b, n, i);
        SpansInserted(bs, i + 1, n);
      }
      ok := n != null;
    }

    // Takes size bytes behind begWaste bytes out of b, the i-th block. When the node for
    // the tail cannot be created the tail goes with them.
    method TakeBehind(b: MemBlock, begWaste: nat, size: nat, ghost i: nat) returns (chunk: Span)
      requires Linked() && i < |blocks| && blocks[i] == b && 0 < begWaste && begWaste + size <= b.size
      modifies `first, `last, `blocks, `nodes, `mallocFaults, nodes`prev, nodes`next, b`base, b`size
      ensures fresh(nodes - old(nodes)) && mallocFaults >= old(mallocFaults)
      ensures Linked() && chunk.base == old(b.base) + begWaste && chunk.End() <= old(b.base + b.size)
      ensures Spans() == Carved(old(Spans()), i, chunk.base, chunk.size)
      ensures chunk.size == size || (mallocFaults > old(mallocFaults)
                                     && chunk.size > size && chunk.End() == old(b.base + b.size))
    {
      hide Pool.Linked, SpansOf, Carved, Inserted;
      ghost var s := Spans();
      var addr, bSize := b.base + begWaste, b.size - begWaste;
      chunk := Span(addr, size);
      var nAddr, nSize := addr + size, bSize - size;
      CarvedToEnd(s, i, begWaste);
      SetBlock(b, b.base, begWaste, i);
      if nSize > 0 {
        CarvedWithTail(s, i, begWaste, size);
        var ok := AddTail(b, nAddr, nSize, i);
        if !ok { chunk := Span(addr, size + nSize); }
      }
    }

    // What Allocate hands out, whatever the list: aligned free bytes, no fewer than asked
    // for, and more only when the tail's node could not be created.
    twostate predicate Handed(unit: nat, n: nat, chunk: Span)
      requires unit > 0
      reads `blocks, `mallocFaults, blocks`base, blocks`size
    {
      && Taken(old(Spans()), chunk, Spans()) && Total(Spans()) + chunk.size == Total(old(Spans()))
      && chunk.base % unit == 0 && n <= chunk.size && (chunk.size == n || mallocFaults > old(mallocFaults))
    }

    // What a successful Allocate hands out of a coalesced list: the lowest aligned free range of n bytes.
    // It is longer, up to the end of its block, only when the tail's node could not be
    // created.
    twostate predicate Allocated(unit: nat, n: nat, chunk: Span)
      requires unit > 0
      reads `blocks, `mallocFaults, blocks`base, blocks`size
    {
      var s := old(Spans());
      && AlignedFree(s, unit, n, chunk.base) && (forall a: nat :: AlignedFree(s, unit, n, a) ==> chunk.base <= a)
      && (chunk.size == n || (mallocFaults > old(mallocFaults) && chunk.size > n && !Covers(s, chunk.End())))
    }

    // What it hands out of such a list for a size of 0: an empty chunk at the first aligned address, whose
    // block is cut in two there. The list stays coalesced only when that address is at an
    // end of the block.
    twostate predicate EmptyTaken(unit: nat, chunk: Span)
      requires unit > 0
      reads `blocks, `mallocFaults, blocks`base, blocks`size
    {
      var s := old(Spans());
      exists i: nat ::
        && i < |s| && Fits(s[i], unit, 0) && (forall j :: 0 <= j < i ==> !Fits(s[j], unit, 0))
        && chunk.base == AlignUp(s[i].base, unit) && Spans() == Carved(s, i, chunk.base, chunk.size)
        && (chunk.size == 0 || (mallocFaults > old(mallocFaults) && chunk.End() == s[i].End()))
        && (chunk.size == 0 ==> (Canonical(Spans()) <==> chunk.base == s[i].base || chunk.base == s[i].End()))
    }

    lemma FirstOf()
      requires Linked()
      ensures first == if blocks == [] then null else blocks[0]
    {
    }

    // What Allocate does to the block found.
    method TakeFit(b: MemBlock, unit: nat, begWaste: nat, size: nat, ghost i: nat) returns (chunk: Span)
      requires Sound() && unit > 0 && i < |blocks| && blocks[i] == b && b in nodes
      requires begWaste == AlignUp(b.base, unit) - b.base && begWaste + size <= b.size
      requires forall j :: 0 <= j < i ==> !Fits(Spans()[j], unit, size)
      modifies `first, `last, `blocks, `nodes, `mallocFaults, nodes`prev, nodes`next, b`base, b`size
      ensures fresh(nodes - old(nodes)) && mallocFaults >= old(mallocFaults)
      ensures Sound() && Handed(unit, size, chunk)
      ensures old(Canonical(Spans())) ==> if size > 0 then Allocated(unit, size, chunk) else EmptyTaken(unit, chunk)
    {
      hide Pool.Linked, Canonical, Total, SpansOf, Carved, RangeFree, Covers, Loose;
      ghost var s := Spans();
      if begWaste == 0 {
        chunk := Span(b.base, size);
        TakeFront(b, size, i);
      } else {
        chunk := TakeBehind(b, begWaste, size, i);
      }
      CarveIsTaken(s, i, chunk);
      AlignUpIsLeast(s[i].base, unit);
      if Canonical(s) {
        if size > 0 {
          FirstFitIsLowest(s, unit, size, i);
          GapBehind(s, i);
        } else {
          EmptyCarve(s, i, AlignUp(s[i].base, unit));
        }
      }
    }

    // The search of Allocate.
    method FirstFit(unit: nat, size: nat) returns (ok: bool, chunk: Span)
      requires Sound() && unit > 0
      modifies `first, `last, `blocks, `nodes, `mallocFaults, nodes`prev, nodes`next, nodes`base, nodes`size
      ensures fresh(nodes - old(nodes)) && mallocFaults >= old(mallocFaults)
      ensures Sound() && (ok ==> Handed(unit, size, chunk))
      ensures ok && old(Canonical(Spans())) ==> if size > 0 then Allocated(unit, size, chunk) else EmptyTaken(unit, chunk)
      ensures !ok ==> Spans() == old(Spans()) && mallocFaults == old(mallocFaults)
      ensures !ok ==> forall j :: 0 <= j < |Spans()| ==> !Fits(Spans()[j], unit, size)
      ensures !ok && size > 0 && Canonical(Spans()) ==> forall a: nat :: !AlignedFree(Spans(), unit, size, a)
    {
      hide Pool.Linked, Canonical, Total, SpansOf, Carved, RangeFree, Covers, Loose;
      ok, chunk := false, Span(0, 0);
      ghost var s := Spans();
      FirstOf();
      var b := first;
      ghost var i := 0;
      while b != null
        invariant Sound() && Spans() == s && i <= |blocks| && nodes == old(nodes) && blocks == old(blocks)
        invariant unchanged(this) && unchanged(nodes)
        invariant b == if i == |blocks| then null else blocks[i]
        invariant forall j :: 0 <= j < i ==> !Fits(s[j], unit, size)
        decreases |blocks| - i
      {
        NextOf(i);
        var begWaste := b.base % unit;
        if begWaste > 0 { begWaste := unit - begWaste; }
        if begWaste <= b.size && b.size - begWaste >= size {
          InNodes(i);
          chunk := TakeFit(b, unit, begWaste, size, i);
          ok := true;
          return;
        }
        b := b.next;
        i := i + 1;
      }
      if size > 0 && Canonical(s) {
        forall a: nat ensures !AlignedFree(s, unit, size, a) { NoFit(s, unit, size, a); }
      }
    }

    lemma InNodes(i: nat)
      requires Linked() && i < |blocks|
      ensures blocks[i] in nodes
    {
      assert blocks[i] in blocks;
    }

    method Allocate(size: nat, align: int) returns (ok: bool, chunk: Span)
      requires Sound() && size < ADDRESS_SPACE
      modifies `first, `last, `blocks, `nodes, `mallocFaults, nodes`prev, nodes`next, nodes`base, nodes`size
      ensures fresh(nodes - old(nodes)) && mallocFaults >= old(mallocFaults)
      ensures Sound() && (ok ==> 0 < align < 32 && Handed(Unit(align), Padded(size, Unit(align)), chunk))
      ensures ok && size > 0 ==> chunk.size > 0
      ensures ok && size > 0 && old(Canonical(Spans())) ==> Allocated(Unit(align), Padded(size, Unit(align)), chunk)
      ensures ok && size == 0 && old(Canonical(Spans())) ==> EmptyTaken(Unit(align), chunk)
      ensures !ok ==> Spans() == old(Spans()) && mallocFaults == old(mallocFaults)
      ensures !ok && 0 < align < 32 && !PadOverflows(size, Unit(align)) ==>
                forall j :: 0 <= j < |Spans()| ==> !Fits(Spans()[j], Unit(align), Padded(size, Unit(align)))
      ensures !ok && size > 0 && 0 < align < 32 && !PadOverflows(size, Unit(align)) && Canonical(Spans()) ==>
                forall a: nat :: !AlignedFree(Spans(), Unit(align), Padded(size, Unit(align)), a)
      ensures 0 < align < 32 && PadOverflows(size, Unit(align)) ==> !ok
    {
      hide Pool.Linked, Canonical, Total, SpansOf, Loose, Taken, RangeFree;
      ok, chunk := false, Span(0, 0);
      if align >= 32 || align < 0 { return; }
      if align == 0 { return; }
      var alignMask := Unit(align) - 1;
      var padded := size;
      if size % (alignMask + 1) != 0 {
        if size > ADDRESS_SPACE - 1 - alignMask { return; }
        padded := (size + alignMask) / (alignMask + 1) * (alignMask + 1);
      }
      PaddedIs(size, alignMask + 1, padded);
      ok, chunk := FirstFit(alignMask + 1, padded);
    }

    // Gives a range back. When its node cannot be created the range is lost.
    method Deallocate(chunk: Span)
      requires Sound() && chunk.End() <= ADDRESS_SPACE && Apart(Spans(), chunk)
      modifies `first, `last, `blocks, `nodes, `mallocFaults, nodes`prev, nodes`next, nodes`base, nodes`size
      ensures fresh(nodes - old(nodes)) && mallocFaults >= old(mallocFaults)
      ensures Sound()
      ensures mallocFaults == old(mallocFaults) ==> Released(old(Spans()), chunk, Spans())
      ensures mallocFaults != old(mallocFaults) ==> Spans() == old(Spans())
    {
      hide Pool.Linked, Canonical, SpansOf, Apart, Inserted, Coalesced, Loose;
      var cAddr, cSize := chunk.base, chunk.size;
      ghost var s := Spans();
      FirstOf();
      var b := first;
      ghost var i := 0;
      while b != null
        invariant Sound() && Spans() == s && i <= |blocks| && nodes == old(nodes) && blocks == old(blocks)
        invariant unchanged(this) && unchanged(nodes)
        invariant b == if i == |blocks| then null else blocks[i]
        invariant Canonical(s) && cSize > 0 ==> forall j :: 0 <= j < i ==> s[j].End() < cAddr
        decreases |blocks| - i
      {
        NextOf(i);
        InNodes(i);
        if Canonical(s) && cSize > 0 { ApartFrom(s, i, chunk); }
        var addr := b.base;
        if addr > cAddr {
          ReleaseHere(b, chunk, i);
          return;
        } else if b.base + b.size == cAddr {
          RightReleases(s, i, chunk);
          SetBlock(b, b.base, b.size + cSize, i);
          CoalesceRight(b, i);
          return;
        }
        b := b.next;
        i := i + 1;
      }
      ReleaseAtEnd(chunk);
    }

    // In front of b, the first block behind the range: merged with it or on its own.
    method ReleaseHere(b: MemBlock, chunk: Span, ghost i: nat)
      requires Sound() && chunk.End() <= ADDRESS_SPACE && Apart(Spans(), chunk)
      requires i < |blocks| && blocks[i] == b && b.base > chunk.base
      requires Canonical(Spans()) && chunk.size > 0 ==> forall j :: 0 <= j < i ==> Spans()[j].End() < chunk.base
      modifies `first, `last, `blocks, `nodes, `mallocFaults, nodes`prev, nodes`next, nodes`base, nodes`size
      ensures fresh(nodes - old(nodes)) && mallocFaults >= old(mallocFaults)
      ensures Sound()
      ensures mallocFaults == old(mallocFaults) ==> Released(old(Spans()), chunk, Spans())
      ensures mallocFaults != old(mallocFaults) ==> Spans() == old(Spans())
    {
      hide Pool.Linked, Canonical, SpansOf, Apart, Inserted, Loose;
      ghost var s, bs := Spans(), blocks;
      InNodes(i);
      if chunk.End() == b.base {
        LeftReleases(s, i, chunk);
        SetBlock(b, chunk.base, b.size + chunk.size, i);
      } else {
        var c := Create(chunk.base, chunk.size);
        if c != null {
          InsertedReleases(s, i, chunk);
          InsertBefore(b, c, i);
          SpansInserted(bs, i, c);
        }
      }
    }

    // The list is empty or ends before the range.
    method ReleaseAtEnd(chunk: Span)
      requires Sound() && chunk.End() <= ADDRESS_SPACE && Apart(Spans(), chunk)
      requires Canonical(Spans()) && chunk.size > 0 ==> forall j :: 0 <= j < |blocks| ==> Spans()[j].End() < chunk.base
      modifies `first, `last, `blocks, `nodes, `mallocFaults, nodes`prev, nodes`next
      ensures fresh(nodes - old(nodes)) && mallocFaults >= old(mallocFaults)
      ensures Sound()
      ensures mallocFaults == old(mallocFaults) ==> Released(old(Spans()), chunk, Spans())
      ensures mallocFaults != old(mallocFaults) ==> Spans() == old(Spans())
    {
      hide Pool.Linked, Canonical, SpansOf, Apart, Inserted, Loose;
      ghost var s, bs := Spans(), blocks;
      var c := Create(chunk.base, chunk.size);
      if c != null {
        InsertedReleases(s, |s|, chunk);
        AddBlock(c);
        SpansInserted(bs, |bs|, c);
      }
    }

    // GetFreeSpace, in 32-bit arithmetic.
    method GetFreeSpace() returns (acc: nat)
      requires Linked()
      ensures acc == Total(Spans()) % ADDRESS_SPACE
    {
      hide Pool.Linked, Total;
      acc := 0;
      FirstOf();
      var b := first;
      ghost var i := 0;
      TotalPrefix(Spans(), 0);
      while b != null
        invariant i <= |blocks| && b == (if i == |blocks| then null else blocks[i])
        invariant acc == Total(Spans()[..i]) % ADDRESS_SPACE
        decreases |blocks| - i
      {
        NextOf(i);
        TotalPrefix(Spans(), i + 1);
        acc := (acc + b.size) % ADDRESS_SPACE;
        b := b.next;
        i := i + 1;
      }
      assert Spans()[..i] == Spans();
    }
  }

  // Two to the power of align.
  function Unit(align: nat): (u: nat)
    ensures u > 0
  {
    if align == 0 then 1 else 2 * Unit(align - 1)
  }

  // It is 2 for 1 and turns sums into products; below 32 it fits 32 bits.
  lemma {:induction false} UnitAdds(a: nat, b: nat)
    ensures Unit(0) == 1 && Unit(1) == 2 && Unit(a + b) == Unit(a) * Unit(b)
    decreases a
  {
    assert Unit(1) == 2 * Unit(0);
    if a > 0 {
      UnitAdds(a - 1, b);
      assert 2 * Unit(a - 1) * Unit(b) == 2 * (Unit(a - 1) * Unit(b));
    }
  }

  lemma UnitOf32()
    ensures Unit(32) == ADDRESS_SPACE
  {
    hide Unit;
    UnitAdds(1, 1);
    UnitAdds(2, 2);
    UnitAdds(4, 4);
    UnitAdds(8, 8);
    assert Unit(16) == 0x1_0000;
    UnitAdds(16, 16);
  }

  lemma RoundsPast(size: nat, u: nat, q: nat)
    requires u > 0 && size < u * q
    ensures size % u != 0 && size > u * q - u <==> AlignUp(size, u) >= u * q
  {
    AlignUpIsLeast(size, u);
    var a := AlignUp(size, u) / u;
    assert AlignUp(size, u) == u * a && u * (q - 1) == u * q - u;
    MulStep(u, q - 1, a);
    MulStep(u, a, q);
    MulStep(u, a, q - 1);
  }

  // The refusal: the padded size would not fit 32 bits.
  lemma OverflowIff(size: nat, align: nat)
    requires size < ADDRESS_SPACE && align < 32
    ensures PadOverflows(size, Unit(align)) <==> Padded(size, Unit(align)) >= ADDRESS_SPACE
  {
    hide Unit;
    UnitOf32();
    UnitAdds(align, 32 - align);
    PaddedIsLeast(size, Unit(align));
    RoundsPast(size, Unit(align), Unit(32 - align));
  }

  predicate PadOverflows(size: nat, unit: nat)
    requires unit > 0
  {
    size % unit != 0 && size > ADDRESS_SPACE - 1 - (unit - 1)
  }

  lemma PaddedIs(size: nat, unit: nat, padded: nat)
    requires unit > 0
    requires padded == if size % unit != 0 then (size + (unit - 1)) / unit * unit else size
    ensures padded == Padded(size, unit) && (padded > 0 <==> size > 0)
  {
    PaddedIsLeast(size, unit);
    AlignUpIsLeast(size, unit);
  }

  lemma TotalPrefix(s: seq<Span>, i: nat)
    requires i <= |s|
    ensures Total(s[..i]) == if i == 0 then 0 else Total(s[..i - 1]) + s[i - 1].size
  {
    if i > 0 { assert s[..i][..i - 1] == s[..i - 1]; }
  }
}
