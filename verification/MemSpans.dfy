/** Free lists as values: address-sorted spans with a gap between any two
    (source/arm11/allocator/mem_pool.cpp). */
module MemSpans {
  datatype Span = Span(base: nat, size: nat) {
    function End(): nat { base + size }
    predicate Has(x: nat) { base <= x < base + size }
  }

  function Inserted<T>(s: seq<T>, i: nat, x: T): (r: seq<T>)
    requires i <= |s|
    ensures |r| == |s| + 1
    ensures forall k {:trigger r[k]} :: 0 <= k < |r| ==> r[k] == if k < i then s[k] else if k == i then x else s[k - 1]
  {
    s[..i] + [x] + s[i..]
  }

  function Dropped<T>(s: seq<T>, i: nat): (r: seq<T>)
    requires i < |s|
    ensures |r| == |s| - 1
    ensures forall k {:trigger r[k]} :: 0 <= k < |r| ==> r[k] == if k < i then s[k] else s[k + 1]
  {
    s[..i] + s[i + 1..]
  }

  const ADDRESS_SPACE: nat := 0x1_0000_0000

  // Sorted, disjoint and maximally coalesced.
  predicate Canonical(s: seq<Span>) {
    && (forall i :: 0 <= i < |s| ==> s[i].size > 0 && s[i].End() <= ADDRESS_SPACE)
    && (forall i, j :: 0 <= i < j < |s| ==> s[i].End() < s[j].base)
  }

  // In any order, empty blocks and blocks that touch among them, but no address twice.
  ghost predicate Loose(s: seq<Span>) {
    && (forall i :: 0 <= i < |s| ==> s[i].End() <= ADDRESS_SPACE)
    && (forall i, j, x: nat {:trigger s[i].Has(x), s[j].Has(x)} :: 0 <= i < j < |s| && s[i].Has(x) ==> !s[j].Has(x))
  }

  lemma CanonicalIsLoose(s: seq<Span>)
    requires Canonical(s)
    ensures Loose(s)
  {
  }

  predicate Covers(s: seq<Span>, x: nat) {
    exists i :: 0 <= i < |s| && s[i].Has(x)
  }

  function Total(s: seq<Span>): nat {
    if s == [] then 0 else Total(s[..|s| - 1]) + s[|s| - 1].size
  }

  lemma {:induction false} TotalConcat(a: seq<Span>, b: seq<Span>)
    ensures Total(a + b) == Total(a) + Total(b)
    decreases |b|
  {
    if b == [] {
      assert a + b == a;
    } else {
      TotalConcat(a, b[..|b| - 1]);
      assert (a + b)[..|a + b| - 1] == a + b[..|b| - 1];
    }
  }

  lemma TotalSplit(s: seq<Span>, i: nat)
    requires i < |s|
    ensures Total(s) == Total(s[..i]) + s[i].size + Total(s[i + 1..])
  {
    assert s == s[..i] + ([s[i]] + s[i + 1..]);
    TotalConcat(s[..i], [s[i]] + s[i + 1..]);
    TotalConcat([s[i]], s[i + 1..]);
    assert Total([s[i]]) == s[i].size by { assert [s[i]][..0] == []; }
  }

  lemma TotalReplaced(s: seq<Span>, i: nat, r: seq<Span>)
    requires i < |s|
    ensures Total(s[..i] + r + s[i + 1..]) + s[i].size == Total(s) + Total(r)
  {
    TotalSplit(s, i);
    TotalConcat(s[..i] + r, s[i + 1..]);
    TotalConcat(s[..i], r);
  }

  lemma CoversReplaced(s: seq<Span>, i: nat, r: seq<Span>, x: nat)
    requires i < |s|
    ensures Covers(s, x) <==> Covers(s[..i], x) || s[i].Has(x) || Covers(s[i + 1..], x)
    ensures Covers(s[..i] + r + s[i + 1..], x) <==> Covers(s[..i], x) || Covers(r, x) || Covers(s[i + 1..], x)
  {
    CoversConcat(s[..i] + r, s[i + 1..], x);
    CoversConcat(s[..i], r, x);
    assert s == s[..i] + [s[i]] + s[i + 1..];
    CoversConcat(s[..i] + [s[i]], s[i + 1..], x);
    CoversConcat(s[..i], [s[i]], x);
    assert Covers([s[i]], x) <==> s[i].Has(x) by { assert [s[i]][0] == s[i]; }
  }

  lemma CoversConcat(a: seq<Span>, b: seq<Span>, x: nat)
    ensures Covers(a + b, x) <==> Covers(a, x) || Covers(b, x)
  {
    if Covers(a, x) {
      var i :| 0 <= i < |a| && a[i].Has(x);
      assert (a + b)[i].Has(x);
    }
    if Covers(b, x) {
      var i :| 0 <= i < |b| && b[i].Has(x);
      assert (a + b)[|a| + i].Has(x);
    }
  }

  // -- The set of addresses determines the list --

  lemma {:induction false} SameAddresses(s: seq<Span>, t: seq<Span>)
    requires Canonical(s) && Canonical(t) && forall x: nat :: Covers(s, x) <==> Covers(t, x)
    ensures s == t
    decreases |s| + |t|
  {
    hide Covers, Canonical;
    if s == [] || t == [] {
      SameEmpty(s, t);
    } else {
      SameFirst(s, t);
      forall x: nat ensures Covers(s[1..], x) <==> Covers(t[1..], x) {
        TailCovers(s, x);
        TailCovers(t, x);
      }
      TailIsCanonical(s);
      TailIsCanonical(t);
      SameAddresses(s[1..], t[1..]);
      assert s == [s[0]] + s[1..] && t == [t[0]] + t[1..];
    }
  }

  lemma SameEmpty(s: seq<Span>, t: seq<Span>)
    requires Canonical(s) && Canonical(t) && (s == [] || t == []) && forall x: nat :: Covers(s, x) <==> Covers(t, x)
    ensures s == t
  {
    if s != [] { CoversAt(s, 0, s[0].base); }
    if t != [] { CoversAt(t, 0, t[0].base); }
  }

  lemma TailIsCanonical(s: seq<Span>)
    requires Canonical(s) && s != []
    ensures Canonical(s[1..])
  {
  }

  lemma TailCovers(s: seq<Span>, x: nat)
    requires Canonical(s) && s != []
    ensures Covers(s[1..], x) <==> Covers(s, x) && !s[0].Has(x)
  {
    if Covers(s[1..], x) {
      var i :| 0 <= i < |s[1..]| && s[1..][i].Has(x);
      assert s[i + 1].Has(x) && s[0].End() < s[i + 1].base;
    }
    if Covers(s, x) && !s[0].Has(x) {
      var i :| 0 <= i < |s| && s[i].Has(x);
      assert s[1..][i - 1].Has(x);
    }
  }

  // The lowest covered address and the first gap behind it.
  lemma SameFirst(s: seq<Span>, t: seq<Span>)
    requires Canonical(s) && Canonical(t) && s != [] && t != []
    requires forall x: nat :: Covers(s, x) <==> Covers(t, x)
    ensures s[0] == t[0]
  {
    FirstStarts(s, t);
    FirstStarts(t, s);
    FirstEnds(s, t);
    FirstEnds(t, s);
  }

  lemma FirstStarts(s: seq<Span>, t: seq<Span>)
    requires Canonical(s) && Canonical(t) && s != [] && t != []
    requires forall x: nat :: Covers(s, x) ==> Covers(t, x)
    ensures t[0].base <= s[0].base
  {
    assert s[0].Has(s[0].base);
    assert Covers(s, s[0].base);
    var i :| 0 <= i < |t| && t[i].Has(s[0].base);
  }

  lemma FirstEnds(s: seq<Span>, t: seq<Span>)
    requires Canonical(s) && Canonical(t) && s != [] && t != [] && s[0].base == t[0].base
    requires forall x: nat :: Covers(t, x) ==> Covers(s, x)
    ensures t[0].End() <= s[0].End()
  {
    GapBehind(s, 0);
    CoversAt(t, 0, s[0].End());
  }

  lemma CoversAt(s: seq<Span>, i: nat, x: nat)
    requires i < |s|
    ensures s[i].Has(x) ==> Covers(s, x)
  {
  }

  lemma GapBehind(s: seq<Span>, i: nat)
    requires Canonical(s) && i < |s|
    ensures !Covers(s, s[i].End())
  {
    forall j | 0 <= j < |s| ensures !s[j].Has(s[i].End()) {
      if j > i { assert s[i].End() < s[j].base; }
      if j < i { assert s[j].End() < s[i].base; }
    }
  }

  // -- Aligned free ranges --

  ghost predicate RangeFree(s: seq<Span>, a: nat, n: nat) {
    forall x {:trigger Covers(s, x)} :: a <= x < a + n ==> Covers(s, x)
  }

  // A free range lies in one block.
  lemma RangeInBlock(s: seq<Span>, a: nat, n: nat) returns (i: nat)
    requires Canonical(s) && n > 0 && RangeFree(s, a, n)
    ensures i < |s| && s[i].base <= a && a + n <= s[i].End()
  {
    assert Covers(s, a);
    i :| 0 <= i < |s| && s[i].Has(a);
    GapBehind(s, i);
  }

  lemma MulDistributes(b: int, x: int, d: int)
    ensures b * (x + 1 + d) == b * x + b + b * d
  {
  }

  lemma MulIsNatural(b: nat, d: nat)
    ensures b * d >= 0
  {
  }

  lemma MulStep(b: nat, x: int, y: int)
    ensures x < y ==> b * x + b <= b * y
  {
    if x < y {
      MulDistributes(b, x, y - x - 1);
      MulIsNatural(b, y - x - 1);
    }
  }

  lemma DivUnique(a: int, b: nat, q: int, r: nat)
    requires r < b && a == b * q + r
    ensures a / b == q && a % b == r
  {
    MulStep(b, q, a / b);
    MulStep(b, a / b, q);
  }

  // The least multiple of unit from base on.
  function AlignUp(base: nat, unit: nat): (a: nat)
    requires unit > 0
  {
    if base % unit > 0 then base + (unit - base % unit) else base
  }

  lemma AlignUpIsLeast(base: nat, unit: nat)
    requires unit > 0
    ensures AlignUp(base, unit) % unit == 0 && base <= AlignUp(base, unit) < base + unit
    ensures forall a: nat :: base <= a && a % unit == 0 ==> AlignUp(base, unit) <= a
  {
    var q, r := base / unit, base % unit;
    assert base == unit * q + r;
    if r > 0 {
      assert unit * (q + 1) == unit * q + unit;
      DivUnique(unit * (q + 1), unit, q + 1, 0);
      forall a: nat | base <= a && a % unit == 0 ensures unit * (q + 1) <= a {
        NoMultipleBetween(unit, q, r, a);
      }
    }
  }

  lemma NoMultipleBetween(unit: nat, q: nat, r: nat, a: nat)
    requires 0 < r < unit && unit * q + r <= a && a % unit == 0
    ensures unit * q + unit <= a
  {
    assert a == unit * (a / unit);
    MulStep(unit, q, a / unit);
    MulStep(unit, a / unit, q);
  }

  // The size rounded up to the unit, when it is not a multiple already.
  function Padded(size: nat, unit: nat): nat
    requires unit > 0
  {
    if size % unit != 0 then (size + (unit - 1)) / unit * unit else size
  }

  lemma PaddedIsLeast(size: nat, unit: nat)
    requires unit > 0
    ensures Padded(size, unit) == AlignUp(size, unit)
  {
    var q, r := size / unit, size % unit;
    assert size == unit * q + r;
    if r > 0 {
      assert unit * (q + 1) == unit * q + unit;
      DivUnique(size + (unit - 1), unit, q + 1, r - 1);
    }
  }

  // -- First fit --

  // A block holds n bytes behind the bytes lost to alignment.
  predicate Fits(b: Span, unit: nat, n: nat)
    requires unit > 0
  {
    AlignUp(b.base, unit) + n <= b.End()
  }

  ghost predicate AlignedFree(s: seq<Span>, unit: nat, n: nat, a: nat)
    requires unit > 0
  {
    a % unit == 0 && RangeFree(s, a, n)
  }

  // The first block that fits gives the lowest aligned free range.
  lemma FirstFitIsLowest(s: seq<Span>, unit: nat, n: nat, i: nat)
    requires Canonical(s) && unit > 0 && n > 0 && i < |s| && Fits(s[i], unit, n)
    requires forall j :: 0 <= j < i ==> !Fits(s[j], unit, n)
    ensures var a := AlignUp(s[i].base, unit);
            AlignedFree(s, unit, n, a) && forall b: nat :: AlignedFree(s, unit, n, b) ==> a <= b
  {
    var a := AlignUp(s[i].base, unit);
    AlignUpIsLeast(s[i].base, unit);
    forall x | a <= x < a + n ensures Covers(s, x) { assert s[i].Has(x); }
    forall b: nat | AlignedFree(s, unit, n, b) ensures a <= b {
      var k := RangeInBlock(s, b, n);
      FitsWhere(s[k], unit, n, b);
      if i < k { assert s[i].End() < s[k].base; }
    }
  }

  lemma FitsWhere(b: Span, unit: nat, n: nat, a: nat)
    requires unit > 0 && b.base <= a && a + n <= b.End() && a % unit == 0
    ensures Fits(b, unit, n) && AlignUp(b.base, unit) <= a
  {
    AlignUpIsLeast(b.base, unit);
  }

  // When no block fits there is no aligned free range.
  lemma NoFit(s: seq<Span>, unit: nat, n: nat, b: nat)
    requires Canonical(s) && unit > 0 && n > 0 && forall j :: 0 <= j < |s| ==> !Fits(s[j], unit, n)
    ensures !AlignedFree(s, unit, n, b)
  {
    if AlignedFree(s, unit, n, b) {
      var k := RangeInBlock(s, b, n);
      FitsWhere(s[k], unit, n, b);
      assert false;
    }
  }

  // -- Taking a range out of a block --

  function Piece(from: nat, to: nat): seq<Span> {
    if from < to then [Span(from, to - from)] else []
  }

  // Block i without a..a+m.
  function Carved(s: seq<Span>, i: nat, a: nat, m: nat): seq<Span>
    requires i < |s|
  {
    s[..i] + (Piece(s[i].base, a) + Piece(a + m, s[i].End())) + s[i + 1..]
  }

  lemma ReplaceCanonical(s: seq<Span>, i: nat, r: seq<Span>)
    requires Canonical(s) && i < |s| && Canonical(r)
    requires forall k :: 0 <= k < |r| ==> s[i].base <= r[k].base && r[k].End() <= s[i].End()
    ensures Canonical(s[..i] + r + s[i + 1..])
  {
    var t := s[..i] + r + s[i + 1..];
    forall p, q | 0 <= p < q < |t| ensures t[p].End() < t[q].base {
      if p < i && q >= i + |r| {
        assert t[q] == s[q - |r| + 1];
      }
    }
  }

  lemma CarveIsCanonical(s: seq<Span>, i: nat, a: nat, m: nat)
    requires Canonical(s) && i < |s| && m > 0 && s[i].base <= a && a + m <= s[i].End()
    ensures Canonical(Carved(s, i, a, m))
  {
    var r := Piece(s[i].base, a) + Piece(a + m, s[i].End());
    ReplaceCanonical(s, i, r);
  }

  // The free addresses split into the range taken and what stays free.
  lemma CarveSplits(s: seq<Span>, i: nat, a: nat, m: nat, x: nat)
    requires Loose(s) && i < |s| && s[i].base <= a && a + m <= s[i].End()
    ensures Covers(Carved(s, i, a, m), x) <==> Covers(s, x) && !(a <= x < a + m)
  {
    hide Covers, Loose, Piece;
    var left, right := Piece(s[i].base, a), Piece(a + m, s[i].End());
    CoversReplaced(s, i, left + right, x);
    CoversConcat(left, right, x);
    PieceCovers(s[i].base, a, x);
    PieceCovers(a + m, s[i].End(), x);
    OthersElsewhere(s, i, x);
  }

  lemma CarveIsLoose(s: seq<Span>, i: nat, a: nat, m: nat)
    requires Loose(s) && i < |s| && s[i].base <= a && a + m <= s[i].End()
    ensures Loose(Carved(s, i, a, m))
  {
    ReplaceLoose(s, i, Piece(s[i].base, a) + Piece(a + m, s[i].End()));
  }

  lemma CarveTotal(s: seq<Span>, i: nat, a: nat, m: nat)
    requires i < |s| && s[i].base <= a && a + m <= s[i].End()
    ensures Total(Carved(s, i, a, m)) + m == Total(s)
  {
    hide Total, Piece;
    var left, right := Piece(s[i].base, a), Piece(a + m, s[i].End());
    TotalReplaced(s, i, left + right);
    TotalConcat(left, right);
    PieceTotal(s[i].base, a);
    PieceTotal(a + m, s[i].End());
  }

  lemma PieceCovers(from: nat, to: nat, x: nat)
    ensures Covers(Piece(from, to), x) <==> from <= x < to
  {
    if from < to { assert Piece(from, to)[0] == Span(from, to - from); }
  }

  lemma PieceTotal(from: nat, to: nat)
    requires from <= to
    ensures Total(Piece(from, to)) == to - from
  {
    if from < to { assert Piece(from, to)[..0] == []; }
  }

  lemma OthersElsewhere(s: seq<Span>, i: nat, x: nat)
    requires Loose(s) && i < |s|
    ensures s[i].Has(x) ==> !Covers(s[..i], x) && !Covers(s[i + 1..], x)
  {
    var l, r := s[..i], s[i + 1..];
    forall k | 0 <= k < |l| && s[i].Has(x) ensures !l[k].Has(x) { assert l[k] == s[k]; }
    forall k | 0 <= k < |r| && s[i].Has(x) ensures !r[k].Has(x) { assert r[k] == s[i + 1 + k]; }
  }

  // Where the k-th block comes from when block i gave way to n blocks.
  function Origin(i: nat, n: nat, k: nat): (j: nat) {
    if k < i then k else if k < i + n then i else k - n + 1
  }

  lemma OriginHas(s: seq<Span>, i: nat, r: seq<Span>, t: seq<Span>)
    requires i < |s| && t == s[..i] + r + s[i + 1..]
    requires forall k, x: nat :: 0 <= k < |r| && r[k].Has(x) ==> s[i].Has(x)
    ensures forall k, x: nat {:trigger t[k].Has(x)} :: 0 <= k < |t| && t[k].Has(x) ==> s[Origin(i, |r|, k)].Has(x)
  {
  }

  // A block gives way to blocks that hold some of its addresses.
  lemma ReplaceLoose(s: seq<Span>, i: nat, r: seq<Span>)
    requires Loose(s) && i < |s| && Loose(r) && forall k, x: nat :: 0 <= k < |r| && r[k].Has(x) ==> s[i].Has(x)
    ensures Loose(s[..i] + r + s[i + 1..])
  {
    var t := s[..i] + r + s[i + 1..];
    OriginHas(s, i, r, t);
    forall p, q, x: nat | 0 <= p < q < |t| && t[p].Has(x) ensures !t[q].Has(x) {
      if i <= p < i + |r| { assert t[p] == r[p - i]; }
      if i <= q < i + |r| { assert t[q] == r[q - i]; }
    }
  }

  // The list after block i was cut short, with and without a block for the tail.
  lemma CarvedWithTail(s: seq<Span>, i: nat, w: nat, n: nat)
    requires i < |s| && w > 0 && w + n < s[i].size
    ensures var a, t := s[i].base + w, s[i := Span(s[i].base, w)];
            Inserted(t, i + 1, Span(a + n, s[i].size - w - n)) == Carved(s, i, a, n)
  {
    var a, t := s[i].base + w, s[i := Span(s[i].base, w)];
    assert t[..i + 1] == s[..i] + [Span(s[i].base, w)] && t[i + 1..] == s[i + 1..];
  }

  lemma CarvedToEnd(s: seq<Span>, i: nat, w: nat)
    requires i < |s| && 0 < w <= s[i].size
    ensures s[i := Span(s[i].base, w)] == Carved(s, i, s[i].base + w, s[i].size - w)
  {
  }

  lemma CarvedFront(s: seq<Span>, i: nat, n: nat)
    requires i < |s| && n <= s[i].size
    ensures Carved(s, i, s[i].base, n) ==
            if n == s[i].size then Dropped(s, i) else s[i := Span(s[i].base + n, s[i].size - n)]
  {
    assert Piece(s[i].base, s[i].base) == [];
  }

  // Taking nothing at address a of block i: the addresses stay, but unless a is at an end
  // of the block the list is left with two blocks that touch.
  lemma EmptyCarve(s: seq<Span>, i: nat, a: nat)
    requires Canonical(s) && i < |s| && s[i].base <= a <= s[i].End()
    ensures forall x: nat :: Covers(Carved(s, i, a, 0), x) <==> Covers(s, x)
    ensures Canonical(Carved(s, i, a, 0)) <==> a == s[i].base || a == s[i].End()
  {
    var left, right, t := Piece(s[i].base, a), Piece(a, s[i].End()), Carved(s, i, a, 0);
    CanonicalIsLoose(s);
    forall x: nat ensures Covers(t, x) <==> Covers(s, x) { CarveSplits(s, i, a, 0, x); }
    if a == s[i].base || a == s[i].End() {
      assert left + right == [s[i]];
      assert t == s;
    } else {
      assert t[i] == left[0] && t[i + 1] == right[0];
    }
  }

  // t is s with the range c taken out of it, and still coalesced unless c is empty.
  ghost predicate Taken(s: seq<Span>, c: Span, t: seq<Span>) {
    && Loose(t) && RangeFree(s, c.base, c.size) && c.End() <= ADDRESS_SPACE && (Canonical(s) && c.size > 0 ==> Canonical(t))
    && forall x: nat :: Covers(t, x) <==> Covers(s, x) && !c.Has(x)
  }

  lemma CarveIsTaken(s: seq<Span>, i: nat, c: Span)
    requires Loose(s) && i < |s| && s[i].base <= c.base && c.End() <= s[i].End()
    ensures Taken(s, c, Carved(s, i, c.base, c.size))
    ensures Total(Carved(s, i, c.base, c.size)) + c.size == Total(s)
  {
    assert s[i].End() <= ADDRESS_SPACE;
    hide Canonical, Carved, Total, Loose, Covers;
    CarveIsLoose(s, i, c.base, c.size);
    if Canonical(s) && c.size > 0 { CarveIsCanonical(s, i, c.base, c.size); }
    CarveTotal(s, i, c.base, c.size);
    forall x | c.base <= x < c.base + c.size ensures Covers(s, x) { CoversAt(s, i, x); }
    forall x: nat ensures Covers(Carved(s, i, c.base, c.size), x) <==> Covers(s, x) && !c.Has(x) {
      CarveSplits(s, i, c.base, c.size, x);
    }
  }

  // A cut left by an empty chunk can cost: all six bytes from address 2 on are free, but no
  // block holds them, so that a request for them is refused.
  lemma CutRefuses(s: seq<Span>, t: seq<Span>)
    requires s == [Span(2, 6)] && t == Carved(s, 0, AlignUp(2, 4), 0)
    ensures Canonical(s) && Taken(s, Span(4, 0), t)
    ensures AlignedFree(t, 2, 6, 2) && forall j :: 0 <= j < |t| ==> !Fits(t[j], 2, 6)
  {
    assert s[..0] + (Piece(2, 4) + Piece(4, 8)) + s[1..] == [Span(2, 2), Span(4, 4)];
    CanonicalIsLoose(s);
    hide Loose, Carved;
    CarveIsTaken(s, 0, Span(4, 0));
    TwoPieces(t);
  }

  lemma TwoPieces(t: seq<Span>)
    requires t == [Span(2, 2), Span(4, 4)]
    ensures AlignedFree(t, 2, 6, 2) && forall j :: 0 <= j < |t| ==> !Fits(t[j], 2, 6)
  {
    forall x | 2 <= x < 8 ensures Covers(t, x) { assert if x < 4 then t[0].Has(x) else t[1].Has(x); }
  }

  // It heals when the block in front of it is taken as a whole and given back.
  lemma CutHeals(s: seq<Span>, i: nat, a: nat)
    requires i < |s| && s[i].base < a < s[i].End()
    ensures var t := Carved(s, i, a, 0);
            && i + 1 < |t| && t[i].End() == t[i + 1].base
            && Dropped(t, i)[i := Span(t[i].base, t[i + 1].size + t[i].size)] == s
  {
    var t := Carved(s, i, a, 0);
    assert t == s[..i] + [Span(s[i].base, a - s[i].base), Span(a, s[i].End() - a)] + s[i + 1..];
    var u := Dropped(t, i)[i := Span(t[i].base, t[i + 1].size + t[i].size)];
    forall k | 0 <= k < |s| ensures u[k] == s[k] {}
  }

  // -- Giving a range back --

  // Blocks i..k give way to one block m.
  function Merged(s: seq<Span>, i: nat, k: nat, m: Span): seq<Span>
    requires i <= k <= |s|
  {
    s[..i] + [m] + s[k..]
  }

  lemma MergeIsCanonical(s: seq<Span>, i: nat, k: nat, m: Span)
    requires Canonical(s) && i <= k <= |s| && m.size > 0 && m.End() <= ADDRESS_SPACE
    requires i > 0 ==> s[i - 1].End() < m.base
    requires k < |s| ==> m.End() < s[k].base
    ensures Canonical(Merged(s, i, k, m))
  {
    var t := Merged(s, i, k, m);
    forall p, q | 0 <= p < q < |t| ensures t[p].End() < t[q].base {
      var a, b := if p <= i then p else p - i - 1 + k, if q <= i then q else q - i - 1 + k;
      if p < i { assert t[p] == s[p] && (p < i - 1 ==> s[p].End() < s[i - 1].base); }
      if q > i { assert t[q] == s[b] && (b > k ==> s[k].End() < s[b].base); }
    }
  }

  lemma MergeCovers(s: seq<Span>, i: nat, k: nat, m: Span, x: nat)
    requires i <= k <= |s|
    ensures Covers(Merged(s, i, k, m), x) <==> Covers(s[..i], x) || m.Has(x) || Covers(s[k..], x)
    ensures Covers(s, x) <==> Covers(s[..i], x) || Covers(s[i..k], x) || Covers(s[k..], x)
  {
    CoversConcat(s[..i] + [m], s[k..], x);
    CoversConcat(s[..i], [m], x);
    assert Covers([m], x) <==> m.Has(x) by { assert [m][0] == m; }
    assert s == s[..i] + s[i..k] + s[k..];
    CoversConcat(s[..i] + s[i..k], s[k..], x);
    CoversConcat(s[..i], s[i..k], x);
  }

  // Every address of c is allocated.
  ghost predicate Apart(s: seq<Span>, c: Span) {
    forall x: nat :: c.Has(x) ==> !Covers(s, x)
  }

  // t is s with c given back, and still coalesced unless c is empty.
  ghost predicate Released(s: seq<Span>, c: Span, t: seq<Span>) {
    && Loose(t) && (Canonical(s) && c.size > 0 ==> Canonical(t))
    && forall x: nat :: Covers(t, x) <==> Covers(s, x) || c.Has(x)
  }

  lemma MergeReleases(s: seq<Span>, i: nat, k: nat, m: Span, c: Span)
    requires Canonical(s) && i <= k <= |s| && m.size > 0 && m.End() <= ADDRESS_SPACE
    requires i > 0 ==> s[i - 1].End() < m.base
    requires k < |s| ==> m.End() < s[k].base
    requires forall x: nat :: m.Has(x) <==> c.Has(x) || Covers(s[i..k], x)
    ensures Released(s, c, Merged(s, i, k, m))
  {
    hide Covers, Canonical;
    MergeIsCanonical(s, i, k, m);
    CanonicalIsLoose(Merged(s, i, k, m));
    forall x: nat ensures Covers(Merged(s, i, k, m), x) <==> Covers(s, x) || c.Has(x) {
      MergeCovers(s, i, k, m, x);
    }
  }

  // A block of its own.
  lemma ReleaseAlone(s: seq<Span>, i: nat, c: Span)
    requires Canonical(s) && i <= |s| && c.size > 0 && c.End() <= ADDRESS_SPACE
    requires (i > 0 ==> s[i - 1].End() < c.base) && (i < |s| ==> c.End() < s[i].base)
    ensures Released(s, c, Merged(s, i, i, c))
  {
    assert s[i..i] == [];
    MergeReleases(s, i, i, c, c);
  }

  // In front of block i.
  lemma ReleaseBefore(s: seq<Span>, i: nat, c: Span)
    requires Canonical(s) && i < |s| && c.size > 0 && c.End() == s[i].base && (i > 0 ==> s[i - 1].End() < c.base)
    ensures Released(s, c, Merged(s, i, i + 1, Span(c.base, c.size + s[i].size)))
  {
    if i + 1 < |s| { assert s[i].End() < s[i + 1].base; }
    var m := Span(c.base, c.size + s[i].size);
    forall x: nat ensures m.Has(x) <==> c.Has(x) || Covers(s[i..i + 1], x) { OneCovers(s, i, x); }
    MergeReleases(s, i, i + 1, m, c);
  }

  lemma OneCovers(s: seq<Span>, i: nat, x: nat)
    requires i < |s|
    ensures Covers(s[i..i + 1], x) <==> s[i].Has(x)
  {
    assert s[i..i + 1][0] == s[i];
  }

  lemma TwoCover(s: seq<Span>, i: nat, x: nat)
    requires i + 1 < |s|
    ensures Covers(s[i..i + 2], x) <==> s[i].Has(x) || s[i + 1].Has(x)
  {
    assert s[i..i + 2] == s[i..i + 1] + s[i + 1..i + 2];
    OneCovers(s, i, x);
    OneCovers(s, i + 1, x);
    CoversConcat(s[i..i + 1], s[i + 1..i + 2], x);
  }

  // How far the block that c extends reaches: the next one joins when it touches.
  function JoinsNext(s: seq<Span>, i: nat, c: Span): bool {
    i + 1 < |s| && s[i + 1].base == c.End()
  }

  // Behind block i.
  lemma ReleaseBehind(s: seq<Span>, i: nat, c: Span)
    requires Canonical(s) && i < |s| && c.size > 0 && c.End() <= ADDRESS_SPACE && s[i].End() == c.base
    requires i + 1 < |s| ==> c.End() <= s[i + 1].base
    ensures var k := if JoinsNext(s, i, c) then i + 2 else i + 1;
            var n := s[i].size + c.size + if JoinsNext(s, i, c) then s[i + 1].size else 0;
            Released(s, c, Merged(s, i, k, Span(s[i].base, n)))
  {
    hide Covers, Merged;
    if i > 0 { assert s[i - 1].End() < s[i].base; }
    if JoinsNext(s, i, c) {
      ReleaseBetween(s, i, c);
    } else {
      var m := Span(s[i].base, s[i].size + c.size);
      forall x: nat ensures m.Has(x) <==> c.Has(x) || Covers(s[i..i + 1], x) { OneCovers(s, i, x); }
      MergeReleases(s, i, i + 1, m, c);
    }
  }

  // Between blocks i and i + 1, which it joins.
  lemma ReleaseBetween(s: seq<Span>, i: nat, c: Span)
    requires Canonical(s) && i + 1 < |s| && c.size > 0 && s[i].End() == c.base && s[i + 1].base == c.End()
    ensures Released(s, c, Merged(s, i, i + 2, Span(s[i].base, s[i].size + c.size + s[i + 1].size)))
  {
    hide Covers, Merged;
    if i > 0 { assert s[i - 1].End() < s[i].base; }
    if i + 2 < |s| { assert s[i + 1].End() < s[i + 2].base; }
    var m := Span(s[i].base, s[i].size + c.size + s[i + 1].size);
    forall x: nat ensures m.Has(x) <==> c.Has(x) || Covers(s[i..i + 2], x) { TwoCover(s, i, x); }
    MergeReleases(s, i, i + 2, m, c);
  }

  // Block i after merging its successors as long as they touch.
  function Coalesced(s: seq<Span>, i: nat): seq<Span>
    requires i < |s|
    decreases |s|
  {
    if i + 1 < |s| && s[i].End() == s[i + 1].base
    then Coalesced(Merged(s, i, i + 2, Span(s[i].base, s[i].size + s[i + 1].size)), i)
    else s
  }

  lemma CoalescedStep(s: seq<Span>, i: nat)
    requires i < |s|
    ensures Coalesced(s, i) ==
            if i + 1 < |s| && s[i].End() == s[i + 1].base
            then Coalesced(Merged(s, i, i + 2, Span(s[i].base, s[i].size + s[i + 1].size)), i) else s
  {
  }

  // Among coalesced blocks, at most one touches.
  lemma CoalescedOnce(s: seq<Span>, i: nat, m: Span)
    requires Canonical(s) && i < |s| && m.base == s[i].base && (i + 1 < |s| ==> m.End() <= s[i + 1].base)
    ensures Coalesced(s[i := m], i) ==
            if i + 1 < |s| && m.End() == s[i + 1].base
            then Merged(s, i, i + 2, Span(m.base, m.size + s[i + 1].size)) else Merged(s, i, i + 1, m)
  {
    var t := s[i := m];
    if i + 1 < |s| && m.End() == s[i + 1].base {
      var u := Merged(t, i, i + 2, Span(m.base, m.size + s[i + 1].size));
      assert u == Merged(s, i, i + 2, Span(m.base, m.size + s[i + 1].size));
      if i + 2 < |s| { assert s[i + 1].End() < s[i + 2].base && u[i + 1] == s[i + 2]; }
    }
  }

  // -- In a list that need not be coalesced --

  lemma InsertedIsLoose(s: seq<Span>, i: nat, c: Span)
    requires Loose(s) && Apart(s, c) && c.End() <= ADDRESS_SPACE && i <= |s|
    ensures Loose(Inserted(s, i, c))
    ensures forall x: nat :: Covers(Inserted(s, i, c), x) <==> Covers(s, x) || c.Has(x)
  {
    var t := Inserted(s, i, c);
    forall x: nat, k | 0 <= k < |s| && c.Has(x) ensures !s[k].Has(x) { assert !Covers(s, x); }
    forall x: nat ensures Covers(t, x) <==> Covers(s, x) || c.Has(x) {
      if c.Has(x) { assert t[i].Has(x); }
      if Covers(s, x) {
        var k :| 0 <= k < |s| && s[k].Has(x);
        assert t[if k < i then k else k + 1].Has(x);
      }
    }
  }

  // Block i takes over the addresses of m, which no other block has.
  lemma WidenedIsLoose(s: seq<Span>, i: nat, m: Span, c: Span)
    requires Loose(s) && Apart(s, c) && i < |s| && m.End() <= ADDRESS_SPACE
    requires forall x: nat :: m.Has(x) <==> s[i].Has(x) || c.Has(x)
    ensures Loose(s[i := m]) && forall x: nat :: Covers(s[i := m], x) <==> Covers(s, x) || c.Has(x)
  {
    var t := s[i := m];
    forall x: nat, k | 0 <= k < |s| && c.Has(x) ensures !s[k].Has(x) { assert !Covers(s, x); }
    forall x: nat ensures Covers(t, x) <==> Covers(s, x) || c.Has(x) {
      if c.Has(x) { assert t[i].Has(x); }
      if Covers(s, x) {
        var k :| 0 <= k < |s| && s[k].Has(x);
        assert t[k].Has(x);
      }
    }
  }

  lemma MergedIsLoose(s: seq<Span>, i: nat)
    requires Loose(s) && i + 1 < |s| && s[i].End() == s[i + 1].base
    ensures var t := Merged(s, i, i + 2, Span(s[i].base, s[i].size + s[i + 1].size));
            Loose(t) && forall x: nat :: Covers(t, x) <==> Covers(s, x)
  {
    var m := Span(s[i].base, s[i].size + s[i + 1].size);
    var t := Merged(s, i, i + 2, m);
    forall x: nat ensures Covers(t, x) <==> Covers(s, x) {
      MergeCovers(s, i, i + 2, m, x);
      TwoCover(s, i, x);
    }
    forall p, q, x: nat | 0 <= p < q < |t| && t[p].Has(x) ensures !t[q].Has(x) {
      assert m.Has(x) ==> s[i].Has(x) || s[i + 1].Has(x);
      if p < i { assert t[p] == s[p]; }
      if q > i { assert t[q] == s[q + 1]; }
      if p > i { assert t[p] == s[p + 1]; }
      if q < i { assert t[q] == s[q]; }
    }
  }

  lemma {:induction false} CoalescedIsLoose(s: seq<Span>, i: nat)
    requires Loose(s) && i < |s|
    ensures Loose(Coalesced(s, i)) && forall x: nat :: Covers(Coalesced(s, i), x) <==> Covers(s, x)
    decreases |s|
  {
    hide Loose, Covers;
    if i + 1 < |s| && s[i].End() == s[i + 1].base {
      MergedIsLoose(s, i);
      CoalescedIsLoose(Merged(s, i, i + 2, Span(s[i].base, s[i].size + s[i + 1].size)), i);
    }
  }

  // The four ways Deallocate changes the list all give the range back.
  lemma InsertedReleases(s: seq<Span>, i: nat, c: Span)
    requires Loose(s) && Apart(s, c) && c.End() <= ADDRESS_SPACE && i <= |s|
    requires Canonical(s) && c.size > 0 ==> forall j :: 0 <= j < i ==> s[j].End() < c.base
    requires i < |s| ==> s[i].base > c.base && c.End() != s[i].base
    ensures Released(s, c, Inserted(s, i, c))
  {
    hide Canonical, Apart, Loose;
    InsertedIsLoose(s, i, c);
    if Canonical(s) && c.size > 0 {
      if i < |s| { ApartFrom(s, i, c); }
      ReleaseAlone(s, i, c);
      assert Inserted(s, i, c) == Merged(s, i, i, c);
    }
  }

  lemma LeftReleases(s: seq<Span>, i: nat, c: Span)
    requires Loose(s) && Apart(s, c) && i < |s| && c.End() == s[i].base
    requires Canonical(s) && c.size > 0 ==> forall j :: 0 <= j < i ==> s[j].End() < c.base
    ensures Released(s, c, s[i := Span(c.base, s[i].size + c.size)])
  {
    WidenedIsLoose(s, i, Span(c.base, s[i].size + c.size), c);
    hide Canonical, Loose, Apart;
    if Canonical(s) && c.size > 0 {
      ReleaseBefore(s, i, c);
      assert s[i := Span(c.base, s[i].size + c.size)] == Merged(s, i, i + 1, Span(c.base, c.size + s[i].size));
    }
  }

  lemma RightReleases(s: seq<Span>, i: nat, c: Span)
    requires Loose(s) && Apart(s, c) && c.End() <= ADDRESS_SPACE && i < |s| && s[i].End() == c.base
    ensures Released(s, c, Coalesced(s[i := Span(s[i].base, s[i].size + c.size)], i))
  {
    var m := Span(s[i].base, s[i].size + c.size);
    WidenedIsLoose(s, i, m, c);
    CoalescedIsLoose(s[i := m], i);
    if Canonical(s) && c.size > 0 { RightStaysCanonical(s, i, c); }
  }

  lemma RightStaysCanonical(s: seq<Span>, i: nat, c: Span)
    requires Canonical(s) && Apart(s, c) && c.size > 0 && c.End() <= ADDRESS_SPACE && i < |s| && s[i].End() == c.base
    ensures Canonical(Coalesced(s[i := Span(s[i].base, s[i].size + c.size)], i))
  {
    if i + 1 < |s| {
      assert s[i].End() < s[i + 1].base;
      ApartFrom(s, i + 1, c);
    }
    hide Canonical, Apart, Coalesced;
    CoalescedOnce(s, i, Span(s[i].base, s[i].size + c.size));
    ReleaseBehind(s, i, c);
  }

  // A block that starts at or before an allocated range and does not touch it ends
  // before it; one that starts behind it starts at its end or later.
  lemma ApartFrom(s: seq<Span>, i: nat, c: Span)
    requires Canonical(s) && Apart(s, c) && c.size > 0 && i < |s|
    ensures s[i].base <= c.base ==> s[i].End() <= c.base
    ensures s[i].base > c.base ==> c.End() <= s[i].base
  {
    CoversAt(s, i, c.base);
    CoversAt(s, i, s[i].base);
    assert c.Has(c.base);
  }
}
