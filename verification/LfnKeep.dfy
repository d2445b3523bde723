/** What survives when a long name is stored as directory entries and collected again. */
module LfnKeep {
  import opened Disk
  import opened Utf
  import opened Lfn
  import opened LfnRead

  // Position of the first filler value in the name; its length when there is none.
  function FirstFill(name: seq<Word>): (f: nat)
    ensures f <= |name|
    ensures forall j :: 0 <= j < f ==> name[j] != FILL
    ensures f < |name| ==> name[f] == FILL
  {
    if name == [] || name[0] == FILL then 0 else 1 + FirstFill(name[1..])
  }

  // The name the entries spell: up to the first filler value, and from there filler up to
  // the end of that part.
  function Spelt(name: seq<Word>): (t: seq<Word>)
    ensures |t| == if FirstFill(name) == |name| then |name| else 13 * Parts(FirstFill(name) + 1)
    ensures forall j {:trigger t[j]} :: 0 <= j < |t| ==> t[j] == if j < FirstFill(name) then name[j] else FILL
  {
    var f := FirstFill(name);
    if f == |name| then name else name[..f] + seq(13 * Parts(f + 1) - f, _ => FILL)
  }

  // The names that come back unchanged: no filler value, or only at the end of a full
  // last part.
  predicate Keeps(name: seq<Word>) {
    forall j :: 0 <= j < |name| && name[j] == FILL ==>
      |name| % 13 == 0 && |name| - 13 <= j && forall k :: j <= k < |name| ==> name[k] == FILL
  }

  lemma SpeltIsName(name: seq<Word>)
    ensures Spelt(name) == name <==> Keeps(name)
  {
    hide FirstFill;
    if Keeps(name) {
      KeptIsSpelt(name);
    }
    if Spelt(name) == name {
      SpeltIsKept(name);
    }
  }

  lemma KeptIsSpelt(name: seq<Word>)
    requires Keeps(name)
    ensures Spelt(name) == name
  {
    hide FirstFill;
    var f := FirstFill(name);
    if f < |name| {
      assert name[f] == FILL;
      assert |Spelt(name)| == |name|;
    }
  }

  lemma SpeltIsKept(name: seq<Word>)
    requires Spelt(name) == name
    ensures Keeps(name)
  {
    hide FirstFill;
    var f := FirstFill(name);
    forall j | 0 <= j < |name| && name[j] == FILL
      ensures |name| % 13 == 0 && |name| - 13 <= j && forall k :: j <= k < |name| ==> name[k] == FILL
    {
      assert f <= j;
      assert |name| == 13 * Parts(f + 1);
      assert forall k {:trigger name[k]} :: j <= k < |name| ==> Spelt(name)[k] == FILL;
    }
  }

  // Unit i of a string laid out in parts: its own units, a terminator, then filler.
  function PlainUnit(t: seq<Word>, i: nat): Word {
    if i < |t| then t[i] else if i == |t| then 0 else FILL
  }

  predicate IsPlainPart(dir: seq<Byte>, d: nat, t: seq<Word>, ord: nat, sum: Byte)
    requires ord > 0
  {
    && IsLfn(dir, d, sum)
    && dir[d] == (if |t| <= 13 * ord then ord + LLEF else ord)
    && forall k :: 0 <= k < 13 ==> UnitAt(dir, d, k) == PlainUnit(t, 13 * (ord - 1) + k)
  }

  // Up to the part with the first filler value, the stored parts are those of the name
  // they spell.
  lemma PartIsPlain(name: seq<Word>, ord: nat, k: nat)
    requires 0 < ord <= Parts(|Spelt(name)|) && k < 13
    ensures PartUnit(name, ord, k) == PlainUnit(Spelt(name), 13 * (ord - 1) + k)
  {
    var a, f := 13 * (ord - 1), FirstFill(name);
    if f < a + k && f < |name| {
      assert a <= f;
      assert Spoiled(name, a, a + k);
    } else {
      assert !Spoiled(name, a, a + k);
    }
  }

  lemma MarkIsPlain(name: seq<Word>, ord: nat)
    requires 0 < ord <= Parts(|Spelt(name)|)
    ensures MarkedLast(name, ord) <==> |Spelt(name)| <= 13 * ord
  {
    var f := FirstFill(name);
    if f < |name| && f < 13 * ord {
      assert 13 * (ord - 1) <= f < 13 * ord && name[f] == FILL;
    }
  }

  lemma PartsArePlain(dir: seq<Byte>, base: nat, name: seq<Word>, sum: Byte, j: nat)
    requires AreParts(dir, base, name, Parts(|name|), sum)
    requires Parts(|name|) - Parts(|Spelt(name)|) <= j < Parts(|name|)
    ensures IsPlainPart(dir, base + SZDIRE * j, Spelt(name), Parts(|name|) - j, sum)
  {
    hide PartUnit, PlainUnit, MarkedLast, Spelt, UnitAt;
    var ord := Parts(|name|) - j;
    var d := base + SZDIRE * j;
    assert IsPart(dir, d, name, ord, sum);
    MarkIsPlain(name, ord);
    forall k | 0 <= k < 13 ensures UnitAt(dir, d, k) == PlainUnit(Spelt(name), 13 * (ord - 1) + k) {
      PartIsPlain(name, ord, k);
    }
  }

  lemma SpeltParts(name: seq<Word>)
    ensures Parts(|Spelt(name)|) <= Parts(|name|)
    ensures name != [] ==> Spelt(name) != []
    ensures |name| <= MAX_LFN ==> |Spelt(name)| <= MAX_LFN || |Spelt(name)| == 260
    ensures 0 !in name ==> 0 !in Spelt(name)
  {
    if 0 !in name {
      forall j | 0 <= j < |Spelt(name)| ensures Spelt(name)[j] != 0 {
        if j < FirstFill(name) {
          assert name[j] in name;
        }
      }
    }
  }

  // ---- Collecting plain parts --------------------------------------------------------

  lemma PlainZero(dir: seq<Byte>, d: nat, t: seq<Word>, ord: nat, sum: Byte)
    requires ord > 0 && IsPlainPart(dir, d, t, ord, sum)
    requires 0 !in t && 13 * (ord - 1) <= |t|
    ensures ZeroFrom(dir, d, 0) == if 13 * ord <= |t| then 13 else |t| - 13 * (ord - 1)
    ensures |t| <= 13 * ord ==> 13 * (ord - 1) + ZeroFrom(dir, d, 0) == |t|
  {
    hide UnitAt;
    var a := 13 * (ord - 1);
    forall k | 0 <= k < 13 && a + k <= |t| ensures UnitAt(dir, d, k) == 0 <==> a + k == |t| {
      assert UnitAt(dir, d, k) == PlainUnit(t, a + k);
    }
  }

  lemma PlainNumber(dir: seq<Byte>, d: nat, t: seq<Word>, ord: nat, sum: Byte)
    requires 0 < ord <= 20 && IsPlainPart(dir, d, t, ord, sum)
    ensures d + SZDIRE <= |dir|
    ensures HasLlef(dir[d]) <==> |t| <= 13 * ord
    ensures NoLlef(dir[d]) == ord
    ensures PickOffset(ord) == 13 * (ord - 1)
    ensures LdWord(dir[d + 26], dir[d + 27]) == 0
  {
    hide UnitAt, PlainUnit;
  }

  lemma PlainPickable(dir: seq<Byte>, d: nat, t: seq<Word>, ord: nat, sum: Byte)
    requires 0 < ord <= Parts(|t|) <= 20 && 0 !in t && IsPlainPart(dir, d, t, ord, sum)
    ensures d + SZDIRE <= |dir|
    ensures Pickable(dir, d) <==> 13 * ord < |t| || |t| <= MAX_LFN
  {
    hide UnitAt, ZeroFrom, HasLlef, NoLlef, PickOffset, PlainUnit, IsPlainPart, LdWord;
    PlainNumber(dir, d, t, ord, sum);
    PlainZero(dir, d, t, ord, sum);
    PlainFill(dir, d, t, ord, sum, ZeroFrom(dir, d, 0));
  }

  lemma PlainFill(dir: seq<Byte>, d: nat, t: seq<Word>, ord: nat, sum: Byte, z: nat)
    requires 0 < ord && IsPlainPart(dir, d, t, ord, sum) && (|t| <= 13 * (ord - 1) + z || z == 13)
    ensures forall k :: z < k < 13 ==> UnitAt(dir, d, k) == FILL
  {
    hide UnitAt;
    forall k | z < k < 13 ensures UnitAt(dir, d, k) == FILL {
      assert UnitAt(dir, d, k) == PlainUnit(t, 13 * (ord - 1) + k);
    }
  }

  lemma IsPlainLfn(dir: seq<Byte>, d: nat, t: seq<Word>, ord: nat, sum: Byte)
    requires ord > 0 && IsPlainPart(dir, d, t, ord, sum)
    ensures IsLfn(dir, d, sum) && dir[d] in {ord, ord + LLEF}
    ensures d + SZDIRE <= |dir| && dir[d + 13] == sum
  {
  }

  // The state behind an expected, acceptable long-name slot.
  lemma NextOf(g: Gather, dir: seq<Byte>, d: nat, ord: nat, sum: Byte)
    requires d + SZDIRE <= |dir| && NoLlef(dir[d]) == ord && dir[d + 13] == sum
    requires HasLlef(dir[d]) || (g.Got? && g.left == ord && g.sum == sum)
    ensures ord > 0 && !Skipped(dir, d) && Pickable(dir, d) ==>
              var z := ZeroFrom(dir, d, 0);
              && Next(g, dir, d).Got? && Next(g, dir, d).left == ord - 1 && Next(g, dir, d).sum == sum
              && (z < 13 || HasLlef(dir[d]) ==> Next(g, dir, d).tail == Units(dir, d, z))
              && (z == 13 && !HasLlef(dir[d]) ==> Next(g, dir, d).tail == Units(dir, d, z) + g.tail)
  {
    hide ZeroFrom, Units, Skipped, Pickable;
    assert Units(dir, d, ZeroFrom(dir, d, 0)) + [] == Units(dir, d, ZeroFrom(dir, d, 0));
  }

  // The text behind its first n parts.
  function Behind(t: seq<Word>, n: nat): seq<Word> {
    if 13 * n <= |t| then t[13 * n..] else []
  }

  // What the slot's units and the parts behind it make up.
  lemma PlainTail(dir: seq<Byte>, d: nat, t: seq<Word>, ord: nat, sum: Byte)
    requires ord > 0 && 13 * (ord - 1) <= |t| && 0 !in t && IsPlainPart(dir, d, t, ord, sum)
    ensures IsLfn(dir, d, sum)
    ensures var u := Units(dir, d, ZeroFrom(dir, d, 0));
            if 13 * ord < |t| then ZeroFrom(dir, d, 0) == 13 && u + Behind(t, ord) == Behind(t, ord - 1)
            else u == Behind(t, ord - 1)
  {
    hide UnitAt, ZeroFrom, PlainUnit, Units;
    var a, z := 13 * (ord - 1), ZeroFrom(dir, d, 0);
    PlainZero(dir, d, t, ord, sum);
    PlainUnits(dir, d, t, ord, sum, z);
    assert t[a..a + z] + t[a + z..] == t[a..];
  }

  lemma PartStarts(len: nat, ord: nat)
    requires 0 < ord <= Parts(len)
    ensures 13 * (ord - 1) <= len
  {
  }

  // The slot of a plain part continues the run that gathered the parts after it.
  lemma PlainTaken(g: Gather, dir: seq<Byte>, d: nat, t: seq<Word>, ord: nat, sum: Byte)
    requires 0 < ord <= Parts(|t|) <= 20 && 0 !in t && IsPlainPart(dir, d, t, ord, sum)
    requires 13 * ord < |t| ==> g == Got(ord, sum, Behind(t, ord))
    requires |t| <= MAX_LFN
    ensures Next(g, dir, d) == Got(ord - 1, sum, Behind(t, ord - 1))
  {
    hide *;
    PartStarts(|t|, ord);
    IsPlainLfn(dir, d, t, ord, sum);
    PlainNumber(dir, d, t, ord, sum);
    PlainPickable(dir, d, t, ord, sum);
    NotSkipped(dir, d, ord, sum);
    NextOf(g, dir, d, ord, sum);
    PlainTail(dir, d, t, ord, sum);
  }

  lemma PlainUnits(dir: seq<Byte>, d: nat, t: seq<Word>, ord: nat, sum: Byte, z: nat)
    requires 0 < ord && IsPlainPart(dir, d, t, ord, sum)
    requires z <= 13 && 13 * (ord - 1) + z <= |t|
    ensures Units(dir, d, z) == t[13 * (ord - 1)..13 * (ord - 1) + z]
  {
    hide UnitAt;
    var a, u := 13 * (ord - 1), Units(dir, d, z);
    forall k | 0 <= k < z ensures u[k] == t[a..a + z][k] {
      assert UnitAt(dir, d, k) == PlainUnit(t, a + k);
    }
  }

  lemma NotSkipped(dir: seq<Byte>, d: nat, ord: nat, sum: Byte)
    requires 0 < ord <= 20 && IsLfn(dir, d, sum) && dir[d] in {ord, ord + LLEF}
    ensures !Skipped(dir, d) && dir[d] != 0 && !IsSfn(dir, d)
  {
  }

  lemma {:induction false} PlainGathered(dir: seq<Byte>, base: nat, t: seq<Word>, skip: nat, n: nat, sum: Byte)
    requires |t| <= MAX_LFN && 0 !in t && 0 < n <= Parts(|t|)
    requires base + SZDIRE * (skip + Parts(|t|)) <= |dir|
    requires forall j :: skip <= j < skip + n ==>
               IsPlainPart(dir, base + SZDIRE * j, t, skip + Parts(|t|) - j, sum)
    ensures After(dir, base, skip + n) == Got(Parts(|t|) - n, sum, Behind(t, Parts(|t|) - n))
    decreases n
  {
    hide Next, IsPlainPart, Behind;
    var ord := Parts(|t|) - n + 1;
    if n > 1 {
      PlainGathered(dir, base, t, skip, n - 1, sum);
    }
    PlainTaken(After(dir, base, skip + n - 1), dir, base + SZDIRE * (skip + n - 1), t, ord, sum);
  }

  // A full twentieth part never fits the working buffer, and the run is lost.
  lemma {:induction false} TooLongLost(dir: seq<Byte>, base: nat, t: seq<Word>, skip: nat, n: nat, sum: Byte)
    requires |t| == 260 && 0 !in t && 0 < n <= 20
    requires base + SZDIRE * (skip + 20) <= |dir|
    requires forall j :: skip <= j < skip + n ==> IsPlainPart(dir, base + SZDIRE * j, t, skip + 20 - j, sum)
    ensures After(dir, base, skip + n) == Lost
    decreases n
  {
    hide IsPlainPart, Pickable, HasLlef, NoLlef, Skipped, ZeroFrom, Units;
    var ord, d := 21 - n, base + SZDIRE * (skip + n - 1);
    assert IsPlainPart(dir, d, t, ord, sum);
    PlainNumber(dir, d, t, ord, sum);
    if n > 1 {
      TooLongLost(dir, base, t, skip, n - 1, sum);
    } else {
      PlainPickable(dir, d, t, ord, sum);
    }
  }

  // A stored name is gathered as what its entries spell, or not at all when that no
  // longer fits the working buffer.
  lemma StoredIsSpelt(dir: seq<Byte>, base: nat, name: seq<Word>, sum: Byte)
    requires name != [] && |name| <= MAX_LFN && 0 !in name
    requires base + SZDIRE * Parts(|name|) <= |dir| && AreParts(dir, base, name, Parts(|name|), sum)
    ensures After(dir, base, Parts(|name|)) ==
            if |Spelt(name)| <= MAX_LFN then Got(0, sum, Spelt(name)) else Lost
  {
    hide Spelt, IsPlainPart, AreParts, After, FirstFill;
    SpeltParts(name);
    var t, n := Spelt(name), Parts(|name|);
    var skip := n - Parts(|t|);
    forall j | skip <= j < n ensures IsPlainPart(dir, base + SZDIRE * j, t, n - j, sum) {
      PartsArePlain(dir, base, name, sum, j);
    }
    if |t| <= MAX_LFN {
      PlainGathered(dir, base, t, skip, Parts(|t|), sum);
      assert t[0..] == t;
    } else {
      TooLongLost(dir, base, t, skip, 20, sum);
    }
  }

  // Every slot of a stored name is passed over on the way to the short-name entry.
  lemma StoredIsScanned(dir: seq<Byte>, base: nat, name: seq<Word>, sum: Byte, j: nat)
    requires |name| <= MAX_LFN && j < Parts(|name|)
    requires AreParts(dir, base, name, Parts(|name|), sum)
    ensures base + SZDIRE * j < |dir| && dir[base + SZDIRE * j] != 0 && !IsSfn(dir, base + SZDIRE * j)
  {
    var ord := Parts(|name|) - j;
    assert IsPart(dir, base + SZDIRE * j, name, ord, sum);
    NotSkipped(dir, base + SZDIRE * j, ord, sum);
  }
}
