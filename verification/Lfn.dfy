/** Long-name directory entries (thirdparty/fatfs/ff.c: put_lfn, pick_lfn, and the parts
    of dir_register and dir_read that store and collect them). A name of UTF-16 units is
    cut into parts of 13; part n carries the number n, the parts are stored last first,
    and the short-name entry follows. The directory is an array of 32-byte slots. */
module Lfn {
  import opened Disk
  import opened Utf

  const SZDIRE: nat := 32
  const MAX_LFN: nat := 255
  const LLEF: nat := 0x40
  const AM_LFN: nat := 0x0F
  const DDEM: nat := 0xE5
  const FILL: Word := 0xFFFF

  // Where unit k of an entry is kept.
  function LfnOfs(k: nat): (r: nat)
    requires k < 13
    ensures r == if k < 5 then 1 + 2 * k else if k < 11 then 4 + 2 * k else 6 + 2 * k
  {
    [1, 3, 5, 7, 9, 14, 16, 18, 20, 22, 24, 28, 30][k]
  }

  function LdWord(lo: nat, hi: nat): nat {
    lo + 0x100 * hi
  }

  // Unit k of the slot at d.
  function UnitAt(dir: seq<Byte>, d: nat, k: nat): Word
    requires k < 13 && d + SZDIRE <= |dir|
  {
    LdWord(dir[d + LfnOfs(k)], dir[d + LfnOfs(k) + 1])
  }

  // ---- What put_lfn writes -----------------------------------------------------------

  // The working buffer holds the name as a zero-terminated string.
  predicate Holds(buf: seq<Word>, name: seq<Word>) {
    && |name| < |buf|
    && buf[..|name|] == name
    && buf[|name|] == 0
    && 0 !in name
  }

  // The filler value occurs in name[a..b].
  predicate Spoiled(name: seq<Word>, a: nat, b: nat) {
    exists j :: a <= j < b && j < |name| && name[j] == FILL
  }

  // Unit k of part ord: the name, its terminator, then filler; but everything after a
  // filler value inside the part is filler too.
  function PartUnit(name: seq<Word>, ord: nat, k: nat): Word
    requires ord > 0
  {
    var a := 13 * (ord - 1);
    if Spoiled(name, a, a + k) || a + k > |name| then FILL
    else if a + k == |name| then 0 else name[a + k]
  }

  // The part is marked as the last one.
  predicate MarkedLast(name: seq<Word>, ord: nat)
    requires ord > 0
  {
    Spoiled(name, 13 * (ord - 1), 13 * ord) || |name| <= 13 * ord
  }

  predicate IsLfn(dir: seq<Byte>, d: nat, sum: Byte) {
    && d + SZDIRE <= |dir|
    && dir[d + 11] == AM_LFN && dir[d + 12] == 0 && dir[d + 13] == sum
    && dir[d + 26] == 0 && dir[d + 27] == 0
  }

  // The slot at d holds part ord of the name.
  predicate IsPart(dir: seq<Byte>, d: nat, name: seq<Word>, ord: nat, sum: Byte)
    requires ord > 0
  {
    && IsLfn(dir, d, sum)
    && dir[d] == (if MarkedLast(name, ord) then ord + LLEF else ord)
    && forall k :: 0 <= k < 13 ==> UnitAt(dir, d, k) == PartUnit(name, ord, k)
  }

  method StWord(dir: array<Byte>, p: nat, w: Word)
    requires p + 1 < dir.Length
    modifies dir
    ensures LdWord(dir[p], dir[p + 1]) == w
    ensures forall i :: 0 <= i < dir.Length && i != p && i != p + 1 ==> dir[i] == old(dir[i])
  {
    dir[p] := w % 0x100;
    dir[p + 1] := w / 0x100;
  }

  method StUnit(dir: array<Byte>, d: nat, k: nat, w: Word)
    requires k < 13 && d + SZDIRE <= dir.Length
    modifies dir
    ensures UnitAt(dir[..], d, k) == w
    ensures forall j :: 0 <= j < 13 && j != k ==> UnitAt(dir[..], d, j) == UnitAt(old(dir[..]), d, j)
    ensures forall i :: 0 <= i < dir.Length && i != d + LfnOfs(k) && i != d + LfnOfs(k) + 1 ==>
                          dir[i] == old(dir[i])
  {
    StWord(dir, d + LfnOfs(k), w);
  }

  lemma SpoiledStep(name: seq<Word>, a: nat, b: nat)
    requires a <= b < |name|
    ensures Spoiled(name, a, b + 1) <==> Spoiled(name, a, b) || name[b] == FILL
  {
    if name[b] == FILL {
      assert a <= b < b + 1 && name[b] == FILL;
    }
  }

  lemma SpoiledPast(name: seq<Word>, a: nat, b: nat, c: nat)
    requires |name| <= b <= c
    ensures Spoiled(name, a, b) == Spoiled(name, a, c)
  {
  }

  // put_lfn: fills the slot at d with part ord of the name in lfn.
  method PutLfn(lfn: array<Word>, dir: array<Byte>, d: nat, ord: nat, sum: Byte, ghost name: seq<Word>)
    requires Holds(lfn[..], name)
    requires 0 < ord < LLEF && 13 * (ord - 1) <= |name|
    requires d + SZDIRE <= dir.Length
    modifies dir
    ensures IsPart(dir[..], d, name, ord, sum)
    ensures forall i :: 0 <= i < dir.Length && !(d <= i < d + SZDIRE) ==> dir[i] == old(dir[i])
  {
    hide Spoiled, UnitAt;
    dir[d + 13] := sum;
    dir[d + 11] := AM_LFN;
    dir[d + 12] := 0;
    StWord(dir, d + 26, 0);
    var i := (ord - 1) * 13;
    ghost var a := i;
    var wc: Word := 0;
    var s := 0;
    assert !Spoiled(name, a, a) by { NotSpoiledEmpty(name, a); }
    label L:
    while s < 13
      invariant s <= 13
      invariant wc == FILL <==> Spoiled(name, a, a + s) || a + s > |name|
      invariant wc != FILL ==> i == a + s
      invariant dir[d + 11] == AM_LFN && dir[d + 12] == 0 && dir[d + 13] == sum
      invariant dir[d + 26] == 0 && dir[d + 27] == 0
      invariant forall k :: 0 <= k < s ==> UnitAt(dir[..], d, k) == PartUnit(name, ord, k)
      invariant forall j :: 0 <= j < dir.Length && !(d <= j < d + SZDIRE) ==> dir[j] == old(dir[j])
    {
      if wc != FILL {
        wc := lfn[i];
        i := i + 1;
      }
      StUnit(dir, d, s, wc);
      assert wc == PartUnit(name, ord, s);
      if a + s < |name| {
        SpoiledStep(name, a, a + s);
      } else {
        SpoiledPast(name, a, a + s, a + s + 1);
      }
      if wc == 0 {
        wc := FILL;
      }
      s := s + 1;
    }
    var o := ord;
    if wc == FILL || lfn[i] == 0 {
      o := o + LLEF;
    }
    StOrd(dir, d, o);
  }

  method StOrd(dir: array<Byte>, d: nat, ord: Byte)
    requires d + SZDIRE <= dir.Length
    modifies dir
    ensures dir[d] == ord
    ensures forall k :: 0 <= k < 13 ==> UnitAt(dir[..], d, k) == UnitAt(old(dir[..]), d, k)
    ensures forall i :: 0 <= i < dir.Length && i != d ==> dir[i] == old(dir[i])
  {
    dir[d] := ord;
  }

  lemma NotSpoiledEmpty(name: seq<Word>, a: nat)
    ensures !Spoiled(name, a, a)
  {
  }

  // ---- Storing a whole name ----------------------------------------------------------

  function Parts(len: nat): nat {
    (len + 12) / 13
  }

  // The n slots from `base` hold parts n..1.
  predicate AreParts(dir: seq<Byte>, base: nat, name: seq<Word>, n: nat, sum: Byte) {
    forall j :: 0 <= j < n ==> IsPart(dir, base + SZDIRE * j, name, n - j, sum)
  }

  lemma PartKept(dir: seq<Byte>, dir': seq<Byte>, d: nat, name: seq<Word>, ord: nat, sum: Byte)
    requires ord > 0 && IsPart(dir, d, name, ord, sum) && |dir'| == |dir|
    requires forall i :: d <= i < d + SZDIRE ==> dir'[i] == dir[i]
    ensures IsPart(dir', d, name, ord, sum)
  {
    hide PartUnit, MarkedLast;
    forall k | 0 <= k < 13 ensures UnitAt(dir', d, k) == PartUnit(name, ord, k) {
      assert UnitAt(dir, d, k) == PartUnit(name, ord, k);
    }
  }

  // A unit is kept low byte first.
  lemma UnitBytes(dir: seq<Byte>, d: nat, k: nat, w: Word)
    requires k < 13 && d + SZDIRE <= |dir|
    ensures UnitAt(dir, d, k) == w <==> dir[d + LfnOfs(k)] == w % 0x100 && dir[d + LfnOfs(k) + 1] == w / 0x100
  {
  }

  // Where the bytes of a stored name are: unit k of it is in the part with number
  // k / 13 + 1, which is that many slots in front of the end, five units from byte 1 on, six
  // from byte 14 on, two from byte 28 on.
  lemma NameBytes(dir: seq<Byte>, base: nat, name: seq<Word>, sum: Byte, k: nat)
    requires AreParts(dir, base, name, Parts(|name|), sum) && FILL !in name && k < |name| <= MAX_LFN
    ensures var d, c := base + SZDIRE * (Parts(|name|) - 1 - k / 13), k % 13;
            var o := d + if c < 5 then 1 + 2 * c else if c < 11 then 14 + 2 * (c - 5) else 28 + 2 * (c - 11);
            && d >= 0 && d + SZDIRE <= |dir| && dir[d] % 0x40 == k / 13 + 1
            && dir[o] == name[k] % 0x100 && dir[o + 1] == name[k] / 0x100
  {
    hide UnitAt;
    var n, q, c := Parts(|name|), k / 13, k % 13;
    PartNumber(|name|, k);
    var j, ord := n - 1 - q, q + 1;
    assert ord < LLEF;
    assert IsPart(dir, base + SZDIRE * j, name, n - j, sum) && n - j == ord;
    assert k == 13 * (ord - 1) + c && PartUnit(name, ord, c) == name[k];
    UnitBytes(dir, base + SZDIRE * j, c, name[k]);
    assert UnitAt(dir, base + SZDIRE * j, c) == name[k];
  }

  lemma PartNumber(len: nat, k: nat)
    requires k < len <= MAX_LFN
    ensures k / 13 < Parts(len) <= 20
  {
  }

  // dir_register's share: the parts of the name go into consecutive slots from `base`,
  // the last part first.
  method StoreName(lfn: array<Word>, dir: array<Byte>, base: nat, sum: Byte, ghost name: seq<Word>)
    returns (n: nat)
    requires Holds(lfn[..], name) && |name| <= MAX_LFN
    requires base + SZDIRE * Parts(|name|) <= dir.Length
    modifies dir
    ensures n == Parts(|name|) && AreParts(dir[..], base, name, n, sum)
    ensures forall i :: 0 <= i < dir.Length && !(base <= i < base + SZDIRE * n) ==> dir[i] == old(dir[i])
  {
    hide IsPart;
    var nlen := 0;
    while lfn[nlen] != 0
      invariant nlen <= |name|
      decreases |name| - nlen
    {
      assert lfn[..][nlen] == name[nlen];
      nlen := nlen + 1;
    }
    n := (nlen + 12) / 13;
    var nent: nat, d := n, base;
    while nent != 0
      invariant 0 <= nent <= n && d == base + SZDIRE * (n - nent)
      invariant forall j :: 0 <= j < n - nent ==> IsPart(dir[..], base + SZDIRE * j, name, n - j, sum)
      invariant forall i :: 0 <= i < dir.Length && !(base <= i < d) ==> dir[i] == old(dir[i])
    {
      ghost var before := dir[..];
      PutLfn(lfn, dir, d, nent, sum, name);
      forall j | 0 <= j < n - nent ensures IsPart(dir[..], base + SZDIRE * j, name, n - j, sum) {
        PartKept(before, dir[..], base + SZDIRE * j, name, n - j, sum);
      }
      d := d + SZDIRE;
      nent := nent - 1;
    }
  }

  // ---- Picking one entry -------------------------------------------------------------

  // Position of the first zero unit of the slot at d; 13 when there is none.
  function ZeroFrom(dir: seq<Byte>, d: nat, k: nat): (z: nat)
    requires k <= 13 && d + SZDIRE <= |dir|
    ensures k <= z <= 13
    ensures z < 13 ==> UnitAt(dir, d, z) == 0
    ensures forall i :: k <= i < z ==> UnitAt(dir, d, i) != 0
    decreases 13 - k
  {
    if k == 13 || UnitAt(dir, d, k) == 0 then k else ZeroFrom(dir, d, k + 1)
  }

  // The offset pick_lfn computes for entry number b, in 32-bit arithmetic.
  function PickOffset(b: Byte): nat {
    if b == 0 then 0x1_0000_0000 - 13 else (b - 1) * 13
  }

  // Bit 6 of an entry number.
  predicate HasLlef(b: Byte) {
    b / LLEF % 2 == 1
  }

  function NoLlef(b: Byte): Byte {
    if HasLlef(b) then b - LLEF else b
  }

  // pick_lfn accepts the slot at d: its units, and the terminator a last entry gets,
  // fit the working buffer, and only filler follows a zero unit.
  predicate Pickable(dir: seq<Byte>, d: nat)
    requires d + SZDIRE <= |dir|
  {
    var i, z := PickOffset(NoLlef(dir[d])), ZeroFrom(dir, d, 0);
    && LdWord(dir[d + 26], dir[d + 27]) == 0
    && i + z <= MAX_LFN + 1
    && (z < 13 || HasLlef(dir[d]) ==> i + z <= MAX_LFN)
    && forall k :: z < k < 13 ==> UnitAt(dir, d, k) == FILL
  }

  function Units(dir: seq<Byte>, d: nat, n: nat): (r: seq<Word>)
    requires n <= 13 && d + SZDIRE <= |dir|
    ensures |r| == n && forall k {:trigger r[k]} :: 0 <= k < n ==> r[k] == UnitAt(dir, d, k)
  {
    seq(n, k requires 0 <= k < n => UnitAt(dir, d, k))
  }

  // The working buffer after an accepted slot: its units up to the first zero are in
  // place, a last entry is terminated, and an earlier one leaves what follows alone.
  predicate Picked(dir: seq<Byte>, d: nat, buf: seq<Word>, buf': seq<Word>)
    requires d + SZDIRE <= |dir| && Pickable(dir, d) && |buf| == |buf'| == MAX_LFN + 1
  {
    var i, z := PickOffset(NoLlef(dir[d])), ZeroFrom(dir, d, 0);
    && buf'[i..i + z] == Units(dir, d, z)
    && (z < 13 || HasLlef(dir[d]) ==> buf'[i + z] == 0)
    && (!HasLlef(dir[d]) && i + 13 <= |buf| ==> buf'[i + 13..] == buf[i + 13..])
  }

  // pick_lfn: copies the units of the slot at d into the working buffer.
  method PickLfn(buf: array<Word>, dir: array<Byte>, d: nat) returns (ok: bool)
    requires buf.Length == MAX_LFN + 1 && d + SZDIRE <= dir.Length
    modifies buf
    ensures ok <==> Pickable(dir[..], d)
    ensures ok ==> Picked(dir[..], d, old(buf[..]), buf[..])
  {
    hide UnitAt, ZeroFrom, Units;
    if LdWord(dir[d + 26], dir[d + 27]) != 0 { return false; }
    ghost var e, z, i0 := dir[..], ZeroFrom(dir[..], d, 0), PickOffset(NoLlef(dir[d]));
    var i := ((if HasLlef(dir[d]) then dir[d] - LLEF else dir[d]) - 1) * 13;
    if i < 0 { i := i + 0x1_0000_0000; }
    assert i == i0;
    var wc: Word := 1;
    var s := 0;
    while s < 13
      invariant s <= 13
      invariant wc == 0 <==> z < s
      invariant i == i0 + (if s <= z then s else z + 1)
      invariant i > i0 ==> i <= MAX_LFN + 1
      invariant forall k :: 0 <= k < s && k <= z ==> buf[i0 + k] == UnitAt(e, d, k)
      invariant forall k :: z < k < s ==> UnitAt(e, d, k) == FILL
      invariant forall j :: 0 <= j < buf.Length && !(i0 <= j < i0 + s) ==> buf[j] == old(buf[j])
    {
      var uc := UnitAt(dir[..], d, s);
      if wc != 0 {
        if i >= MAX_LFN + 1 { return false; }
        wc := uc;
        buf[i] := uc;
        i := i + 1;
      } else {
        if uc != FILL { return false; }
      }
      s := s + 1;
    }
    if HasLlef(dir[d]) && wc != 0 {
      if i >= MAX_LFN + 1 { return false; }
      buf[i] := 0;
    }
    return true;
  }
}
