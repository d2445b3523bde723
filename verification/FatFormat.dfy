/** The FAT's format on the disk (thirdparty/fatfs/ff.c, get_fat and put_fat; section "FAT
    Data Structure" of the Microsoft FAT32 File System Specification v1.03): an array of
    cells of 12, 16 or 32 bits, whatever the arithmetic that finds and packs an entry. */
module FatFormat {
  import opened Disk
  import opened FatLayout

  // Half-bytes of the first FAT.
  function HalfBytes(g: Geometry): nat {
    2 * (SS * g.fsize)
  }

  // The j-th one, the lower half of a byte first.
  function HalfByte(g: Geometry, l: seq<Sector>, j: nat): (h: nat)
    requires g.Ok() && g.Fits(|l|) && j < HalfBytes(g)
    ensures h < 0x10
  {
    if j % 2 == 0 then FatByte(g, l, j / 2) % 0x10 else FatByte(g, l, j / 2) / 0x10
  }

  // The number whose n digits to base 16 are the half-bytes from j on, the lowest first.
  function Digits(g: Geometry, l: seq<Sector>, j: nat, n: nat): nat
    requires g.Ok() && g.Fits(|l|) && j + n <= HalfBytes(g)
    decreases n
  {
    if n == 0 then 0 else HalfByte(g, l, j) + 0x10 * Digits(g, l, j + 1, n - 1)
  }

  // A cell has 3, 4 or 8 half-bytes, and its entry is the first 3, 4 or 7 of them.
  function Cell(t: FatType): nat {
    match t case Fat12 => 3 case Fat16 => 4 case Fat32 => 8
  }

  function Used(t: FatType): nat {
    match t case Fat12 => 3 case Fat16 => 4 case Fat32 => 7
  }

  lemma CellFits(g: Geometry, clst: nat)
    requires g.Ok() && clst < g.nFatent
    ensures Cell(g.fatType) * clst + Cell(g.fatType) <= HalfBytes(g)
  {
    EntryFits(g, clst);
  }

  lemma Halves(g: Geometry, l: seq<Sector>, b: nat)
    requires g.Ok() && g.Fits(|l|) && b < SS * g.fsize
    ensures 2 * b + 1 < HalfBytes(g)
    ensures FatByte(g, l, b) as int == HalfByte(g, l, 2 * b) + 0x10 * HalfByte(g, l, 2 * b + 1)
    ensures HalfByte(g, l, 2 * b) == FatByte(g, l, b) % 0x10 && HalfByte(g, l, 2 * b + 1) == FatByte(g, l, b) / 0x10
  {
    hide FatByte;
  }

  lemma Unfold(g: Geometry, l: seq<Sector>, j: nat, n: nat)
    requires g.Ok() && g.Fits(|l|) && n > 0 && j + n <= HalfBytes(g)
    ensures Digits(g, l, j, n) == HalfByte(g, l, j) + 0x10 * Digits(g, l, j + 1, n - 1)
    ensures Digits(g, l, j + n, 0) == 0
  {
    hide HalfByte, Geometry.Ok, Geometry.Fits;
  }

  // A whole byte gives two digits.
  lemma ByteDigits(g: Geometry, l: seq<Sector>, b: nat, n: nat)
    requires g.Ok() && g.Fits(|l|) && n >= 2 && 2 * b + n <= HalfBytes(g)
    ensures Digits(g, l, 2 * b, n) == FatByte(g, l, b) as int + 0x100 * Digits(g, l, 2 * b + 2, n - 2)
  {
    hide HalfByte, Digits, FatByte, Geometry.Ok, Geometry.Fits;
    Unfold(g, l, 2 * b, n);
    Unfold(g, l, 2 * b + 1, n - 1);
    Halves(g, l, b);
  }

  // An entry is the number in its cell.
  lemma EntryDigits(g: Geometry, l: seq<Sector>, clst: nat)
    requires g.Ok() && g.Fits(|l|) && clst < g.nFatent
    ensures Cell(g.fatType) * clst + Used(g.fatType) <= HalfBytes(g)
    ensures Entry(g, l, clst) == Digits(g, l, Cell(g.fatType) * clst, Used(g.fatType))
  {
    CellFits(g, clst);
    match g.fatType
    case Fat12 => Digits12(g, l, clst, clst / 2);
    case Fat16 => Digits16(g, l, clst);
    case Fat32 => Digits32(g, l, clst);
  }

  lemma Entry16(g: Geometry, l: seq<Sector>, clst: nat)
    requires g.Ok() && g.Fits(|l|) && g.fatType == Fat16 && clst < g.nFatent
    ensures 2 * clst + 1 < SS * g.fsize
    ensures Entry(g, l, clst) == FatByte(g, l, 2 * clst) as int + 0x100 * FatByte(g, l, 2 * clst + 1) as int
  {
    EntryFits(g, clst);
    hide FatByte;
  }

  lemma Digits16(g: Geometry, l: seq<Sector>, clst: nat)
    requires g.Ok() && g.Fits(|l|) && g.fatType == Fat16 && clst < g.nFatent && 4 * clst + 4 <= HalfBytes(g)
    ensures Entry(g, l, clst) == Digits(g, l, 4 * clst, 4)
  {
    hide FatByte, HalfByte, Digits, Geometry.Ok, Geometry.Fits, Entry;
    Entry16(g, l, clst);
    ByteDigits(g, l, 2 * clst, 4);
    ByteDigits(g, l, 2 * clst + 1, 2);
    Unfold(g, l, 4 * clst + 3, 1);
  }

  lemma Entry32(g: Geometry, l: seq<Sector>, clst: nat)
    requires g.Ok() && g.Fits(|l|) && g.fatType == Fat32 && clst < g.nFatent
    ensures 4 * clst + 3 < SS * g.fsize
    ensures Entry(g, l, clst) == FatByte(g, l, 4 * clst) as int + 0x100 * FatByte(g, l, 4 * clst + 1) as int
              + 0x1_0000 * FatByte(g, l, 4 * clst + 2) as int + 0x100_0000 * (FatByte(g, l, 4 * clst + 3) as int % 0x10)
  {
    EntryFits(g, clst);
    hide FatByte;
  }

  lemma Digits32(g: Geometry, l: seq<Sector>, clst: nat)
    requires g.Ok() && g.Fits(|l|) && g.fatType == Fat32 && clst < g.nFatent && 8 * clst + 8 <= HalfBytes(g)
    ensures Entry(g, l, clst) == Digits(g, l, 8 * clst, 7)
  {
    hide FatByte, HalfByte, Digits, Geometry.Ok, Geometry.Fits, Entry;
    Entry32(g, l, clst);
    ByteDigits(g, l, 4 * clst, 7);
    ByteDigits(g, l, 4 * clst + 1, 5);
    ByteDigits(g, l, 4 * clst + 2, 3);
    Unfold(g, l, 8 * clst + 6, 1);
    Halves(g, l, 4 * clst + 3);
  }

  lemma Entry12(g: Geometry, l: seq<Sector>, clst: nat, o: nat)
    requires g.Ok() && g.Fits(|l|) && g.fatType == Fat12 && clst < g.nFatent && o == clst + clst / 2
    ensures o + 1 < SS * g.fsize
    ensures Entry(g, l, clst) == if clst % 2 == 1 then FatByte(g, l, o) as int / 0x10 + 0x10 * FatByte(g, l, o + 1) as int
                                 else FatByte(g, l, o) as int + 0x100 * (FatByte(g, l, o + 1) as int % 0x10)
  {
    EntryFits(g, clst);
    hide FatByte, Unpack12;
    Unpacked(FatByte(g, l, o), FatByte(g, l, o + 1));
  }

  lemma Digits12(g: Geometry, l: seq<Sector>, clst: nat, h: nat)
    requires g.Ok() && g.Fits(|l|) && g.fatType == Fat12 && clst < g.nFatent && 3 * clst + 3 <= HalfBytes(g)
    requires h == clst / 2
    ensures Entry(g, l, clst) == Digits(g, l, 3 * clst, 3)
  {
    hide FatByte, HalfByte, Digits, Geometry.Ok, Geometry.Fits, Entry;
    Entry12(g, l, clst, clst + h);
    if clst == 2 * h {
      ByteDigits(g, l, 3 * h, 3);
      Unfold(g, l, 6 * h + 2, 1);
      Halves(g, l, 3 * h + 1);
    } else {
      assert clst == 2 * h + 1;
      Unfold(g, l, 6 * h + 3, 3);
      Halves(g, l, 3 * h + 1);
      ByteDigits(g, l, 3 * h + 2, 2);
      Unfold(g, l, 6 * h + 5, 1);
    }
  }

  lemma Unpacked(b0: Byte, b1: Byte)
    ensures Unpack12(true, b0, b1) == b0 as int / 0x10 + 0x10 * b1 as int
    ensures Unpack12(false, b0, b1) == b0 as int + 0x100 * (b1 as int % 0x10)
  {
    LowNibble(b0, b1, b1 % 0x10);
  }

  // -- What a store changes --

  // The j-th half-byte belongs to clst's entry.
  predicate InEntry(t: FatType, clst: nat, j: nat) {
    0 <= j - Cell(t) * clst < Used(t)
  }

  // Of the first FAT nothing but the digits of clst's entry changes: not its neighbours',
  // nor the four spare bits of a FAT32 cell.
  ghost predicate OnlyEntry(g: Geometry, l: seq<Sector>, l': seq<Sector>, clst: nat)
    requires g.Ok() && g.Fits(|l|) && |l'| == |l|
  {
    forall j: nat {:trigger HalfByte(g, l', j)} ::
      j < HalfBytes(g) && !InEntry(g.fatType, clst, j) ==> HalfByte(g, l', j) == HalfByte(g, l, j)
  }

  lemma SameDigits(g: Geometry, l: seq<Sector>, l': seq<Sector>, clst: nat)
    requires g.Ok() && g.Fits(|l|) && |l'| == |l| && SameFat(g, l, l')
    ensures OnlyEntry(g, l, l', clst)
  {
    hide FatByte, InEntry;
    forall j: nat | j < HalfBytes(g) ensures HalfByte(g, l', j) == HalfByte(g, l, j) {
      assert FatByte(g, l', j / 2) == FatByte(g, l, j / 2);
    }
  }

  lemma OnlyEntryTwice(g: Geometry, l: seq<Sector>, l': seq<Sector>, l'': seq<Sector>, clst: nat)
    requires g.Ok() && g.Fits(|l|) && |l'| == |l| && |l''| == |l|
    requires OnlyEntry(g, l, l', clst) && OnlyEntry(g, l', l'', clst)
    ensures OnlyEntry(g, l, l'', clst)
  {
    hide HalfByte, InEntry;
    forall j: nat | j < HalfBytes(g) && !InEntry(g.fatType, clst, j) ensures HalfByte(g, l'', j) == HalfByte(g, l, j) {
      assert HalfByte(g, l', j) == HalfByte(g, l, j);
    }
  }

  // A byte store that keeps the half outside the entry.
  lemma ByteOnly(g: Geometry, l: seq<Sector>, b: nat, v: Byte, clst: nat)
    requires g.Ok() && g.Fits(|l|) && b < SS * g.fsize
    requires InEntry(g.fatType, clst, 2 * b) || v % 0x10 == FatByte(g, l, b) % 0x10
    requires InEntry(g.fatType, clst, 2 * b + 1) || v / 0x10 == FatByte(g, l, b) / 0x10
    ensures OnlyEntry(g, l, WithByte(g, l, b, v), clst)
  {
    hide FatByte, InEntry;
    var l' := WithByte(g, l, b, v);
    forall j: nat | j < HalfBytes(g) && !InEntry(g.fatType, clst, j) ensures HalfByte(g, l', j) == HalfByte(g, l, j) {
      assert FatByte(g, l', j / 2) == if j / 2 == b then v else FatByte(g, l, j / 2);
      assert j == 2 * (j / 2) + j % 2;
    }
  }

  lemma Join(hi: nat, lo: nat)
    requires hi < 0x10 && lo < 0x10
    ensures (hi * 0x10 + lo) / 0x10 == hi && (hi * 0x10 + lo) % 0x10 == lo
  {
  }

  lemma First12Only(g: Geometry, l: seq<Sector>, clst: nat, val: nat)
    requires g.Ok() && g.Fits(|l|) && g.fatType == Fat12 && clst + clst / 2 < SS * g.fsize
    ensures OnlyEntry(g, l, PutFirst12(g, l, clst + clst / 2, clst % 2 == 1, val), clst)
  {
    hide FatByte, OnlyEntry;
    var o := clst + clst / 2;
    var prev := FatByte(g, l, o);
    Join(val % 0x10, prev % 0x10);
    ByteOnly(g, l, o, First12(clst % 2 == 1, prev, val), clst);
  }

  lemma Second12Only(g: Geometry, l: seq<Sector>, clst: nat, val: nat)
    requires g.Ok() && g.Fits(|l|) && g.fatType == Fat12 && clst + clst / 2 + 1 < SS * g.fsize
    ensures OnlyEntry(g, l, PutSecond12(g, l, clst + clst / 2 + 1, clst % 2 == 1, val), clst)
  {
    hide FatByte, OnlyEntry;
    var o := clst + clst / 2 + 1;
    var prev := FatByte(g, l, o);
    Join(prev / 0x10, val / 0x100 % 0x10);
    ByteOnly(g, l, o, Second12(clst % 2 == 1, prev, val), clst);
  }

  lemma WordOnly(g: Geometry, l: seq<Sector>, clst: nat, v0: Byte, v1: Byte)
    requires g.Ok() && g.Fits(|l|) && g.fatType == Fat16 && clst * 2 + 1 < SS * g.fsize
    ensures OnlyEntry(g, l, PutWord(g, l, clst * 2, v0, v1), clst)
  {
    hide FatByte, OnlyEntry, WithByte;
    ByteOnly(g, l, clst * 2, v0, clst);
    ByteOnly(g, WithByte(g, l, clst * 2, v0), clst * 2 + 1, v1, clst);
    OnlyEntryTwice(g, l, WithByte(g, l, clst * 2, v0), PutWord(g, l, clst * 2, v0, v1), clst);
  }

  lemma DwordOnly(g: Geometry, l: seq<Sector>, clst: nat, v0: Byte, v1: Byte, v2: Byte, v3: Byte)
    requires g.Ok() && g.Fits(|l|) && g.fatType == Fat32 && clst * 4 + 3 < SS * g.fsize
    requires v3 / 0x10 == FatByte(g, l, clst * 4 + 3) / 0x10
    ensures OnlyEntry(g, l, PutDword(g, l, clst * 4, v0, v1, v2, v3), clst)
  {
    hide FatByte, OnlyEntry, WithByte;
    var o := clst * 4;
    var l1 := WithByte(g, l, o, v0);
    var l2 := WithByte(g, l1, o + 1, v1);
    var l3 := WithByte(g, l2, o + 2, v2);
    ByteOnly(g, l, o, v0, clst);
    ByteOnly(g, l1, o + 1, v1, clst);
    ByteOnly(g, l2, o + 2, v2, clst);
    ByteOnly(g, l3, o + 3, v3, clst);
    OnlyEntryTwice(g, l, l1, l2, clst);
    OnlyEntryTwice(g, l, l2, l3, clst);
    OnlyEntryTwice(g, l, l3, WithByte(g, l3, o + 3, v3), clst);
  }
}
