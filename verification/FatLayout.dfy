/** The volume layout and the packed FAT entry array as pure functions of the disk
    (thirdparty/fatfs/ff.c, the arithmetic of get_fat and put_fat). An entry is 12, 16
    or 28 bits wide; 12-bit entries share bytes with their neighbours and may straddle
    two sectors. */
module FatLayout {
  import opened Disk

  datatype FatType = Fat12 | Fat16 | Fat32

  // What find_volume derives from the boot sector and never changes afterwards.
  datatype Geometry = Geometry(
    fatType: FatType, nFats: nat, fsize: nat, csize: nat, nFatent: nat,
    volbase: nat, fatbase: nat, database: nat, volend: nat)
  {
    predicate InFat(sector: int) {
      fatbase <= sector < fatbase + fsize
    }

    predicate InMirror(sector: int) {
      nFats == 2 && fatbase + fsize <= sector < fatbase + 2 * fsize
    }

    // Bytes the first FAT needs for clusters 0..n-1 (section "FAT Data Structure"
    // of the Microsoft FAT32 File System Specification v1.03).
    function FatBytes(n: nat): nat {
      match fatType
      case Fat12 => n * 3 / 2 + n % 2
      case Fat16 => n * 2
      case Fat32 => n * 4
    }

    function MaxClusters(): nat {
      match fatType
      case Fat12 => 0xFF5
      case Fat16 => 0xFFF5
      case Fat32 => 0x0FFFFFF5
    }

    // The layout every mounted volume has (module Mount proves it of every boot sector
    // the driver accepts).
    predicate Ok() {
      && (nFats == 1 || nFats == 2)
      && 3 <= nFatent <= MaxClusters() + 2
      && volbase < fatbase
      && fatbase + (if nFats == 2 then 2 * fsize else fsize) <= database <= volend < 0xFFFF_FFFF
      && FatBytes(nFatent) <= SS * fsize
    }

    // The data area holds clusters 2..nFatent-1 of csize sectors each.
    predicate DataOk() {
      && csize in {1, 2, 4, 8, 16, 32, 64, 128}
      && database + csize * (nFatent - 2) <= volend
    }

    // The volume lies inside a device of n sectors.
    predicate Fits(n: nat) {
      volend <= n <= 0xFFFF_FFFF
    }

    // Every sector of the first FAT but one equals its copy in the second FAT.
    ghost predicate Mirrored(sectors: seq<Sector>, dirty: nat)
      requires Ok() && Fits(|sectors|)
    {
      nFats == 2 ==>
        forall k {:trigger InFat(k)} :: InFat(k) && k != dirty ==> sectors[fsize + k] == sectors[k]
    }
  }

  const DWORD_MAX: nat := 0xFFFF_FFFF

  // Byte b of the first FAT on the logical disk l.
  function FatByte(g: Geometry, l: seq<Sector>, b: nat): Byte
    requires g.Ok() && g.Fits(|l|) && b < SS * g.fsize
  {
    l[g.fatbase + b / SS][b % SS]
  }

  function EntryOffset(t: FatType, clst: nat): nat {
    match t
    case Fat12 => clst + clst / 2
    case Fat16 => clst * 2
    case Fat32 => clst * 4
  }

  function EntryBytes(t: FatType): nat {
    if t == Fat32 then 4 else 2
  }

  function Width(t: FatType): nat {
    match t
    case Fat12 => 0x1000
    case Fat16 => 0x1_0000
    case Fat32 => 0x1000_0000
  }

  // A value truncated to the entry width.
  function Cut(t: FatType, val: nat): nat {
    match t
    case Fat12 => val % 0x1000
    case Fat16 => val % 0x1_0000
    case Fat32 => val % 0x1000_0000
  }

  // Every byte of every entry lies inside the first FAT.
  lemma EntryFits(g: Geometry, clst: nat)
    requires g.Ok() && clst < g.nFatent
    ensures EntryOffset(g.fatType, clst) + EntryBytes(g.fatType) <= SS * g.fsize
  {
  }

  function Unpack12(odd: bool, b0: Byte, b1: Byte): nat {
    if odd then (b0 + 0x100 * b1) / 0x10 else (b0 + 0x100 * b1) % 0x1000
  }

  function Unpack16(b0: Byte, b1: Byte): nat {
    b0 + 0x100 * b1
  }

  function Unpack32(b0: Byte, b1: Byte, b2: Byte, b3: Byte): nat {
    b0 + 0x100 * b1 + 0x1_0000 * b2 + 0x100_0000 * (b3 % 0x10)
  }

  // The 12-, 16- or 28-bit value packed at byte offset o.
  function Packed(g: Geometry, l: seq<Sector>, o: nat, odd: bool): nat
    requires g.Ok() && g.Fits(|l|) && o + EntryBytes(g.fatType) <= SS * g.fsize
  {
    match g.fatType
    case Fat12 => Unpack12(odd, FatByte(g, l, o), FatByte(g, l, o + 1))
    case Fat16 => Unpack16(FatByte(g, l, o), FatByte(g, l, o + 1))
    case Fat32 => Unpack32(FatByte(g, l, o), FatByte(g, l, o + 1), FatByte(g, l, o + 2), FatByte(g, l, o + 3))
  }

  // The value of a FAT entry, as the FAT layout defines it.
  function Entry(g: Geometry, l: seq<Sector>, clst: nat): (v: nat)
    requires g.Ok() && g.Fits(|l|) && clst < g.nFatent
    ensures v < Width(g.fatType)
  {
    EntryFits(g, clst);
    Packed(g, l, EntryOffset(g.fatType, clst), clst % 2 == 1)
  }

  // f lists the entries of clusters 0..nFatent-1.
  ghost predicate IsTable(g: Geometry, l: seq<Sector>, f: seq<nat>)
    requires g.Ok() && g.Fits(|l|)
  {
    |f| == g.nFatent &&
    forall c {:trigger Entry(g, l, c)} :: 0 <= c < g.nFatent ==> f[c] == Entry(g, l, c)
  }

  ghost function Table(g: Geometry, l: seq<Sector>): (f: seq<nat>)
    requires g.Ok() && g.Fits(|l|)
    ensures IsTable(g, l, f)
  {
    seq(g.nFatent, c requires 0 <= c < g.nFatent => Entry(g, l, c))
  }

  lemma TableAt(g: Geometry, l: seq<Sector>, f: seq<nat>, clst: nat)
    requires g.Ok() && g.Fits(|l|) && IsTable(g, l, f) && clst < g.nFatent
    ensures EntryOffset(g.fatType, clst) + EntryBytes(g.fatType) <= SS * g.fsize
    ensures f[clst] == Packed(g, l, EntryOffset(g.fatType, clst), clst % 2 == 1)
  {
    EntryFits(g, clst);
    assert f[clst] == Entry(g, l, clst);
  }

  ghost predicate SameFat(g: Geometry, l: seq<Sector>, l': seq<Sector>)
    requires g.Ok() && g.Fits(|l|) && |l'| == |l|
  {
    forall b: nat {:trigger FatByte(g, l', b)} :: b < SS * g.fsize ==> FatByte(g, l', b) == FatByte(g, l, b)
  }

  lemma SectorsSameFat(g: Geometry, l: seq<Sector>, l': seq<Sector>)
    requires g.Ok() && g.Fits(|l|) && |l'| == |l|
    requires forall k :: 0 <= k < |l| && !g.InMirror(k) ==> l'[k] == l[k]
    ensures SameFat(g, l, l')
  {
    forall b: nat | b < SS * g.fsize ensures FatByte(g, l', b) == FatByte(g, l, b) {
      assert g.InFat(g.fatbase + b / SS);
    }
  }

  // Equal FAT bytes give equal tables.
  lemma TableKept(g: Geometry, l: seq<Sector>, l': seq<Sector>, f: seq<nat>)
    requires g.Ok() && g.Fits(|l|) && |l'| == |l| && SameFat(g, l, l') && IsTable(g, l, f)
    ensures IsTable(g, l', f)
  {
    forall c | 0 <= c < g.nFatent ensures Entry(g, l', c) == Entry(g, l, c) {
      EntryFits(g, c);
    }
  }

  // The logical disk with one byte of the first FAT replaced.
  function WithByte(g: Geometry, l: seq<Sector>, b: nat, v: Byte): (l': seq<Sector>)
    requires g.Ok() && g.Fits(|l|) && b < SS * g.fsize
    ensures |l'| == |l|
    ensures forall k :: 0 <= k < |l| && !g.InFat(k) ==> l'[k] == l[k]
    ensures forall o: nat {:trigger FatByte(g, l', o)} :: o < SS * g.fsize ==>
              FatByte(g, l', o) == if o == b then v else FatByte(g, l, o)
  {
    var s := g.fatbase + b / SS;
    l[s := l[s][b % SS := v]]
  }

  // The first byte of a 12-bit entry: for an odd cluster its upper half only.
  function First12(odd: bool, prev: Byte, val: nat): Byte {
    if odd then prev % 0x10 + val % 0x10 * 0x10 else val % 0x100
  }

  // The second byte: for an even cluster its lower half only.
  function Second12(odd: bool, prev: Byte, val: nat): Byte {
    if odd then val / 0x10 % 0x100 else prev / 0x10 * 0x10 + val / 0x100 % 0x10
  }

  // The top four bits of a FAT32 entry keep their old value.
  function Top32(prev: Byte, val: nat): Byte {
    prev / 0x10 * 0x10 + val / 0x100_0000 % 0x10
  }

  // The byte stores of put_fat for an entry at offset o.
  function PutFirst12(g: Geometry, l: seq<Sector>, o: nat, odd: bool, val: nat): seq<Sector>
    requires g.Ok() && g.Fits(|l|) && o < SS * g.fsize
  {
    WithByte(g, l, o, First12(odd, FatByte(g, l, o), val))
  }

  function PutSecond12(g: Geometry, l: seq<Sector>, o: nat, odd: bool, val: nat): seq<Sector>
    requires g.Ok() && g.Fits(|l|) && o < SS * g.fsize
  {
    WithByte(g, l, o, Second12(odd, FatByte(g, l, o), val))
  }

  function PutWord(g: Geometry, l: seq<Sector>, o: nat, v0: Byte, v1: Byte): seq<Sector>
    requires g.Ok() && g.Fits(|l|) && o + 1 < SS * g.fsize
  {
    WithByte(g, WithByte(g, l, o, v0), o + 1, v1)
  }

  function PutDword(g: Geometry, l: seq<Sector>, o: nat, v0: Byte, v1: Byte, v2: Byte, v3: Byte): seq<Sector>
    requires g.Ok() && g.Fits(|l|) && o + 3 < SS * g.fsize
  {
    PutWord(g, PutWord(g, l, o, v0, v1), o + 2, v2, v3)
  }

  // Aligned words and dwords lie inside one sector.
  lemma PutWordInSector(g: Geometry, l: seq<Sector>, o: nat, v0: Byte, v1: Byte)
    requires g.Ok() && g.Fits(|l|) && o % 2 == 0 && o + 1 < SS * g.fsize
    ensures var s, i := g.fatbase + o / SS, o % SS;
            g.InFat(s) && i + 1 < SS && PutWord(g, l, o, v0, v1) == l[s := l[s][i := v0][i + 1 := v1]]
  {
    var s := g.fatbase + o / SS;
    assert (o + 1) / SS == o / SS && (o + 1) % SS == o % SS + 1;
    assert PutWord(g, l, o, v0, v1)[s] == l[s][o % SS := v0][o % SS + 1 := v1];
  }

  lemma PutDwordInSector(g: Geometry, l: seq<Sector>, o: nat, v0: Byte, v1: Byte, v2: Byte, v3: Byte)
    requires g.Ok() && g.Fits(|l|) && o % 4 == 0 && o + 3 < SS * g.fsize
    ensures var s, i := g.fatbase + o / SS, o % SS;
            && g.InFat(s) && i + 3 < SS
            && PutDword(g, l, o, v0, v1, v2, v3) == l[s := l[s][i := v0][i + 1 := v1][i + 2 := v2][i + 3 := v3]]
  {
    hide PutWord;
    var s, i := g.fatbase + o / SS, o % SS;
    PutWordInSector(g, l, o, v0, v1);
    NextWord(o);
    PutWordInSector(g, PutWord(g, l, o, v0, v1), o + 2, v2, v3);
  }

  lemma NextWord(o: nat)
    requires o % 4 == 0
    ensures (o + 2) / SS == o / SS && (o + 2) % SS == o % SS + 2 && o % SS + 3 < SS
  {
    assert o % SS % 4 == 0;
  }

  // The logical disk put_fat leaves.
  function Put(g: Geometry, l: seq<Sector>, clst: nat, val: nat): (l': seq<Sector>)
    requires g.Ok() && g.Fits(|l|) && clst < g.nFatent
    ensures |l'| == |l|
    ensures forall k :: 0 <= k < |l| && !g.InFat(k) ==> l'[k] == l[k]
  {
    EntryFits(g, clst);
    var o := EntryOffset(g.fatType, clst);
    match g.fatType
    case Fat12 => PutSecond12(g, PutFirst12(g, l, o, clst % 2 == 1, val), o + 1, clst % 2 == 1, val)
    case Fat16 => PutWord(g, l, o, val % 0x100, val / 0x100 % 0x100)
    case Fat32 => PutDword(g, l, o, val % 0x100, val / 0x100 % 0x100, val / 0x1_0000 % 0x100,
                           Top32(FatByte(g, l, o + 3), val))
  }

  lemma PutIs12(g: Geometry, l: seq<Sector>, clst: nat, val: nat)
    requires g.Ok() && g.Fits(|l|) && g.fatType == Fat12 && clst < g.nFatent
    requires clst + clst / 2 + 1 < SS * g.fsize
    ensures var o, odd := clst + clst / 2, clst % 2 == 1;
            Put(g, l, clst, val) == PutSecond12(g, PutFirst12(g, l, o, odd, val), o + 1, odd, val)
  {
  }

  lemma PutIs32(g: Geometry, l: seq<Sector>, clst: nat, val: nat)
    requires g.Ok() && g.Fits(|l|) && g.fatType == Fat32 && clst < g.nFatent
    ensures clst * 4 + 3 < SS * g.fsize
    ensures var o := clst * 4;
            Put(g, l, clst, val) == PutDword(g, l, o, val % 0x100, val / 0x100 % 0x100, val / 0x1_0000 % 0x100,
                                             Top32(FatByte(g, l, o + 3), val))
  {
    EntryFits(g, clst);
  }

  lemma NibbleAndByte(val: nat)
    ensures val % 0x1000 == val % 0x10 + 0x10 * (val / 0x10 % 0x100)
  {
  }

  lemma Nibbles(lo: nat, n: nat, b: nat)
    requires lo < 0x10 && n < 0x10 && b < 0x100
    ensures (lo + n * 0x10) % 0x10 == lo && (lo + n * 0x10 + 0x100 * b) / 0x10 == n + 0x10 * b
  {
  }

  // The upper byte of an even entry counts by its lower nibble only.
  lemma LowNibble(x: Byte, b: nat, c: nat)
    requires b % 0x10 == c % 0x10
    ensures (x + 0x100 * b) % 0x1000 == (x + 0x100 * c) % 0x1000
  {
    Nibble(x, b / 0x10, b % 0x10);
    Nibble(x, c / 0x10, c % 0x10);
    assert b == 0x10 * (b / 0x10) + b % 0x10 && c == 0x10 * (c / 0x10) + c % 0x10;
  }

  lemma Nibble(x: Byte, q: nat, r: nat)
    requires r < 0x10
    ensures (x + 0x100 * (0x10 * q + r)) % 0x1000 == x + 0x100 * r
  {
  }

  // A 12-bit store reads back, and the nibble it shares with a neighbour survives.
  lemma Pack12Odd(p0: Byte, p1: Byte, val: nat, x: Byte)
    ensures Unpack12(true, First12(true, p0, val), Second12(true, p1, val)) == val % 0x1000
    ensures Unpack12(false, x, First12(true, p0, val)) == Unpack12(false, x, p0)
  {
    NibbleAndByte(val);
    Nibbles(p0 % 0x10, val % 0x10, val / 0x10 % 0x100);
    LowNibble(x, p0, p0 % 0x10 + val % 0x10 * 0x10);
  }

  lemma Pack12Even(p0: Byte, p1: Byte, val: nat, x: Byte)
    ensures Unpack12(false, First12(false, p0, val), Second12(false, p1, val)) == val % 0x1000
    ensures Unpack12(true, Second12(false, p1, val), x) == Unpack12(true, p1, x)
  {
    var n, m := val % 0x100, val / 0x100 % 0x10;
    assert val % 0x1000 == n + 0x100 * m;
    assert Second12(false, p1, val) % 0x10 == m;
    assert Second12(false, p1, val) / 0x10 == p1 / 0x10;
  }

  lemma Pack32(prev: Byte, val: nat)
    ensures Unpack32(val % 0x100, val / 0x100 % 0x100, val / 0x1_0000 % 0x100, Top32(prev, val)) == val % 0x1000_0000
    ensures Top32(prev, val) / 0x10 == prev / 0x10
  {
    var hi := val / 0x1_0000;
    assert val / 0x100_0000 == hi / 0x100 && hi % 0x1000 == hi % 0x100 + 0x100 * (hi / 0x100 % 0x10);
    assert val % 0x1000_0000 == val % 0x1_0000 + 0x1_0000 * (hi % 0x1000);
    assert val % 0x1_0000 == val % 0x100 + 0x100 * (val / 0x100 % 0x100);
  }

  lemma PutEntry12Same(g: Geometry, l: seq<Sector>, clst: nat, val: nat)
    requires g.Ok() && g.Fits(|l|) && g.fatType == Fat12 && clst < g.nFatent
    ensures Entry(g, Put(g, l, clst, val), clst) == val % 0x1000
  {
    EntryFits(g, clst);
    var o := EntryOffset(Fat12, clst);
    if clst % 2 == 1 {
      Pack12Odd(FatByte(g, l, o), FatByte(g, l, o + 1), val, 0);
    } else {
      Pack12Even(FatByte(g, l, o), FatByte(g, l, o + 1), val, 0);
    }
  }

  lemma PutEntry12Other(g: Geometry, l: seq<Sector>, clst: nat, val: nat, c: nat)
    requires g.Ok() && g.Fits(|l|) && g.fatType == Fat12 && clst < g.nFatent && c < g.nFatent && c != clst
    ensures Entry(g, Put(g, l, clst, val), c) == Entry(g, l, c)
  {
    hide Unpack12, First12, Second12;
    EntryFits(g, clst);
    EntryFits(g, c);
    var o, p := EntryOffset(Fat12, clst), EntryOffset(Fat12, c);
    if clst % 2 == 1 {
      assert p != o && p != o + 1 && p + 1 != o + 1;
      Pack12Odd(FatByte(g, l, o), FatByte(g, l, o + 1), val, FatByte(g, l, p));
    } else {
      assert p != o && p + 1 != o && p + 1 != o + 1;
      Pack12Even(FatByte(g, l, o), FatByte(g, l, o + 1), val, FatByte(g, l, p + 1));
    }
  }

  lemma PutEntry16(g: Geometry, l: seq<Sector>, clst: nat, val: nat, c: nat)
    requires g.Ok() && g.Fits(|l|) && g.fatType == Fat16 && clst < g.nFatent && c < g.nFatent
    ensures Entry(g, Put(g, l, clst, val), c) == if c == clst then val % 0x1_0000 else Entry(g, l, c)
  {
    EntryFits(g, clst);
    EntryFits(g, c);
    TwoBytes(val);
    var o, p := EntryOffset(Fat16, clst), EntryOffset(Fat16, c);
    assert c != clst ==> p != o && p + 1 != o && p != o + 1;
  }

  lemma TwoBytes(val: nat)
    ensures Unpack16(val % 0x100, val / 0x100 % 0x100) == val % 0x1_0000
  {
  }

  lemma PutEntry32(g: Geometry, l: seq<Sector>, clst: nat, val: nat, c: nat)
    requires g.Ok() && g.Fits(|l|) && g.fatType == Fat32 && clst < g.nFatent && c < g.nFatent
    ensures Entry(g, Put(g, l, clst, val), c) == if c == clst then val % 0x1000_0000 else Entry(g, l, c)
  {
    EntryFits(g, clst);
    EntryFits(g, c);
    Pack32(FatByte(g, l, EntryOffset(Fat32, clst) + 3), val);
  }

  // Writing an entry is an array update: the cluster reads back truncated to the
  // entry width and every other cluster keeps its value.
  lemma PutIsArrayUpdate(g: Geometry, l: seq<Sector>, clst: nat, val: nat, f: seq<nat>)
    requires g.Ok() && g.Fits(|l|) && clst < g.nFatent && IsTable(g, l, f)
    ensures IsTable(g, Put(g, l, clst, val), f[clst := Cut(g.fatType, val)])
  {
    forall c | 0 <= c < g.nFatent
      ensures Entry(g, Put(g, l, clst, val), c) == if c == clst then Cut(g.fatType, val) else Entry(g, l, c)
    {
      match g.fatType
      case Fat12 => if c == clst { PutEntry12Same(g, l, clst, val); } else { PutEntry12Other(g, l, clst, val, c); }
      case Fat16 => PutEntry16(g, l, clst, val, c);
      case Fat32 => PutEntry32(g, l, clst, val, c);
    }
  }

  lemma PutWordIsArrayUpdate(g: Geometry, l: seq<Sector>, clst: nat, val: nat, f: seq<nat>)
    requires g.Ok() && g.Fits(|l|) && g.fatType == Fat16 && clst < g.nFatent && IsTable(g, l, f)
    requires clst * 2 + 1 < SS * g.fsize
    ensures IsTable(g, PutWord(g, l, clst * 2, val % 0x100, val / 0x100 % 0x100), f[clst := Cut(g.fatType, val)])
  {
    PutIsArrayUpdate(g, l, clst, val, f);
  }

  lemma PutDwordIsArrayUpdate(g: Geometry, l: seq<Sector>, clst: nat, val: nat, f: seq<nat>)
    requires g.Ok() && g.Fits(|l|) && g.fatType == Fat32 && clst < g.nFatent && IsTable(g, l, f)
    requires clst * 4 + 3 < SS * g.fsize
    ensures var l' := PutDword(g, l, clst * 4, val % 0x100, val / 0x100 % 0x100, val / 0x1_0000 % 0x100,
                               Top32(FatByte(g, l, clst * 4 + 3), val));
            IsTable(g, l', f[clst := Cut(g.fatType, val)])
  {
    PutIsArrayUpdate(g, l, clst, val, f);
    PutIs32(g, l, clst, val);
  }

  // put_fat sees only the FAT bytes: on disks with equal FATs it leaves equal FATs.
  lemma PutSame(g: Geometry, l: seq<Sector>, l': seq<Sector>, clst: nat, val: nat)
    requires g.Ok() && g.Fits(|l|) && |l'| == |l| && clst < g.nFatent && SameFat(g, l, l')
    ensures SameFat(g, Put(g, l, clst, val), Put(g, l', clst, val))
  {
    EntryFits(g, clst);
  }

  // The state a completed put_fat leaves, whatever else moved outside the FAT.
  lemma PutDone(g: Geometry, l: seq<Sector>, l0: seq<Sector>, l': seq<Sector>, clst: nat, val: nat,
                f: seq<nat>, f': seq<nat>)
    requires g.Ok() && g.Fits(|l|) && |l'| == |l| && clst < g.nFatent
    requires IsTable(g, l, f) && IsTable(g, l', f')
    requires |l0| == |l| && SameFat(g, l, l0) && SameFat(g, Put(g, l0, clst, val), l')
    ensures f' == f[clst := Cut(g.fatType, val)]
  {
    PutIsArrayUpdate(g, l, clst, val, f);
    PutSame(g, l, l0, clst, val);
    TableKept(g, Put(g, l, clst, val), l', f[clst := Cut(g.fatType, val)]);
    TableUnique(g, l', f', f[clst := Cut(g.fatType, val)]);
  }

  lemma TableUnique(g: Geometry, l: seq<Sector>, f: seq<nat>, f': seq<nat>)
    requires g.Ok() && g.Fits(|l|) && IsTable(g, l, f) && IsTable(g, l, f')
    ensures f == f'
  {
    forall c | 0 <= c < g.nFatent ensures f[c] == f'[c] {
      assert f[c] == Entry(g, l, c);
    }
  }

  // The end-of-chain mark reads back beyond every cluster number.
  lemma EocIsBeyondAllClusters(g: Geometry)
    requires g.Ok()
    ensures Cut(g.fatType, DWORD_MAX) >= g.nFatent
  {
  }

  // The first half of a 12-bit store disturbs no other entry either.
  lemma HalfPutOther(g: Geometry, l: seq<Sector>, clst: nat, val: nat, c: nat)
    requires g.Ok() && g.Fits(|l|) && g.fatType == Fat12 && clst < g.nFatent && c < g.nFatent && c != clst
    requires EntryOffset(Fat12, clst) < SS * g.fsize
    ensures var o := EntryOffset(Fat12, clst);
            Entry(g, PutFirst12(g, l, o, clst % 2 == 1, val), c) == Entry(g, l, c)
  {
    EntryFits(g, clst);
    EntryFits(g, c);
    var o, p := EntryOffset(Fat12, clst), EntryOffset(Fat12, c);
    if clst % 2 == 1 {
      assert p != o && p + 1 != o + 1;
      Pack12Odd(FatByte(g, l, o), FatByte(g, l, o + 1), val, FatByte(g, l, p));
    } else {
      assert p != o && p + 1 != o;
    }
  }

  lemma TornStore12(g: Geometry, l0: seq<Sector>, l: seq<Sector>, l': seq<Sector>, clst: nat, val: nat,
                    f: seq<nat>, f': seq<nat>)
    requires g.Ok() && g.Fits(|l0|) && |l| == |l0| && |l'| == |l0|
    requires g.fatType == Fat12 && clst < g.nFatent && EntryOffset(Fat12, clst) < SS * g.fsize
    requires IsTable(g, l0, f) && IsTable(g, l', f') && SameFat(g, l0, l)
    requires var o := EntryOffset(Fat12, clst);
             SameFat(g, PutFirst12(g, l, o, clst % 2 == 1, val), l')
    ensures forall c :: 0 <= c < g.nFatent && c != clst ==> f'[c] == f[c]
  {
    var o := EntryOffset(Fat12, clst);
    var l1 := PutFirst12(g, l, o, clst % 2 == 1, val);
    TableKept(g, l0, l, f);
    TableKept(g, l1, l', Table(g, l1));
    TableUnique(g, l', f', Table(g, l1));
    forall c | 0 <= c < g.nFatent && c != clst ensures f'[c] == f[c] {
      HalfPutOther(g, l, clst, val, c);
    }
  }
}
