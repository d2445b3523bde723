/** Mounting a FAT volume (thirdparty/fatfs/ff.c, the FAT branch of find_volume and
    clst2sect). The boot sector is the 512 bytes found at sector `bsect`; sums and
    products wrap at 32 bits as they do in the driver. */
module Mount {
  import opened Disk
  import opened FatLayout
  import FileMap

  datatype Option<T> = None | Some(value: T)

  // What the driver keeps of the volume: the layout, and where the root directory is
  // (a sector, or a cluster on FAT32).
  datatype Volume = Volume(g: Geometry, dirbase: nat, nRootdir: nat)

  const MOD32: nat := 0x1_0000_0000

  function Add32(a: nat, b: nat): nat {
    (a + b) % MOD32
  }

  function LdWord(win: Sector, p: nat): (r: nat)
    requires p + 1 < SS
    ensures r < 0x1_0000
  {
    Unpack16(win[p], win[p + 1])
  }

  function LdDword(win: Sector, p: nat): (r: nat)
    requires p + 3 < SS
    ensures r < MOD32
  {
    LdWord(win, p) + 0x1_0000 * LdWord(win, p + 2)
  }

  // ---- The boot sector's fields ------------------------------------------------------

  datatype Bpb = Bpb(bytsPerSec: nat, secPerClus: nat, rsvd: nat, numFats: nat, rootEnt: nat,
                     totSec: nat, fatSz: nat, fsVer: nat, rootClus: nat)
  {
    predicate Sizes() {
      secPerClus < 0x100 && rsvd < 0x1_0000 && rootEnt < 0x1_0000 && totSec < MOD32 && fatSz < MOD32
    }

    // Sectors of all FATs.
    function FatArea(): nat {
      if numFats == 2 then 2 * fatSz else fatSz
    }

    // Sectors in front of the data area.
    function System(): nat {
      rsvd + FatArea() + rootEnt / 16
    }

    // Clusters that fit behind it.
    function Clusters(): int {
      if secPerClus == 0 || totSec < System() then 0 else (totSec - System()) / secPerClus
    }

    // No 32-bit sum of the driver wraps: the system area has a 32-bit size, and the volume
    // ends below the highest 32-bit sector number.
    predicate NoWrap(bsect: nat) {
      System() < MOD32 && bsect + totSec < DWORD_MAX
    }

    // What the driver supports, by the rules of the section "FAT Type Determination" of
    // the Microsoft FAT32 File System Specification v1.03 and the driver's own limits.
    predicate Supported() {
      var n, t := Clusters(), TypeOf(Clusters());
      && bytsPerSec == SS
      && numFats in {1, 2}
      && secPerClus in {1, 2, 4, 8, 16, 32, 64, 128}
      && rootEnt % 16 == 0 && rsvd != 0
      && 0 < n <= 0x0FFF_FFF5
      && (if t == Fat32 then fsVer == 0 && rootEnt == 0 else rootEnt != 0)
      && BytesNeeded(t, n + 2) <= SS * fatSz
    }
  }

  function ReadBpb(win: Sector): (b: Bpb)
    ensures b.Sizes()
  {
    var nFats: nat, csize: nat := win[16], win[13];
    Bpb(LdWord(win, 11), csize, LdWord(win, 14), nFats, LdWord(win, 17),
        if LdWord(win, 19) != 0 then LdWord(win, 19) else LdDword(win, 32),
        if LdWord(win, 22) != 0 then LdWord(win, 22) else LdDword(win, 36),
        LdWord(win, 42), LdDword(win, 44))
  }

  // The fields as the specification names them, each with the bytes that hold it.
  datatype Fields = Fields(bytsPerSec: nat, secPerClus: nat, rsvdSecCnt: nat, numFats: nat, rootEntCnt: nat,
                           totSec16: nat, fatSz16: nat, totSec32: nat, fatSz32: nat, fsVer: nat, rootClus: nat)

  // The bytes from p on are x, the least significant one first.
  predicate Word(win: Sector, p: nat, x: nat)
    requires p + 1 < SS
  {
    var b0: int, b1: int := win[p], win[p + 1];
    x == b0 + 0x100 * b1
  }

  predicate Dword(win: Sector, p: nat, x: nat)
    requires p + 3 < SS
  {
    var b0: int, b1: int, b2: int, b3: int := win[p], win[p + 1], win[p + 2], win[p + 3];
    x == b0 + 0x100 * b1 + 0x1_0000 * b2 + 0x100_0000 * b3
  }

  // The boot sector holds these fields.
  predicate Carries(win: Sector, x: Fields) {
    && Word(win, 11, x.bytsPerSec) && win[13] == x.secPerClus && Word(win, 14, x.rsvdSecCnt)
    && win[16] == x.numFats && Word(win, 17, x.rootEntCnt) && Word(win, 19, x.totSec16) && Word(win, 22, x.fatSz16)
    && Dword(win, 32, x.totSec32) && Dword(win, 36, x.fatSz32) && Word(win, 42, x.fsVer) && Dword(win, 44, x.rootClus)
  }

  // Both counts of sectors are given in 16 bits, or, when that is zero, in 32 bits.
  function BpbOf(x: Fields): Bpb {
    Bpb(x.bytsPerSec, x.secPerClus, x.rsvdSecCnt, x.numFats, x.rootEntCnt,
        if x.totSec16 == 0 then x.totSec32 else x.totSec16,
        if x.fatSz16 == 0 then x.fatSz32 else x.fatSz16, x.fsVer, x.rootClus)
  }

  lemma WordIs(win: Sector, p: nat, x: nat)
    requires p + 1 < SS && Word(win, p, x)
    ensures LdWord(win, p) == x
  {
  }

  lemma DwordIs(win: Sector, p: nat, x: nat)
    requires p + 3 < SS && Dword(win, p, x)
    ensures LdDword(win, p) == x
  {
  }

  lemma CarriedIsRead(win: Sector, x: Fields)
    requires Carries(win, x)
    ensures ReadBpb(win) == BpbOf(x)
  {
    hide LdWord, LdDword, Word, Dword;
    WordIs(win, 11, x.bytsPerSec);
    WordIs(win, 14, x.rsvdSecCnt);
    WordIs(win, 17, x.rootEntCnt);
    WordIs(win, 19, x.totSec16);
    WordIs(win, 22, x.fatSz16);
    WordIs(win, 42, x.fsVer);
    DwordIs(win, 32, x.totSec32);
    DwordIs(win, 36, x.fatSz32);
    DwordIs(win, 44, x.rootClus);
  }

  function TypeOf(clusters: int): FatType {
    if clusters <= 0xFF5 then Fat12 else if clusters <= 0xFFF5 then Fat16 else Fat32
  }

  function BytesNeeded(t: FatType, n: nat): nat {
    match t
    case Fat12 => n * 3 / 2 + n % 2
    case Fat16 => n * 2
    case Fat32 => n * 4
  }

  // The bytes a FAT needs are those up to the end of its last entry.
  lemma NeedIsLastEntry(t: FatType, n: nat)
    requires n > 0
    ensures BytesNeeded(t, n) == EntryOffset(t, n - 1) + EntryBytes(t)
  {
    var h := n / 2;
    if t != Fat12 {
    } else if n == 2 * h {
      assert n * 3 / 2 == 3 * h && (n - 1) / 2 == h - 1;
    } else {
      assert n == 2 * h + 1;
      assert n * 3 / 2 == 3 * h + 1 && (n - 1) / 2 == h;
    }
  }

  // The layout of a supported volume, region after region.
  predicate Describes(v: Volume, b: Bpb, bsect: nat) {
    && v.g.nFats == b.numFats && v.g.fsize == b.fatSz && v.g.csize == b.secPerClus
    && v.g.fatType == TypeOf(b.Clusters()) && v.g.nFatent == b.Clusters() + 2
    && v.g.volbase == bsect
    && v.g.fatbase == bsect + b.rsvd
    && v.g.database == v.g.fatbase + b.FatArea() + b.rootEnt / 16
    && v.g.volend == bsect + b.totSec
    && v.dirbase == (if v.g.fatType == Fat32 then b.rootClus else v.g.fatbase + b.FatArea())
    && v.nRootdir == b.rootEnt
  }

  // The bits two numbers share.
  function And(a: nat, b: nat): (r: nat)
    ensures r <= a && r <= b
  {
    if a == 0 || b == 0 then 0 else (a % 2) * (b % 2) + 2 * And(a / 2, b / 2)
  }

  predicate IsPower(c: nat) {
    c > 0 && (c == 1 || (c % 2 == 0 && IsPower(c / 2)))
  }

  lemma {:induction false} AndSelf(a: nat)
    ensures And(a, a) == a
  {
    if a > 0 { AndSelf(a / 2); }
  }

  // A number and its predecessor share a bit unless the number is a power of two.
  lemma {:induction false} PowerTest(c: nat)
    requires c > 0
    ensures And(c, c - 1) == 0 <==> IsPower(c)
  {
    if c % 2 == 0 {
      PowerTest(c / 2);
      assert (c - 1) % 2 == 1 && (c - 1) / 2 == c / 2 - 1;
    } else if c > 1 {
      AndSelf(c / 2);
      assert (c - 1) / 2 == c / 2;
    }
  }

  // The powers that fit a byte.
  lemma {:induction false} BytePowers(c: nat, n: nat)
    requires c < n && n in {2, 4, 8, 16, 32, 64, 128, 256}
    ensures IsPower(c) <==> c in {1, 2, 4, 8, 16, 32, 64, 128}
  {
    if c > 1 { BytePowers(c / 2, n / 2); }
  }

  lemma ByteTest(c: nat)
    requires c < 0x100
    ensures c != 0 && And(c, c - 1) == 0 <==> c in {1, 2, 4, 8, 16, 32, 64, 128}
  {
    if c > 0 { PowerTest(c); }
    BytePowers(c, 0x100);
  }

  lemma Quotient(a: nat, c: nat)
    requires c in {1, 2, 4, 8, 16, 32, 64, 128}
    ensures 0 <= a / c <= a && c * (a / c) <= a
  {
    if c == 1 {
    } else if c == 2 {
    } else if c == 4 {
    } else if c == 8 {
    } else if c == 16 {
    } else if c == 32 {
    } else if c == 64 {
    } else {
    }
  }

  // Rounding up to whole sectors decides the same as counting bytes.
  lemma FatSizeTest(szbfat: nat, fsize: nat)
    requires szbfat + 511 < MOD32
    ensures fsize < Add32(szbfat, 511) / SS <==> SS * fsize < szbfat
  {
  }

  lemma SystemIs(b: Bpb, sysect: nat)
    requires b.Sizes() && sysect == Add32(Add32(b.rsvd, b.FatArea() % MOD32), b.rootEnt / 16)
    ensures b.System() < MOD32 ==> sysect == b.System()
  {
  }

  // The driver's tests in its own 32-bit arithmetic.
  predicate Accepts(b: Bpb) {
    var sysect := Add32(Add32(b.rsvd, b.FatArea() % MOD32), b.rootEnt / 16);
    && b.bytsPerSec == SS && b.numFats in {1, 2} && b.secPerClus in {1, 2, 4, 8, 16, 32, 64, 128}
    && b.rootEnt % 16 == 0 && b.rsvd != 0 && sysect <= b.totSec
    && var n := (b.totSec - sysect) / b.secPerClus;
       && 0 < n <= 0x0FFF_FFF5
       && (if TypeOf(n) == Fat32 then b.fsVer == 0 && b.rootEnt == 0 else b.rootEnt != 0)
       && BytesNeeded(TypeOf(n), n + 2) <= SS * b.fatSz
  }

  // Where nothing wraps, the driver accepts exactly the boot sectors it supports.
  lemma AcceptsIsSupported(b: Bpb, bsect: nat)
    requires b.Sizes() && b.NoWrap(bsect)
    ensures Accepts(b) <==> b.Supported()
  {
    hide TypeOf, BytesNeeded, Bpb.Clusters, Add32;
    var sysect := Add32(Add32(b.rsvd, b.FatArea() % MOD32), b.rootEnt / 16);
    SystemIs(b, sysect);
    if b.secPerClus in {1, 2, 4, 8, 16, 32, 64, 128} {
      ClustersAre(b, sysect);
    }
  }

  // A boot sector with a FAT of 0x80000001 sectors and 104 sectors in all.
  function WrapSector(): Sector {
    seq(SS, i requires 0 <= i < SS =>
      if i == 12 || i == 16 then 2
      else if i == 13 || i == 14 || i == 36 then 1
      else if i == 17 then 16
      else if i == 19 then 104
      else if i == 39 then 0x80
      else 0)
  }

  // A FAT size that wraps when doubled is accepted, and the layout is broken: the data
  // area starts inside the first FAT.
  lemma WrapAccepted()
    ensures var b := ReadBpb(WrapSector());
            && b == Bpb(SS, 1, 1, 2, 16, 104, 0x8000_0001, 0, 0)
            && Accepts(b) && !b.NoWrap(0)
            && Add32(Add32(b.rsvd, b.FatArea() % MOD32), b.rootEnt / 16) == 4 && b.fatSz > 4
  {
    hide ReadBpb, WrapSector, Add32;
    var b := Bpb(SS, 1, 1, 2, 16, 104, 0x8000_0001, 0, 0);
    assert ReadBpb(WrapSector()) == b by { WrapFields(); }
    assert b.FatArea() % MOD32 == 2;
    assert Add32(Add32(1, 2), 1) == 4 by { SmallSums(); }
  }

  lemma SmallSums()
    ensures Add32(Add32(1, 2), 1) == 4
  {
  }

  lemma WrapFields()
    ensures ReadBpb(WrapSector()) == Bpb(SS, 1, 1, 2, 16, 104, 0x8000_0001, 0, 0)
  {
    hide WrapSector, LdWord;
    WrapWord(11, 0, 2);
    WrapWord(14, 1, 0);
    WrapWord(17, 16, 0);
    WrapWord(19, 104, 0);
    WrapWord(22, 0, 0);
    WrapWord(36, 1, 0);
    WrapWord(38, 0, 0x80);
    WrapWord(42, 0, 0);
    WrapWord(44, 0, 0);
    WrapWord(46, 0, 0);
    assert WrapSector()[13] == 1 && WrapSector()[16] == 2 by { WrapBytes(); }
  }

  lemma WrapBytes()
    ensures WrapSector()[13] == 1 && WrapSector()[16] == 2
  {
  }

  lemma WrapWord(p: nat, b0: Byte, b1: Byte)
    requires p in {11, 14, 17, 19, 22, 36, 38, 42, 44, 46}
    requires b0 == (match p case 14 => 1 case 17 => 16 case 19 => 104 case 36 => 1 case _ => 0)
    requires b1 == (match p case 11 => 2 case 38 => 0x80 case _ => 0)
    ensures LdWord(WrapSector(), p) == b0 + 0x100 * b1
  {
  }

  // What mounting a volume with these fields gives.
  predicate MountsAs(vol: Option<Volume>, b: Bpb, bsect: nat)
    requires b.Sizes()
  {
    && (vol.Some? <==> Accepts(b))
    && (b.NoWrap(bsect) ==> (vol.Some? <==> b.Supported()))
    && (b.NoWrap(bsect) && vol.Some? ==> Describes(vol.value, b, bsect))
    && (vol.Some? ==> (vol.value.g.Ok() && vol.value.g.DataOk() <==> b.NoWrap(bsect)))
  }

  // find_volume: reads the layout off the boot sector, or refuses it.
  method ReadBootSector(win: Sector, bsect: nat) returns (vol: Option<Volume>)
    requires bsect < MOD32
    ensures MountsAs(vol, ReadBpb(win), bsect)
    ensures forall x :: Carries(win, x) ==> BpbOf(x).Sizes() && MountsAs(vol, BpbOf(x), bsect)
  {
    forall x | Carries(win, x) ensures BpbOf(x) == ReadBpb(win) { CarriedIsRead(win, x); }
    vol := ReadLayout(win, bsect);
  }

  method ReadLayout(win: Sector, bsect: nat) returns (vol: Option<Volume>)
    requires bsect < MOD32
    ensures MountsAs(vol, ReadBpb(win), bsect)
  {
    hide And, LdWord, LdDword, Add32, TypeOf, BytesNeeded, Describes, Bpb.FatArea, Bpb.NoWrap, Bpb.Supported;
    var b := ReadBpb(win);
    if b.NoWrap(bsect) {
      AcceptsIsSupported(b, bsect);
    }
    if b.bytsPerSec != SS { return None; }
    if b.numFats != 1 && b.numFats != 2 { return None; }
    var fasize := b.fatSz * b.numFats % MOD32;
    assert fasize == b.FatArea() % MOD32 by { AreaIsProduct(b); }
    var csize := b.secPerClus;
    ByteTest(csize);
    if csize == 0 || And(csize, csize - 1) != 0 { return None; }
    if b.rootEnt % 16 != 0 { return None; }
    if b.rsvd == 0 { return None; }
    var sysect := Add32(Add32(b.rsvd, fasize), b.rootEnt / 16);
    if b.totSec < sysect { return None; }
    var nclst := (b.totSec - sysect) / csize;
    Quotient(b.totSec - sysect, csize);
    if nclst == 0 { return None; }
    var fmt := None;
    if nclst <= 0x0FFF_FFF5 { fmt := Some(Fat32); }
    if nclst <= 0xFFF5 { fmt := Some(Fat16); }
    if nclst <= 0xFF5 { fmt := Some(Fat12); }
    if fmt == None { return None; }
    var t := fmt.value;
    assert t == TypeOf(nclst) by { TypeIs(nclst); }
    var nFatent := nclst + 2;
    var fatbase := Add32(bsect, b.rsvd);
    var database := Add32(bsect, sysect);
    var dirbase: nat, szbfat: nat;
    if t == Fat32 {
      if b.fsVer != 0 { return None; }
      if b.rootEnt != 0 { return None; }
      dirbase := b.rootClus;
      szbfat := nFatent * 4 % MOD32;
    } else {
      if b.rootEnt == 0 { return None; }
      dirbase := Add32(fatbase, fasize);
      szbfat := if t == Fat16 then nFatent * 2 else nFatent * 3 / 2 + nFatent % 2;
    }
    SizeIs(t, nFatent, szbfat);
    FatSizeTest(szbfat, b.fatSz);
    if b.fatSz < Add32(szbfat, 511) / SS { return None; }
    var g := Geometry(t, b.numFats, b.fatSz, csize, nFatent, bsect, fatbase, database, bsect + b.totSec);
    vol := Some(Volume(g, dirbase, b.rootEnt));
    Judged(b, g, bsect, fasize, sysect);
    if b.NoWrap(bsect) {
      Unwrapped(b, vol.value, bsect, fasize, sysect);
    }
  }

  lemma AreaIsProduct(b: Bpb)
    requires b.numFats in {1, 2}
    ensures b.FatArea() == b.fatSz * b.numFats
  {
  }

  lemma ClustersAre(b: Bpb, sysect: nat)
    requires b.secPerClus in {1, 2, 4, 8, 16, 32, 64, 128} && sysect == b.System()
    ensures b.Clusters() == if b.totSec < sysect then 0 else (b.totSec - sysect) / b.secPerClus
  {
  }

  lemma TypeIs(n: nat)
    ensures TypeOf(n) == if n <= 0xFF5 then Fat12 else if n <= 0xFFF5 then Fat16 else Fat32
  {
  }

  lemma SizeIs(t: FatType, n: nat, szbfat: nat)
    requires t == TypeOf(n - 2) && n <= 0x0FFF_FFF7
    requires szbfat == if t == Fat32 then n * 4 % MOD32 else if t == Fat16 then n * 2 else n * 3 / 2 + n % 2
    ensures szbfat == BytesNeeded(t, n) && szbfat + 511 < MOD32
  {
  }

  // Without wrapping, the layout is the one the boot sector describes.
  lemma Unwrapped(b: Bpb, v: Volume, bsect: nat, fasize: nat, sysect: nat)
    requires b.Sizes() && b.NoWrap(bsect) && b.Supported()
    requires fasize == b.FatArea() % MOD32
    requires sysect == Add32(Add32(b.rsvd, fasize), b.rootEnt / 16) <= b.totSec
    requires v.g.nFats == b.numFats && v.g.fsize == b.fatSz && v.g.csize == b.secPerClus
    requires v.g.nFatent == (b.totSec - sysect) / b.secPerClus + 2 && v.g.fatType == TypeOf(v.g.nFatent - 2)
    requires v.g.volbase == bsect && v.g.volend == bsect + b.totSec
    requires v.g.fatbase == Add32(bsect, b.rsvd) && v.g.database == Add32(bsect, sysect)
    requires v.dirbase == if v.g.fatType == Fat32 then b.rootClus else Add32(v.g.fatbase, fasize)
    requires v.nRootdir == b.rootEnt
    ensures Describes(v, b, bsect)
  {
    hide Bpb.Clusters;
    SystemIs(b, sysect);
    ClustersAre(b, sysect);
    Wraps(bsect + b.rsvd);
    Wraps(bsect + sysect);
    Wraps(b.FatArea());
    Wraps(v.g.fatbase + fasize);
  }

  lemma Wraps(x: nat)
    requires x < 3 * MOD32
    ensures x % MOD32 == if x < MOD32 then x else if x < 2 * MOD32 then x - MOD32 else x - 2 * MOD32
  {
  }

  // Wrapped region bounds are in order exactly when nothing wrapped.
  lemma OrderedIffNoWrap(bsect: nat, rsvd: nat, area: nat, root: nat, tot: nat, sysect: nat)
    requires bsect < MOD32 && 0 < rsvd < 0x1_0000 && root < 0x1_0000 && tot < MOD32 && area < 2 * MOD32
    requires sysect == Add32(Add32(rsvd, area % MOD32), root) <= tot
    ensures bsect < Add32(bsect, rsvd)
            && Add32(bsect, rsvd) + area <= Add32(bsect, sysect) <= bsect + tot < DWORD_MAX
            <==> rsvd + area + root < MOD32 && bsect + tot < DWORD_MAX
  {
    Wraps(area);
    Wraps(rsvd + area % MOD32);
    Wraps(Add32(rsvd, area % MOD32) + root);
    Wraps(bsect + rsvd);
    Wraps(bsect + sysect);
  }

  // The wrapped layout is a good one exactly when nothing wrapped.
  lemma Judged(b: Bpb, g: Geometry, bsect: nat, fasize: nat, sysect: nat)
    requires b.Sizes() && bsect < MOD32 && b.numFats in {1, 2} && b.rsvd != 0
    requires fasize == b.FatArea() % MOD32
    requires sysect == Add32(Add32(b.rsvd, fasize), b.rootEnt / 16) <= b.totSec
    requires g.nFats == b.numFats && g.fsize == b.fatSz && g.csize == b.secPerClus
    requires g.csize in {1, 2, 4, 8, 16, 32, 64, 128}
    requires 3 <= g.nFatent <= 0x0FFF_FFF7
    requires g.fatType == TypeOf(g.nFatent - 2) && BytesNeeded(g.fatType, g.nFatent) <= SS * g.fsize
    requires g.csize * (g.nFatent - 2) <= b.totSec - sysect
    requires g.volbase == bsect && g.volend == bsect + b.totSec
    requires g.fatbase == Add32(bsect, b.rsvd) && g.database == Add32(bsect, sysect)
    ensures g.Ok() && g.DataOk() <==> b.NoWrap(bsect)
  {
    hide Add32;
    OrderedIffNoWrap(bsect, b.rsvd, b.FatArea(), b.rootEnt / 16, b.totSec, sysect);
    EntriesFit(g);
    if b.NoWrap(bsect) {
      NoWrapData(bsect, sysect, b.totSec);
    }
  }

  lemma EntriesFit(g: Geometry)
    requires 3 <= g.nFatent <= 0x0FFF_FFF7 && g.fatType == TypeOf(g.nFatent - 2)
    ensures g.nFatent <= g.MaxClusters() + 2
    ensures g.FatBytes(g.nFatent) == BytesNeeded(g.fatType, g.nFatent)
  {
  }

  lemma NoWrapData(bsect: nat, sysect: nat, tot: nat)
    requires sysect <= tot && bsect + tot < DWORD_MAX
    ensures Add32(bsect, sysect) == bsect + sysect
  {
  }

  // ---- A card ------------------------------------------------------------------------

  // The boot sector of a FAT32 card: no two of its 32-bit fields are alike, and the 2048
  // sectors in front of the volume are given at offset 28.
  function Card(): Sector {
    seq(SS, i requires 0 <= i < SS =>
      if i == 12 || i == 16 then 2
      else if i == 13 || i == 29 then 8
      else if i == 14 then 32
      else if i == 21 then 0xF8
      else if i == 32 then 0x12 else if i == 33 then 0x34 else if i == 34 then 0x75
      else if i == 36 then 0x45 else if i == 37 then 0x23 else if i == 38 then 1
      else if i == 44 then 3 else if i == 45 then 4
      else if i == 48 then 1
      else 0)
  }

  const CARD := Fields(SS, 8, 32, 2, 0, 0, 0, 0x75_3412, 0x1_2345, 0, 0x403)

  lemma CardWords()
    ensures var w := Card(); Word(w, 11, SS) && w[13] == 8 && Word(w, 14, 32) && w[16] == 2 && Word(w, 17, 0)
    ensures var w := Card(); Word(w, 19, 0) && Word(w, 22, 0) && Word(w, 42, 0)
  {
  }

  lemma CardDwords()
    ensures var w := Card(); Dword(w, 32, 0x75_3412) && Dword(w, 36, 0x1_2345) && Dword(w, 44, 0x403)
  {
  }

  lemma CardAccepted(vol: Option<Volume>)
    requires BpbOf(CARD).Sizes() && MountsAs(vol, BpbOf(CARD), 2048)
    ensures vol == Some(Volume(Geometry(Fat32, 2, 74565, 8, 941487, 2048, 2080, 151210, 7683090), 0x403, 0))
  {
    hide Accepts;
    var b := BpbOf(CARD);
    assert b == Bpb(SS, 8, 32, 2, 0, 7681042, 74565, 0, 0x403);
    assert b.System() == 149162 && b.Clusters() == 941485;
  }

  // It mounts, with exactly this layout.
  method MountCard() returns (vol: Option<Volume>)
    ensures vol == Some(Volume(Geometry(Fat32, 2, 74565, 8, 941487, 2048, 2080, 151210, 7683090), 0x403, 0))
  {
    hide Word, Dword, Card, MountsAs, BpbOf;
    CardWords();
    CardDwords();
    vol := ReadBootSector(Card(), 2048);
    assert Carries(Card(), CARD);
    CardAccepted(vol);
  }

  // ---- Regions and clusters ----------------------------------------------------------

  // The reserved, FAT, root directory and data regions of a mounted volume follow each
  // other inside the volume, and every entry's bytes are in the first FAT.
  lemma RegionsInOrder(b: Bpb, v: Volume, bsect: nat, clst: nat)
    requires b.Sizes() && b.NoWrap(bsect) && b.Supported() && Describes(v, b, bsect)
    requires v.g.Ok() && v.g.DataOk() && clst < v.g.nFatent
    ensures v.g.volbase < v.g.fatbase
    ensures v.g.fatbase + v.g.nFats * v.g.fsize + (if v.g.fatType == Fat32 then 0 else v.nRootdir / 16) == v.g.database
    ensures v.g.fatType != Fat32 ==> v.dirbase == v.g.fatbase + v.g.nFats * v.g.fsize && v.nRootdir > 0
    ensures v.g.database + v.g.csize * (v.g.nFatent - 2) <= v.g.volend
    ensures EntryOffset(v.g.fatType, clst) + EntryBytes(v.g.fatType) <= SS * v.g.fsize
  {
    AreaIsProduct(b);
    EntryFits(v.g, clst);
  }

  // clst2sect in the driver's 32-bit arithmetic.
  function Clst2Sect32(g: Geometry, clst: nat): nat
    requires g.nFatent >= 2
  {
    var c := (clst + MOD32 - 2) % MOD32;
    if c >= g.nFatent - 2 then 0 else (g.database + g.csize * c) % MOD32
  }

  lemma ClusterNumber(clst: nat)
    requires clst < MOD32
    ensures (clst + MOD32 - 2) % MOD32 == if clst >= 2 then clst - 2 else clst + MOD32 - 2
  {
  }

  // On a good layout nothing wraps: the driver finds the sector file I/O works with, and
  // the cluster's sectors are all in the data area.
  lemma ClusterSector(g: Geometry, clst: nat)
    requires g.Ok() && g.DataOk() && clst < MOD32
    ensures Clst2Sect32(g, clst) == FileMap.Clst2Sect(g, clst)
    ensures Clst2Sect32(g, clst) != 0 <==> 2 <= clst < g.nFatent
    ensures 2 <= clst < g.nFatent ==>
              g.database <= Clst2Sect32(g, clst) && Clst2Sect32(g, clst) + g.csize <= g.volend
  {
    ClusterNumber(clst);
    if 2 <= clst < g.nFatent {
      var m := g.csize * (clst - 2);
      FileMap.MulMonotone(g.csize, clst - 1, g.nFatent - 2);
      FileMap.MulNext(g.csize, clst - 2);
      FileMap.MulMonotone(g.csize, 0, clst - 2);
      assert g.database + m + g.csize <= g.volend < MOD32;
      assert (g.database + m) % MOD32 == g.database + m;
    }
  }

  // Distinct clusters occupy disjoint sector ranges of the data area.
  lemma ClustersDisjoint(g: Geometry, c: nat, d: nat)
    requires g.Ok() && g.DataOk() && 2 <= c < d < g.nFatent
    ensures 0 < Clst2Sect32(g, c) && Clst2Sect32(g, c) + g.csize <= Clst2Sect32(g, d)
  {
    ClusterSector(g, c);
    ClusterSector(g, d);
    FileMap.MulMonotone(g.csize, c - 1, d - 2);
    FileMap.MulNext(g.csize, c - 2);
  }
}
