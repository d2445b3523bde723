/** FAT entries read and written through the window (thirdparty/fatfs/ff.c, get_fat and
    put_fat). */
module FatEntry {
  import opened Disk
  import opened FatLayout
  import opened FatFormat
  import opened Window

  // Reads one FAT byte through the window.
  method LoadFatByte(fs: FatFs, b: nat) returns (res: FResult, v: Byte)
    requires fs.Valid() && b < SS * fs.geo.fsize
    modifies fs.disk, fs.win, fs`wflag, fs`winsect, fs`logical, fs`mirrored
    ensures fs.Valid() && Kept(fs) && fs.fat == old(fs.fat)
    ensures SameFat(fs.geo, old(fs.logical), fs.logical)
    ensures res == FR_OK || res == FR_DISK_ERR
    ensures res == FR_OK ==> fs.winsect == fs.geo.fatbase + b / SS
    ensures res == FR_OK ==> v == FatByte(fs.geo, fs.logical, b)
    ensures fs.disk.faults == old(fs.disk.faults) ==> res == FR_OK
  {
    v := 0;
    assert fs.geo.InFat(fs.geo.fatbase + b / SS);
    res := MoveWindow(fs, fs.geo.fatbase + b / SS);
    SectorsSameFat(fs.geo, old(fs.logical), fs.logical);
    if res == FR_OK {
      v := fs.win[b % SS];
    }
  }

  // 0xFFFFFFFF: disk error, 1: internal error, otherwise the entry.
  method GetFat(fs: FatFs, clst: nat) returns (val: nat)
    requires fs.Valid()
    modifies fs.disk, fs.win, fs`wflag, fs`winsect, fs`logical, fs`mirrored
    ensures fs.Valid() && Kept(fs) && fs.fat == old(fs.fat)
    ensures !(2 <= clst < |fs.fat|) ==> val == 1 && fs.winsect == old(fs.winsect)
    ensures 2 <= clst < |fs.fat| ==> val == DWORD_MAX || val == fs.fat[clst]
    ensures 2 <= clst < |fs.fat| && val != DWORD_MAX ==> fs.geo.InFat(fs.winsect)
    ensures val == DWORD_MAX ==> fs.disk.faults > old(fs.disk.faults)
  {
    if clst < 2 || clst >= fs.geo.nFatent {
      val := 1;
    } else {
      match fs.geo.fatType
      case Fat12 => val := Load12(fs, clst);
      case Fat16 => val := Load16(fs, clst);
      case Fat32 => val := Load32(fs, clst);
    }
  }

  method Load12(fs: FatFs, clst: nat) returns (val: nat)
    requires fs.Valid() && fs.geo.fatType == Fat12 && clst < |fs.fat|
    modifies fs.disk, fs.win, fs`wflag, fs`winsect, fs`logical, fs`mirrored
    ensures fs.Valid() && Kept(fs) && fs.fat == old(fs.fat)
    ensures val == DWORD_MAX || (val == fs.fat[clst] && fs.geo.InFat(fs.winsect))
    ensures val == DWORD_MAX ==> fs.disk.faults > old(fs.disk.faults)
  {
    val := DWORD_MAX;
    EntryFits(fs.geo, clst);
    var res, b0, b1 := LoadBytePair(fs, clst + clst / 2);
    if res == FR_OK {
      TableAt(fs.geo, fs.logical, fs.fat, clst);
      val := Unpack12(clst % 2 == 1, b0, b1);
    }
  }

  // Two consecutive FAT bytes, which may lie in different sectors.
  method LoadBytePair(fs: FatFs, bc: nat) returns (res: FResult, b0: Byte, b1: Byte)
    requires fs.Valid() && bc + 1 < SS * fs.geo.fsize
    modifies fs.disk, fs.win, fs`wflag, fs`winsect, fs`logical, fs`mirrored
    ensures fs.Valid() && Kept(fs) && fs.fat == old(fs.fat)
    ensures res == FR_OK || res == FR_DISK_ERR
    ensures res == FR_OK ==> fs.geo.InFat(fs.winsect)
    ensures res == FR_OK ==> b0 == FatByte(fs.geo, fs.logical, bc) && b1 == FatByte(fs.geo, fs.logical, bc + 1)
    ensures fs.disk.faults == old(fs.disk.faults) ==> res == FR_OK
  {
    b1 := 0;
    res, b0 := LoadFatByte(fs, bc);
    if res == FR_OK {
      res, b1 := LoadFatByte(fs, bc + 1);
    }
  }

  method Load16(fs: FatFs, clst: nat) returns (val: nat)
    requires fs.Valid() && fs.geo.fatType == Fat16 && clst < |fs.fat|
    modifies fs.disk, fs.win, fs`wflag, fs`winsect, fs`logical, fs`mirrored
    ensures fs.Valid() && Kept(fs) && fs.fat == old(fs.fat)
    ensures val == DWORD_MAX || (val == fs.fat[clst] && fs.geo.InFat(fs.winsect))
    ensures val == DWORD_MAX ==> fs.disk.faults > old(fs.disk.faults)
  {
    hide FatByte, SameFat;
    val := DWORD_MAX;
    EntryFits(fs.geo, clst);
    var i := clst * 2;
    var res, b0 := LoadFatByte(fs, i);
    if res == FR_OK {
      SameSector(i, 1);
      var b1 := PeekFatByte(fs, i + 1);
      TableAt(fs.geo, fs.logical, fs.fat, clst);
      val := Unpack16(b0, b1);
    }
  }

  method Load32(fs: FatFs, clst: nat) returns (val: nat)
    requires fs.Valid() && fs.geo.fatType == Fat32 && clst < |fs.fat|
    modifies fs.disk, fs.win, fs`wflag, fs`winsect, fs`logical, fs`mirrored
    ensures fs.Valid() && Kept(fs) && fs.fat == old(fs.fat)
    ensures val == DWORD_MAX || (val == fs.fat[clst] && fs.geo.InFat(fs.winsect))
    ensures val == DWORD_MAX ==> fs.disk.faults > old(fs.disk.faults)
  {
    hide FatByte, SameFat;
    val := DWORD_MAX;
    EntryFits(fs.geo, clst);
    var i := clst * 4;
    var res, _ := LoadFatByte(fs, i);
    if res == FR_OK {
      TableAt(fs.geo, fs.logical, fs.fat, clst);
      val := PeekDword(fs, i);
    }
  }

  // A 16- or 32-bit entry never straddles two sectors.
  lemma SameSector(b: nat, k: nat)
    requires (b % 2 == 0 && k < 2) || (b % 4 == 0 && k < 4)
    ensures (b + k) / SS == b / SS
  {
    var q, r := b / SS, b % SS;
    assert r + k < SS by { if b % 2 == 0 && k < 2 { EvenOffset(b); } else { QuadOffset(b); } }
    InSameSector(q, r + k);
  }

  lemma EvenOffset(b: nat)
    requires b % 2 == 0
    ensures b % SS + 1 < SS
  {
    EvenRest(b, b / SS, b % SS, b / 2);
  }

  lemma EvenRest(b: nat, q: nat, r: nat, h: nat)
    requires b == SS * q + r && b == 2 * h && r < SS
    ensures r + 1 < SS
  {
  }

  lemma QuadOffset(b: nat)
    requires b % 4 == 0
    ensures b % SS + 3 < SS
  {
    QuadRest(b, b / SS, b % SS, b / 4);
  }

  lemma QuadRest(b: nat, q: nat, r: nat, h: nat)
    requires b == SS * q + r && b == 4 * h && r < SS
    ensures r + 3 < SS
  {
  }

  lemma InSameSector(q: nat, r: nat)
    requires r < SS
    ensures (SS * q + r) / SS == q
  {
  }

  // Byte b of the FAT, already in the window.
  method PeekFatByte(fs: FatFs, b: nat) returns (v: Byte)
    requires fs.Valid() && b < SS * fs.geo.fsize && fs.winsect == fs.geo.fatbase + b / SS
    ensures v == FatByte(fs.geo, fs.logical, b)
  {
    v := fs.win[b % SS];
    assert fs.geo.InFat(fs.winsect);
  }

  // The 28-bit entry in a window that shows FAT bytes b..b + 3.
  method PeekDword(fs: FatFs, b: nat) returns (v: nat)
    requires fs.Valid() && fs.geo.fatType == Fat32 && b % 4 == 0 && b + 3 < SS * fs.geo.fsize
    requires fs.winsect == fs.geo.fatbase + b / SS
    ensures v == Packed(fs.geo, fs.logical, b, false)
  {
    SameSector(b, 1);
    SameSector(b, 2);
    SameSector(b, 3);
    var b0 := PeekFatByte(fs, b);
    var b1 := PeekFatByte(fs, b + 1);
    var b2 := PeekFatByte(fs, b + 2);
    var b3 := PeekFatByte(fs, b + 3);
    v := Unpack32(b0, b1, b2, b3);
  }

  // Stores v in a window that shows FAT byte b, and marks the window dirty.
  method StoreFatByte(fs: FatFs, b: nat, v: Byte)
    requires fs.Valid() && b < SS * fs.geo.fsize && fs.winsect == fs.geo.fatbase + b / SS
    modifies fs.win, fs`wflag, fs`logical, fs`fat
    ensures fs.Valid() && Kept(fs)
    ensures fs.logical == WithByte(fs.geo, old(fs.logical), b, v)
    ensures fs.win[..] == old(fs.win[..])[b % SS := v]
  {
    fs.win[b % SS] := v;
    fs.wflag := true;
    assert fs.win[..] == old(fs.win[..])[b % SS := v];
    fs.logical := WithByte(fs.geo, fs.logical, b, v);
    fs.fat := Table(fs.geo, fs.logical);
  }

  // st_word into a window that shows FAT bytes b and b + 1.
  method StoreWord(fs: FatFs, b: nat, v0: Byte, v1: Byte)
    requires fs.Valid() && b % 2 == 0 && b + 1 < SS * fs.geo.fsize && fs.winsect == fs.geo.fatbase + b / SS
    modifies fs.win, fs`wflag, fs`logical, fs`fat
    ensures fs.Valid() && Kept(fs)
    ensures fs.logical == PutWord(fs.geo, old(fs.logical), b, v0, v1)
  {
    PutWordInSector(fs.geo, fs.logical, b, v0, v1);
    var i := b % SS;
    fs.win[i], fs.win[i + 1] := v0, v1;
    fs.wflag := true;
    assert fs.win[..] == old(fs.win[..])[i := v0][i + 1 := v1];
    fs.logical := PutWord(fs.geo, fs.logical, b, v0, v1);
    fs.fat := Table(fs.geo, fs.logical);
  }

  // st_dword into a window that shows FAT bytes b..b + 3.
  method StoreDword(fs: FatFs, b: nat, v0: Byte, v1: Byte, v2: Byte, v3: Byte)
    requires fs.Valid() && b % 4 == 0 && b + 3 < SS * fs.geo.fsize && fs.winsect == fs.geo.fatbase + b / SS
    modifies fs.win, fs`wflag, fs`logical, fs`fat
    ensures fs.Valid() && Kept(fs)
    ensures fs.logical == PutDword(fs.geo, old(fs.logical), b, v0, v1, v2, v3)
  {
    hide PutDword, PutWord;
    PutDwordInSector(fs.geo, fs.logical, b, v0, v1, v2, v3);
    var i := b % SS;
    fs.win[i], fs.win[i + 1], fs.win[i + 2], fs.win[i + 3] := v0, v1, v2, v3;
    fs.wflag := true;
    assert fs.win[..] == old(fs.win[..])[i := v0][i + 1 := v1][i + 2 := v2][i + 3 := v3];
    fs.logical := PutDword(fs.geo, fs.logical, b, v0, v1, v2, v3);
    fs.fat := Table(fs.geo, fs.logical);
  }

  // On success the FAT changes at clst alone, to the value cut to the entry width;
  // on failure no other cluster's entry changes. Either way the bits outside the entry stay.
  method PutFat(fs: FatFs, clst: nat, val: nat) returns (res: FResult)
    requires fs.Valid()
    modifies fs.disk, fs.win, fs`wflag, fs`winsect, fs`logical, fs`fat, fs`mirrored
    ensures fs.Valid() && Kept(fs)
    ensures res in {FR_OK, FR_DISK_ERR, FR_INT_ERR}
    ensures res == FR_INT_ERR <==> !(2 <= clst < |fs.fat|)
    ensures res == FR_INT_ERR ==> fs.fat == old(fs.fat) && fs.winsect == old(fs.winsect)
    ensures res == FR_DISK_ERR ==> fs.disk.faults > old(fs.disk.faults)
    ensures res == FR_DISK_ERR ==> forall c :: 0 <= c < |fs.fat| && c != clst ==> fs.fat[c] == old(fs.fat)[c]
    ensures res == FR_OK ==> fs.fat == old(fs.fat)[clst := Cut(fs.geo.fatType, val)]
    ensures res == FR_OK ==> fs.geo.InFat(fs.winsect)
    ensures OnlyEntry(fs.geo, old(fs.logical), fs.logical, clst)
  {
    res := FR_INT_ERR;
    if 2 <= clst < fs.geo.nFatent {
      match fs.geo.fatType
      case Fat12 => res := Store12(fs, clst, val);
      case Fat16 => res := Store16(fs, clst, val);
      case Fat32 => res := Store32(fs, clst, val);
    }
  }

  method Store12(fs: FatFs, clst: nat, val: nat) returns (res: FResult)
    requires fs.Valid() && fs.geo.fatType == Fat12 && clst < |fs.fat|
    modifies fs.disk, fs.win, fs`wflag, fs`winsect, fs`logical, fs`fat, fs`mirrored
    ensures fs.Valid() && Kept(fs)
    ensures res == FR_OK || res == FR_DISK_ERR
    ensures res == FR_DISK_ERR ==> fs.disk.faults > old(fs.disk.faults)
    ensures res == FR_DISK_ERR ==> forall c :: 0 <= c < |fs.fat| && c != clst ==> fs.fat[c] == old(fs.fat)[c]
    ensures res == FR_OK ==> fs.geo.InFat(fs.winsect)
    ensures res == FR_OK ==> fs.fat == old(fs.fat)[clst := Cut(fs.geo.fatType, val)]
    ensures OnlyEntry(fs.geo, old(fs.logical), fs.logical, clst)
  {
    hide PutFirst12, OnlyEntry, SameFat;
    EntryFits(fs.geo, clst);
    ghost var l;
    res, l := StoreFirst12(fs, clst + clst / 2, clst % 2 == 1, val);
    if res == FR_OK {
      res := FinishStore12(fs, clst, val, l, old(fs.logical), old(fs.fat));
    } else {
      SameDigits(fs.geo, old(fs.logical), fs.logical, clst);
    }
  }

  // Shows FAT byte bc in the window and merges the first byte of a 12-bit entry into it.
  method StoreFirst12(fs: FatFs, bc: nat, odd: bool, val: nat) returns (res: FResult, ghost l: seq<Sector>)
    requires fs.Valid() && bc < SS * fs.geo.fsize
    modifies fs.disk, fs.win, fs`wflag, fs`winsect, fs`logical, fs`fat, fs`mirrored
    ensures fs.Valid() && Kept(fs)
    ensures res == FR_OK || res == FR_DISK_ERR
    ensures res == FR_DISK_ERR ==> fs.disk.faults > old(fs.disk.faults) && fs.fat == old(fs.fat)
    ensures |l| == |fs.logical| && SameFat(fs.geo, old(fs.logical), l) && (res == FR_DISK_ERR ==> l == fs.logical)
    ensures res == FR_OK ==> fs.logical == PutFirst12(fs.geo, l, bc, odd, val)
  {
    var b0;
    res, b0 := LoadFatByte(fs, bc);
    l := fs.logical;
    if res == FR_OK {
      StoreFatByte(fs, bc, First12(odd, b0, val));
    }
  }

  // The second byte. A fault here leaves the entry torn but its neighbours intact.
  method FinishStore12(fs: FatFs, clst: nat, val: nat, ghost l: seq<Sector>, ghost l0: seq<Sector>, ghost f0: seq<nat>)
    returns (res: FResult)
    requires fs.Valid() && fs.geo.fatType == Fat12 && clst < |fs.fat|
    requires |l| == |fs.logical| && |l0| == |l| && SameFat(fs.geo, l0, l) && IsTable(fs.geo, l0, f0)
    requires clst + clst / 2 + 1 < SS * fs.geo.fsize
    requires fs.logical == PutFirst12(fs.geo, l, clst + clst / 2, clst % 2 == 1, val)
    modifies fs.disk, fs.win, fs`wflag, fs`winsect, fs`logical, fs`fat, fs`mirrored
    ensures fs.Valid() && Kept(fs)
    ensures res == FR_OK || res == FR_DISK_ERR
    ensures res == FR_DISK_ERR ==> fs.disk.faults > old(fs.disk.faults)
    ensures res == FR_DISK_ERR ==> forall c :: 0 <= c < |fs.fat| && c != clst ==> fs.fat[c] == f0[c]
    ensures res == FR_OK ==> fs.geo.InFat(fs.winsect)
    ensures res == FR_OK ==> fs.fat == f0[clst := Cut(fs.geo.fatType, val)]
    ensures OnlyEntry(fs.geo, l0, fs.logical, clst)
  {
    hide PutFirst12, PutSecond12, Put, SameFat, Cut, OnlyEntry;
    assert Put(fs.geo, l, clst, val) == PutSecond12(fs.geo, fs.logical, clst + clst / 2 + 1, clst % 2 == 1, val) by {
      PutIs12(fs.geo, l, clst, val);
    }
    res := StoreSecond12(fs, clst + clst / 2 + 1, clst % 2 == 1, val);
    Stored12(fs.geo, l0, l, fs.logical, clst, val, res == FR_OK);
    if res == FR_OK {
      PutDone(fs.geo, l0, l, fs.logical, clst, val, f0, fs.fat);
    } else {
      TornStore12(fs.geo, l0, l, fs.logical, clst, val, f0, fs.fat);
    }
  }

  // Both steps together, the second of which may be missing.
  lemma Stored12(g: Geometry, l0: seq<Sector>, l: seq<Sector>, l': seq<Sector>, clst: nat, val: nat, whole: bool)
    requires g.Ok() && g.Fits(|l|) && g.fatType == Fat12 && clst + clst / 2 + 1 < SS * g.fsize
    requires |l0| == |l| && |l'| == |l| && SameFat(g, l0, l)
    requires var l1 := PutFirst12(g, l, clst + clst / 2, clst % 2 == 1, val);
             SameFat(g, if whole then PutSecond12(g, l1, clst + clst / 2 + 1, clst % 2 == 1, val) else l1, l')
    ensures OnlyEntry(g, l0, l', clst)
  {
    hide OnlyEntry, SameFat;
    var l1 := PutFirst12(g, l, clst + clst / 2, clst % 2 == 1, val);
    var l2 := if whole then PutSecond12(g, l1, clst + clst / 2 + 1, clst % 2 == 1, val) else l1;
    SameDigits(g, l0, l, clst);
    First12Only(g, l, clst, val);
    OnlyEntryTwice(g, l0, l, l1, clst);
    if whole {
      Second12Only(g, l1, clst, val);
      OnlyEntryTwice(g, l0, l1, l2, clst);
    }
    SameDigits(g, l2, l', clst);
    OnlyEntryTwice(g, l0, l2, l', clst);
  }

  method StoreSecond12(fs: FatFs, bc: nat, odd: bool, val: nat) returns (res: FResult)
    requires fs.Valid() && bc < SS * fs.geo.fsize
    modifies fs.disk, fs.win, fs`wflag, fs`winsect, fs`logical, fs`fat, fs`mirrored
    ensures fs.Valid() && Kept(fs)
    ensures res == FR_OK || res == FR_DISK_ERR
    ensures res == FR_DISK_ERR ==> fs.disk.faults > old(fs.disk.faults)
    ensures res == FR_DISK_ERR ==> SameFat(fs.geo, old(fs.logical), fs.logical)
    ensures res == FR_OK ==> fs.geo.InFat(fs.winsect)
    ensures res == FR_OK ==> SameFat(fs.geo, PutSecond12(fs.geo, old(fs.logical), bc, odd, val), fs.logical)
  {
    var b1;
    res, b1 := LoadFatByte(fs, bc);
    if res == FR_OK {
      assert b1 == FatByte(fs.geo, old(fs.logical), bc);
      StoreFatByte(fs, bc, Second12(odd, b1, val));
    }
  }

  method Store16(fs: FatFs, clst: nat, val: nat) returns (res: FResult)
    requires fs.Valid() && fs.geo.fatType == Fat16 && clst < |fs.fat|
    modifies fs.disk, fs.win, fs`wflag, fs`winsect, fs`logical, fs`fat, fs`mirrored
    ensures fs.Valid() && Kept(fs)
    ensures res == FR_OK || res == FR_DISK_ERR
    ensures res == FR_DISK_ERR ==> fs.disk.faults > old(fs.disk.faults) && fs.fat == old(fs.fat)
    ensures res == FR_OK ==> fs.geo.InFat(fs.winsect)
    ensures res == FR_OK ==> fs.fat == old(fs.fat)[clst := Cut(fs.geo.fatType, val)]
    ensures OnlyEntry(fs.geo, old(fs.logical), fs.logical, clst)
  {
    hide OnlyEntry;
    EntryFits(fs.geo, clst);
    var first;
    res, first := LoadFatByte(fs, clst * 2);
    ghost var l := fs.logical;
    SameDigits(fs.geo, old(fs.logical), l, clst);
    if res == FR_OK {
      ReplaceWord(fs, clst, val);
      OnlyEntryTwice(fs.geo, old(fs.logical), l, fs.logical, clst);
    }
  }

  method Store32(fs: FatFs, clst: nat, val: nat) returns (res: FResult)
    requires fs.Valid() && fs.geo.fatType == Fat32 && clst < |fs.fat|
    modifies fs.disk, fs.win, fs`wflag, fs`winsect, fs`logical, fs`fat, fs`mirrored
    ensures fs.Valid() && Kept(fs)
    ensures res == FR_OK || res == FR_DISK_ERR
    ensures res == FR_DISK_ERR ==> fs.disk.faults > old(fs.disk.faults) && fs.fat == old(fs.fat)
    ensures res == FR_OK ==> fs.geo.InFat(fs.winsect)
    ensures res == FR_OK ==> fs.fat == old(fs.fat)[clst := Cut(fs.geo.fatType, val)]
    ensures OnlyEntry(fs.geo, old(fs.logical), fs.logical, clst)
  {
    hide OnlyEntry;
    EntryFits(fs.geo, clst);
    var first;
    res, first := LoadFatByte(fs, clst * 4);
    ghost var l := fs.logical;
    SameDigits(fs.geo, old(fs.logical), l, clst);
    if res == FR_OK {
      ReplaceDword(fs, clst, val);
      OnlyEntryTwice(fs.geo, old(fs.logical), l, fs.logical, clst);
    }
  }

  // Rewrites a 16- or 32-bit entry that lies in the window.
  method ReplaceWord(fs: FatFs, clst: nat, val: nat)
    requires fs.Valid() && fs.geo.fatType == Fat16 && clst < |fs.fat|
    requires clst * 2 + 1 < SS * fs.geo.fsize && fs.winsect == fs.geo.fatbase + clst * 2 / SS
    modifies fs.win, fs`wflag, fs`logical, fs`fat
    ensures fs.Valid() && Kept(fs)
    ensures fs.fat == old(fs.fat)[clst := Cut(fs.geo.fatType, val)]
    ensures OnlyEntry(fs.geo, old(fs.logical), fs.logical, clst)
  {
    hide OnlyEntry;
    WordOnly(fs.geo, fs.logical, clst, val % 0x100, val / 0x100 % 0x100);
    PutWordIsArrayUpdate(fs.geo, fs.logical, clst, val, fs.fat);
    StoreWord(fs, clst * 2, val % 0x100, val / 0x100 % 0x100);
    TableUnique(fs.geo, fs.logical, fs.fat, old(fs.fat)[clst := Cut(fs.geo.fatType, val)]);
  }

  method ReplaceDword(fs: FatFs, clst: nat, val: nat)
    requires fs.Valid() && fs.geo.fatType == Fat32 && clst < |fs.fat|
    requires clst * 4 + 3 < SS * fs.geo.fsize && fs.winsect == fs.geo.fatbase + clst * 4 / SS
    modifies fs.win, fs`wflag, fs`logical, fs`fat
    ensures fs.Valid() && Kept(fs)
    ensures fs.fat == old(fs.fat)[clst := Cut(fs.geo.fatType, val)]
    ensures OnlyEntry(fs.geo, old(fs.logical), fs.logical, clst)
  {
    hide IsTable, OnlyEntry;
    Merged(fs.geo, fs.logical, clst, val);
    MergeDword(fs, clst * 4, val);
    DwordReplaced(fs.geo, old(fs.logical), old(fs.fat), fs.logical, fs.fat, clst, val);
  }

  lemma DwordReplaced(g: Geometry, l: seq<Sector>, f: seq<nat>, l': seq<Sector>, f': seq<nat>, clst: nat, val: nat)
    requires g.Ok() && g.Fits(|l|) && g.fatType == Fat32 && IsTable(g, l, f) && clst < |f| && |l'| == |l| && IsTable(g, l', f')
    requires clst * 4 + 3 < SS * g.fsize
    requires l' == PutDword(g, l, clst * 4, val % 0x100, val / 0x100 % 0x100, val / 0x1_0000 % 0x100,
                            Top32(FatByte(g, l, clst * 4 + 3), val))
    ensures f' == f[clst := Cut(g.fatType, val)]
  {
    PutDwordIsArrayUpdate(g, l, clst, val, f);
    TableUnique(g, l', f', f[clst := Cut(g.fatType, val)]);
  }

  lemma Merged(g: Geometry, l: seq<Sector>, clst: nat, val: nat)
    requires g.Ok() && g.Fits(|l|) && g.fatType == Fat32 && clst * 4 + 3 < SS * g.fsize
    ensures OnlyEntry(g, l, PutDword(g, l, clst * 4, val % 0x100, val / 0x100 % 0x100, val / 0x1_0000 % 0x100,
                                     Top32(FatByte(g, l, clst * 4 + 3), val)), clst)
  {
    hide OnlyEntry, PutDword, FatByte;
    Pack32(FatByte(g, l, clst * 4 + 3), val);
    DwordOnly(g, l, clst, val % 0x100, val / 0x100 % 0x100, val / 0x1_0000 % 0x100, Top32(FatByte(g, l, clst * 4 + 3), val));
  }

  // Stores the low 28 bits of val and keeps the top four bits of the entry.
  method MergeDword(fs: FatFs, b: nat, val: nat)
    requires fs.Valid() && b % 4 == 0 && b + 3 < SS * fs.geo.fsize && fs.winsect == fs.geo.fatbase + b / SS
    modifies fs.win, fs`wflag, fs`logical, fs`fat
    ensures fs.Valid() && Kept(fs)
    ensures fs.logical == PutDword(fs.geo, old(fs.logical), b, val % 0x100, val / 0x100 % 0x100, val / 0x1_0000 % 0x100,
                                   Top32(FatByte(fs.geo, old(fs.logical), b + 3), val))
  {
    SameSector(b, 3);
    var prev := PeekFatByte(fs, b + 3);
    StoreDword(fs, b, val % 0x100, val / 0x100 % 0x100, val / 0x1_0000 % 0x100, Top32(prev, val));
  }

  // The FAT16/32 entry of cluster c, whose first byte the window shows.
  method PeekEntry(fs: FatFs, c: nat) returns (v: nat)
    requires fs.Valid() && fs.geo.fatType != Fat12 && c < |fs.fat|
    requires fs.winsect == fs.geo.fatbase + EntryOffset(fs.geo.fatType, c) / SS
    ensures v == fs.fat[c]
  {
    EntryFits(fs.geo, c);
    if fs.geo.fatType == Fat16 {
      v := PeekWord(fs, c * 2);
    } else {
      v := PeekDword(fs, c * 4);
    }
    assert v == fs.fat[c] by { TableAt(fs.geo, fs.logical, fs.fat, c); }
  }

  // ld_word(p) in a window that shows FAT bytes b and b + 1.
  method PeekWord(fs: FatFs, b: nat) returns (v: nat)
    requires fs.Valid() && fs.geo.fatType == Fat16 && b % 2 == 0 && b + 1 < SS * fs.geo.fsize
    requires fs.winsect == fs.geo.fatbase + b / SS
    ensures v == Packed(fs.geo, fs.logical, b, false)
  {
    SameSector(b, 1);
    var b0 := PeekFatByte(fs, b);
    var b1 := PeekFatByte(fs, b + 1);
    v := Unpack16(b0, b1);
  }
}
