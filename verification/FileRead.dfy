/** Reading a file (thirdparty/fatfs/ff.c, f_read): what reaches the caller is exactly
    the requested slice of the file's bytes. */
module FileRead {
  import opened Disk
  import opened FatLayout
  import opened Window
  import opened FatEntry
  import opened Chain
  import opened FileMap
  import opened File

  // disk_read of sectors the window does not hold.
  method ReadData(fs: FatFs, sector: nat, count: nat, buf: array<Byte>, ofs: nat) returns (ok: bool)
    requires fs.Valid() && buf != fs.win && ofs + SS * count <= buf.Length
    requires !(sector <= fs.winsect < sector + count)
    modifies buf, fs.disk`faults
    ensures fs.disk.faults == old(fs.disk.faults) + (if ok then 0 else 1)
    ensures forall i :: 0 <= i < buf.Length && !(ofs <= i < ofs + SS * count) ==> buf[i] == old(buf[i])
    ensures ok ==> sector + count <= |fs.logical|
    ensures ok ==> forall i :: ofs <= i < ofs + SS * count ==>
              buf[i] == fs.logical[sector + (i - ofs) / SS][(i - ofs) % SS]
  {
    ok := fs.disk.Read(sector, count, buf, ofs);
  }

  // Moves clust on to the cluster of the sector at the cursor, which starts a cluster.
  // On a chain get_fat cannot answer 0 or 1, so the internal-error exit is unreachable.
  method FollowChain(fp: Fil) returns (res: FResult)
    requires fp.Core() && fp.Cursor() && fp.fptr < fp.objsize
    requires fp.fptr % SS == 0 && fp.fptr / SS % fp.fs.geo.csize == 0
    modifies fp`clust, fp.fs.disk, fp.fs.win, fp.fs`wflag, fp.fs`winsect, fp.fs`logical, fp.fs`mirrored
    ensures Elsewhere(fp)
    ensures fp.Core() && fp.fs.fat == old(fp.fs.fat) && fp.fs.disk.faults >= old(fp.fs.disk.faults)
    ensures res == FR_OK || res == FR_DISK_ERR
    ensures res == FR_OK ==> fp.At(fp.fptr / SS)
    ensures res == FR_DISK_ERR ==> fp.fs.disk.faults > old(fp.fs.disk.faults)
  {
    hide FatFs.Valid, OwnOk, ImgOk, Around;
    ghost var k := fp.fptr / SS;
    ClusterIndexInChain(fp.fs.geo, |fp.chain|, k);
    var clst;
    if fp.fptr == 0 {
      clst := fp.sclust;
      DivMod(0, fp.fs.geo.csize, 0, 0);
      SameExtent(fp);
    } else {
      PreviousSector(fp.fs.geo, k);
      clst := NextInChain(fp, (k - 1) / fp.fs.geo.csize);
      if clst == DWORD_MAX { return FR_DISK_ERR; }
    }
    fp.clust := clst;
    res := FR_OK;
  }

  method NextInChain(fp: Fil, ghost q: nat) returns (clst: nat)
    requires fp.Core() && q + 1 < |fp.chain| && fp.clust == fp.chain[q]
    modifies fp.fs.disk, fp.fs.win, fp.fs`wflag, fp.fs`winsect, fp.fs`logical, fp.fs`mirrored
    ensures Elsewhere(fp)
    ensures fp.Core() && fp.fs.fat == old(fp.fs.fat) && fp.fs.disk.faults >= old(fp.fs.disk.faults)
    ensures if clst == DWORD_MAX then fp.fs.disk.faults > old(fp.fs.disk.faults) else clst == fp.chain[q + 1]
  {
    assert fp.fs.fat[fp.clust] == fp.chain[q + 1] by {
      MiddleLink(fp.fs.fat, fp.chain, q);
    }
    clst := GetFat(fp.fs, fp.clust);
    FatReadKeepsCore(fp);
    assert Elsewhere(fp) by { FatReadElsewhere(fp); }
  }

  // The physical sector of the file's k-th sector, from the current cluster.
  lemma SectorAtCursor(fp: Fil, k: nat)
    requires fp.Core() && fp.At(k) && k < |fp.secs|
    ensures Clst2Sect(fp.fs.geo, fp.clust) != 0
    ensures Clst2Sect(fp.fs.geo, fp.clust) + k % fp.fs.geo.csize == fp.secs[k]
  {
    assert fp.secs[k] == SectorAt(fp.fs.geo, fp.chain, k);
    SectorOfInData(fp.fs.geo, fp.clust, 0);
  }

  // The window never holds one of the file's sectors.
  lemma RunAvoidsWindow(fp: Fil, k: nat, cc: nat)
    requires fp.Core() && cc > 0 && InOrder(fp.secs, k, cc)
    ensures !(fp.secs[k] <= fp.fs.winsect < fp.secs[k] + cc)
  {
    forall s | fp.secs[k] <= s < fp.secs[k] + cc ensures s in fp.own {
      assert fp.secs[k + (s - fp.secs[k])] == s;
    }
  }

  // Whole sectors straight into the caller's buffer; a dirty sector among them is
  // replaced by the file's buffer.
  method ReadDirect(fp: Fil, sect: nat, cc: nat, buff: array<Byte>, ofs: nat, ghost k: nat) returns (res: FResult)
    requires fp.Core() && cc > 0 && InOrder(fp.secs, k, cc) && sect == fp.secs[k]
    requires buff != fp.buf && buff != fp.fs.win && ofs + SS * cc <= buff.Length && SS * k + SS * cc <= fp.objsize
    modifies buff, fp.fs.disk`faults
    ensures fp.fs.disk.faults >= old(fp.fs.disk.faults)
    ensures res == FR_OK || res == FR_DISK_ERR
    ensures res == FR_DISK_ERR ==> fp.fs.disk.faults > old(fp.fs.disk.faults)
    ensures res == FR_OK ==> buff[..] == Splice(old(buff[..]), ofs, fp.Data()[SS * k..SS * k + SS * cc])
  {
    hide Shape, OwnOk, Splice, Content;
    RunAvoidsWindow(fp, k, cc);
    var ok := ReadData(fp.fs, sect, cc, buff, ofs);
    if !ok { return FR_DISK_ERR; }
    if fp.dirty && sect <= fp.sect < sect + cc {
      CopyBytes(fp.buf, 0, buff, ofs + SS * (fp.sect - sect), SS);
    }
    assert buff[..] == Splice(old(buff[..]), ofs, fp.Data()[SS * k..SS * k + SS * cc]) by {
      DirectBytes(fp.fs.logical, fp.secs, fp.dirty, fp.sect, fp.buf[..], fp.img, k, cc, buff[..], ofs);
      SectorsSpliced(old(buff[..]), buff[..], ofs, SS * cc, fp.img, k, fp.objsize);
    }
    res := FR_OK;
  }

  // The bytes read agree with the file's sectors, pending buffer included.
  lemma DirectBytes(l: seq<Sector>, secs: seq<nat>, dirty: bool, fsect: nat, fbuf: seq<Byte>, img: seq<Sector>,
                    k: nat, cc: nat, b: seq<Byte>, ofs: nat)
    requires |fbuf| == SS && ImgOk(l, secs, dirty, fsect, fbuf, img)
    requires cc > 0 && InOrder(secs, k, cc) && secs[k] + cc <= |l| && ofs + SS * cc <= |b|
    requires forall i :: ofs <= i < ofs + SS * cc ==>
               b[i] == if dirty && secs[k] + (i - ofs) / SS == fsect then fbuf[(i - ofs) % SS]
                       else l[secs[k] + (i - ofs) / SS][(i - ofs) % SS]
    ensures forall i :: ofs <= i < ofs + SS * cc ==> b[i] == img[k + (i - ofs) / SS][(i - ofs) % SS]
  {
    forall i | ofs <= i < ofs + SS * cc ensures b[i] == img[k + (i - ofs) / SS][(i - ofs) % SS] {
      var m := k + (i - ofs) / SS;
      assert secs[m] == secs[k] + (i - ofs) / SS;
    }
  }

  // mem_cpy
  method CopyBytes(src: array<Byte>, from: nat, dst: array<Byte>, to: nat, cnt: nat)
    requires src != dst && from + cnt <= src.Length && to + cnt <= dst.Length
    modifies dst
    ensures forall i :: 0 <= i < dst.Length ==>
              dst[i] == if to <= i < to + cnt then src[from + (i - to)] else old(dst[i])
  {
    for n := 0 to cnt
      invariant forall i :: 0 <= i < dst.Length ==>
                  dst[i] == if to <= i < to + n then src[from + (i - to)] else old(dst[i])
    {
      dst[to + n] := src[from + n];
    }
  }

  // Writes a dirty buffer back to its sector.
  method Flush(fp: Fil) returns (res: FResult)
    requires fp.Core()
    modifies fp`dirty, fp.fs.disk, fp.fs`logical
    ensures |fp.fs.logical| == |old(fp.fs.logical)|
    ensures forall s {:trigger fp.fs.logical[s]} :: 0 <= s < |fp.fs.logical| && !(old(fp.dirty) && s == fp.sect) ==>
              fp.fs.logical[s] == old(fp.fs.logical)[s]
    ensures Elsewhere(fp)
    ensures fp.Core() && fp.fs.disk.faults >= old(fp.fs.disk.faults)
    ensures res == FR_OK || res == FR_DISK_ERR
    ensures res == FR_OK <==> !fp.dirty
    ensures res == FR_DISK_ERR ==> fp.fs.disk.faults > old(fp.fs.disk.faults)
  {
    hide Around;
    res := FR_OK;
    SameExtent(fp);
    if fp.dirty {
      var ok := WriteData(fp.fs, fp.sect, 1, fp.buf[..], 0);
      OwnWriteElsewhere(fp);
      FlushKeepsImage(fp.fs.geo, fp.fs.fat, fp.chain, old(fp.fs.logical), fp.fs.logical, fp.secs, fp.sect, fp.buf[..], fp.img, ok);
      if ok {
        fp.dirty := false;
      } else {
        res := FR_DISK_ERR;
      }
    }
  }

  lemma FlushKeepsImage(g: Geometry, f: seq<nat>, chain: seq<nat>, l: seq<Sector>, l': seq<Sector>, secs: seq<nat>,
                        sect: nat, b: seq<Byte>, img: seq<Sector>, ok: bool)
    requires |b| == SS && sect < |l| && |l'| == |l| && ImgOk(l, secs, true, sect, b, img)
    requires forall k :: 0 <= k < |l| && k != sect ==> l'[k] == l[k]
    requires ok ==> l'[sect] == b
    ensures ImgOk(l', secs, !ok, sect, b, img)
  {
    forall k | 0 <= k < |img|
      ensures secs[k] < |l'| && img[k] == if !ok && secs[k] == sect then b else l'[secs[k]]
    {
      assert img[k] == if secs[k] == sect then b else l[secs[k]];
    }
  }

  // disk_write of data sectors, which the window does not hold. After a failure the
  // addressed sectors are unspecified.
  method WriteData(fs: FatFs, sector: nat, count: nat, data: seq<Byte>, ofs: nat) returns (ok: bool)
    requires fs.Valid() && ofs + SS * count <= |data|
    requires fs.geo.database <= sector && sector + count <= fs.geo.volend
    requires !(sector <= fs.winsect < sector + count)
    modifies fs.disk, fs`logical
    ensures fs.Valid() && |fs.logical| == |old(fs.logical)|
    ensures fs.disk.faults == old(fs.disk.faults) + (if ok then 0 else 1)
    ensures forall k :: 0 <= k < |fs.logical| && !(sector <= k < sector + count) ==> fs.logical[k] == old(fs.logical)[k]
    ensures ok ==> forall k :: sector <= k < sector + count ==>
              fs.logical[k] == data[ofs + SS * (k - sector)..ofs + SS * (k - sector) + SS]
  {
    ok := fs.disk.Write(sector, count, data, ofs);
    fs.logical := Overlay(fs.disk.sectors, fs.wflag, fs.winsect, fs.win[..]);
    DataCarriesNoEntry(fs.geo, old(fs.logical), fs.logical, fs.fat);
    DataCarriesNoMirror(fs.geo, old(fs.disk.sectors), fs.disk.sectors, if fs.wflag then fs.winsect else NO_SECTOR);
  }

  lemma DataCarriesNoEntry(g: Geometry, l: seq<Sector>, l': seq<Sector>, f: seq<nat>)
    requires g.Ok() && g.Fits(|l|) && |l'| == |l| && IsTable(g, l, f)
    requires forall k :: 0 <= k < g.database ==> l'[k] == l[k]
    ensures IsTable(g, l', f)
  {
    forall b: nat | b < SS * g.fsize ensures FatByte(g, l', b) == FatByte(g, l, b) {
      assert g.InFat(g.fatbase + b / SS);
    }
    TableKept(g, l, l', f);
  }

  lemma DataCarriesNoMirror(g: Geometry, d: seq<Sector>, d': seq<Sector>, dirty: nat)
    requires g.Ok() && g.Fits(|d|) && |d'| == |d|
    requires forall k :: 0 <= k < g.database ==> d'[k] == d[k]
    ensures g.Mirrored(d, dirty) ==> g.Mirrored(d', dirty)
  {
    if g.Mirrored(d, dirty) && g.nFats == 2 {
      forall k | g.InFat(k) && k != dirty ensures d'[g.fsize + k] == d'[k] {
        assert d[g.fsize + k] == d[k];
      }
    }
  }

  // With nothing pending, the buffer plays no part in what the file holds.
  lemma CleanImage(l: seq<Sector>, secs: seq<nat>, sect: nat, b: seq<Byte>, sect': nat, b': seq<Byte>, img: seq<Sector>)
    requires |b| == SS && |b'| == SS && ImgOk(l, secs, false, sect, b, img)
    ensures ImgOk(l, secs, false, sect', b', img)
  {
    forall k | 0 <= k < |img| ensures secs[k] < |l| && img[k] == l[secs[k]] {
      var held := img[k];
      assert held == l[secs[k]];
    }
  }

  // Reads the file's k-th sector into a buffer that holds nothing pending.
  method ReadSector(fp: Fil, sect: nat, ghost k: nat) returns (ok: bool)
    requires fp.Core() && !fp.dirty && k < |fp.secs| && sect == fp.secs[k]
    modifies fp`sect, fp.buf, fp.fs.disk`faults
    ensures fp.fs.Valid()
    ensures Elsewhere(fp)
    ensures ok ==> fp.Core() && fp.sect == sect
    ensures fp.fs.disk.faults == old(fp.fs.disk.faults) + (if ok then 0 else 1)
  {
    hide FatFs.Valid, Shape, ImgOk, Around;
    BufferElsewhere(fp);
    assert sect in fp.own;
    ghost var b := fp.buf[..];
    ok := ReadData(fp.fs, sect, 1, fp.buf, 0);
    if !ok { return; }
    assert fp.buf[..] == fp.fs.logical[sect];
    CleanImage(fp.fs.logical, fp.secs, fp.sect, b, sect, fp.buf[..], fp.img);
    fp.sect := sect;
    BufferElsewhere(fp);
  }

  // Makes the buffer show the file's k-th sector.
  method Load(fp: Fil, sect: nat, ghost k: nat) returns (res: FResult)
    requires fp.Core() && k < |fp.secs| && sect == fp.secs[k]
    modifies fp`dirty, fp`sect, fp.buf, fp.fs.disk, fp.fs`logical
    ensures fp.fs.Valid()
    ensures Elsewhere(fp)
    ensures res == FR_OK ==> fp.Core() && fp.sect == sect
    ensures res == FR_OK || res == FR_DISK_ERR
    ensures fp.fs.disk.faults >= old(fp.fs.disk.faults)
    ensures res == FR_DISK_ERR ==> fp.fs.disk.faults > old(fp.fs.disk.faults)
  {
    hide FatFs.Valid, Shape, OwnOk, ImgOk, Around;
    res := FR_OK;
    SameExtent(fp);
    if fp.sect != sect {
      res := Flush(fp);
      if res != FR_OK { return; }
      ghost var mid := fp.Place();
      var ok := ReadSector(fp, sect, k);
      AroundTwice(fp.fs.geo, old(fp.Place()), mid, fp.Place());
      if !ok { return FR_DISK_ERR; }
    }
  }

  // At a sector boundary: clust becomes the cluster of the sector at the cursor.
  method AtSector(fp: Fil) returns (res: FResult)
    requires fp.Core() && fp.Cursor() && fp.fptr < fp.objsize && fp.fptr % SS == 0
    modifies fp`clust, fp.fs.disk, fp.fs.win, fp.fs`wflag, fp.fs`winsect, fp.fs`logical, fp.fs`mirrored
    ensures Elsewhere(fp)
    ensures fp.Core() && fp.fs.fat == old(fp.fs.fat) && fp.fs.disk.faults >= old(fp.fs.disk.faults)
    ensures res == FR_OK || res == FR_DISK_ERR
    ensures res == FR_OK ==> fp.At(fp.fptr / SS)
    ensures res == FR_DISK_ERR ==> fp.fs.disk.faults > old(fp.fs.disk.faults)
  {
    hide FatFs.Valid, Shape, OwnOk, ImgOk, Around;
    res := FR_OK;
    if fp.fptr / SS % fp.fs.geo.csize == 0 {
      res := FollowChain(fp);
    } else {
      SameExtent(fp);
      PreviousSector(fp.fs.geo, fp.fptr / SS);
    }
  }

  // The buffer shows the file's k-th sector.
  lemma BufferShows(fp: Fil, k: nat)
    requires fp.Core() && k < |fp.secs| && fp.sect == fp.secs[k]
    ensures fp.buf[..] == fp.img[k]
  {
    assert fp.secs[k] in fp.own;
  }

  // f_read's direct transfer of whole sectors, cut at the cluster's end.
  method ReadWhole(fp: Fil, buff: array<Byte>, ofs: nat, btr: nat) returns (res: FResult, rcnt: nat)
    requires fp.Core() && fp.fptr % SS == 0 && fp.At(fp.fptr / SS) && SS <= btr <= fp.objsize - fp.fptr
    requires buff != fp.buf && buff != fp.fs.win && ofs + btr <= buff.Length
    modifies buff, fp`fptr, fp.fs.disk`faults
    ensures fp.fs.Valid()
    ensures res == FR_OK || res == FR_DISK_ERR
    ensures fp.fs.disk.faults >= old(fp.fs.disk.faults)
    ensures res == FR_DISK_ERR ==> fp.fs.disk.faults > old(fp.fs.disk.faults)
    ensures res == FR_OK ==> fp.Cursor() && 0 < rcnt <= btr && fp.fptr == old(fp.fptr) + rcnt
    ensures res == FR_OK ==> buff[..] == Splice(old(buff[..]), ofs, fp.Data()[old(fp.fptr)..old(fp.fptr) + rcnt])
  {
    hide FatFs.Valid, Shape, OwnOk, ImgOk, Splice, Content;
    ghost var k := fp.fptr / SS;
    var sect, cc := WholeRun(fp, btr);
    rcnt := SS * cc;
    res := ReadDirect(fp, sect, cc, buff, ofs, k);
    if res == FR_OK {
      fp.fptr := fp.fptr + rcnt;
      CursorAfterWhole(fp, k, cc);
    }
  }

  // The longest run of whole sectors from the cursor on that fits in `bytes` and in the
  // current cluster.
  method WholeRun(fp: Fil, bytes: nat) returns (sect: nat, cc: nat)
    requires fp.Core() && fp.At(fp.fptr / SS) && fp.fptr / SS < |fp.secs| && bytes >= SS
    ensures cc > 0 && SS * cc <= bytes && InOrder(fp.secs, fp.fptr / SS, cc) && sect == fp.secs[fp.fptr / SS]
    ensures fp.fptr / SS % fp.fs.geo.csize + cc <= fp.fs.geo.csize
  {
    var k := fp.fptr / SS;
    SectorAtCursor(fp, k);
    sect := Clst2Sect(fp.fs.geo, fp.clust) + k % fp.fs.geo.csize;
    cc := DirectCount(fp.fs.geo, k, bytes);
    ClusterInOrder(fp.fs.geo, fp.chain, fp.secs, k, cc);
  }

  // Whole sectors to transfer from sector k of the file, cut at the cluster's end.
  function DirectCount(g: Geometry, k: nat, bytes: nat): (cc: nat)
    requires g.DataOk() && bytes >= SS
    ensures 0 < cc && SS * cc <= bytes && k % g.csize + cc <= g.csize
  {
    var cc := bytes / SS;
    if k % g.csize + cc > g.csize then g.csize - k % g.csize else cc
  }

  lemma CursorAfterWhole(fp: Fil, k: nat, cc: nat)
    requires fp.fs.geo.DataOk() && fp.At(k) && cc > 0 && k % fp.fs.geo.csize + cc <= fp.fs.geo.csize
    requires fp.fptr == SS * k + SS * cc <= fp.objsize
    ensures fp.Cursor()
  {
    assert (fp.fptr - 1) / SS == k + (cc - 1);
    SameCluster(fp.fs.geo, k, cc - 1);
  }

  // The rest of the buffered sector, or less.
  method ReadPart(fp: Fil, buff: array<Byte>, ofs: nat, btr: nat) returns (rcnt: nat)
    requires fp.Core() && 0 < btr <= fp.objsize - fp.fptr
    requires fp.At(fp.fptr / SS) && fp.sect == fp.secs[fp.fptr / SS]
    requires buff != fp.buf && buff != fp.fs.win && ofs + btr <= buff.Length
    modifies buff, fp`fptr
    ensures fp.Cursor() && 0 < rcnt <= btr && fp.fptr == old(fp.fptr) + rcnt
    ensures buff[..] == Splice(old(buff[..]), ofs, fp.Data()[old(fp.fptr)..old(fp.fptr) + rcnt])
  {
    hide FatFs.Valid, Shape, OwnOk, ImgOk, Splice, Content;
    rcnt := Min(SS - fp.fptr % SS, btr);
    CopyBytes(fp.buf, fp.fptr % SS, buff, ofs, rcnt);
    assert buff[..] == Splice(old(buff[..]), ofs, fp.Data()[fp.fptr..fp.fptr + rcnt]) by {
      BufferShows(fp, fp.fptr / SS);
      PartSpliced(old(buff[..]), buff[..], ofs, rcnt, fp.img, fp.fptr, fp.objsize);
    }
    fp.fptr := fp.fptr + rcnt;
    CursorAfterPart(fp, fp.fptr - rcnt);
  }

  lemma CursorAfterPart(fp: Fil, p: nat)
    requires fp.fs.geo.csize > 0 && fp.At(p / SS) && p / SS < |fp.secs| && fp.sect == fp.secs[p / SS]
    requires p < fp.fptr <= fp.objsize && fp.fptr - p <= SS - p % SS
    ensures fp.Cursor()
  {
    assert (fp.fptr - 1) / SS == p / SS;
    assert fp.fptr % SS != 0 ==> fp.fptr / SS == p / SS;
  }

  // One turn of f_read's loop, the cursor's advance included.
  method ReadStep(fp: Fil, buff: array<Byte>, ofs: nat, btr: nat) returns (res: FResult, rcnt: nat)
    requires fp.Core() && fp.Cursor() && 0 < btr <= fp.objsize - fp.fptr
    requires buff != fp.buf && buff != fp.fs.win && ofs + btr <= buff.Length
    modifies buff, fp`dirty, fp`sect, fp`clust, fp`fptr, fp.buf
    modifies fp.fs.disk, fp.fs.win, fp.fs`wflag, fp.fs`winsect, fp.fs`logical, fp.fs`mirrored
    ensures fp.fs.Valid()
    ensures Elsewhere(fp)
    ensures res == FR_OK || res == FR_DISK_ERR
    ensures fp.fs.disk.faults >= old(fp.fs.disk.faults)
    ensures res == FR_DISK_ERR ==> fp.fs.disk.faults > old(fp.fs.disk.faults)
    ensures res == FR_OK ==> fp.Core() && fp.Cursor() && 0 < rcnt <= btr && fp.fptr == old(fp.fptr) + rcnt
    ensures res == FR_OK ==> buff[..] == Splice(old(buff[..]), ofs, fp.Data()[old(fp.fptr)..old(fp.fptr) + rcnt])
  {
    hide FatFs.Valid, Shape, OwnOk, ImgOk, Splice, Content, Around, Fil.Core, Fil.Data;
    SizeFits(fp);
    res := FR_OK;
    if fp.fptr % SS == 0 {
      res := AtSector(fp);
      SizeFits(fp);
      if res != FR_OK { return res, 0; }
      ghost var mid := fp.Place();
      res, rcnt := ReadAtBoundary(fp, buff, ofs, btr);
      AroundTwice(fp.fs.geo, old(fp.Place()), mid, fp.Place());
    } else {
      InsideSector(fp);
      rcnt := ReadPart(fp, buff, ofs, btr);
      SameExtent(fp);
    }
  }

  method ReadAtBoundary(fp: Fil, buff: array<Byte>, ofs: nat, btr: nat) returns (res: FResult, rcnt: nat)
    requires fp.Core() && fp.fptr % SS == 0 && fp.At(fp.fptr / SS) && 0 < btr <= fp.objsize - fp.fptr
    requires buff != fp.buf && buff != fp.fs.win && ofs + btr <= buff.Length
    modifies buff, fp`dirty, fp`sect, fp`fptr, fp.buf, fp.fs.disk, fp.fs`logical
    ensures fp.fs.Valid()
    ensures Elsewhere(fp)
    ensures res == FR_OK || res == FR_DISK_ERR
    ensures fp.fs.disk.faults >= old(fp.fs.disk.faults)
    ensures res == FR_DISK_ERR ==> fp.fs.disk.faults > old(fp.fs.disk.faults)
    ensures res == FR_OK ==> fp.Core() && fp.Cursor() && 0 < rcnt <= btr && fp.fptr == old(fp.fptr) + rcnt
    ensures res == FR_OK ==> buff[..] == Splice(old(buff[..]), ofs, fp.Data()[old(fp.fptr)..old(fp.fptr) + rcnt])
  {
    hide FatFs.Valid, Shape, OwnOk, ImgOk, Splice, Content, Around;
    if btr / SS > 0 {
      res, rcnt := ReadWhole(fp, buff, ofs, btr);
      SameExtent(fp);
    } else {
      res := LoadAtCursor(fp);
      if res != FR_OK { return res, 0; }
      rcnt := ReadPart(fp, buff, ofs, btr);
    }
  }

  lemma InsideSector(fp: Fil)
    requires fp.fs.geo.csize > 0 && fp.Cursor() && fp.fptr % SS != 0
    ensures fp.At(fp.fptr / SS) && fp.fptr / SS < |fp.secs| && fp.sect == fp.secs[fp.fptr / SS]
  {
    assert (fp.fptr - 1) / SS == fp.fptr / SS;
  }

  method LoadAtCursor(fp: Fil) returns (res: FResult)
    requires fp.Core() && fp.At(fp.fptr / SS) && fp.fptr / SS < |fp.secs|
    modifies fp`dirty, fp`sect, fp.buf, fp.fs.disk, fp.fs`logical
    ensures fp.fs.Valid()
    ensures Elsewhere(fp)
    ensures res == FR_OK ==> fp.Core() && fp.sect == fp.secs[fp.fptr / SS]
    ensures res == FR_OK || res == FR_DISK_ERR
    ensures fp.fs.disk.faults >= old(fp.fs.disk.faults)
    ensures res == FR_DISK_ERR ==> fp.fs.disk.faults > old(fp.fs.disk.faults)
  {
    hide Around;
    SectorAtCursor(fp, fp.fptr / SS);
    res := Load(fp, Clst2Sect(fp.fs.geo, fp.clust) + fp.fptr / SS % fp.fs.geo.csize, fp.fptr / SS);
  }

  lemma SizeFits(fp: Fil)
    requires fp.Core()
    ensures fp.objsize <= SS * |fp.img| && fp.fs.geo.csize > 0 && fp.fs.Valid()
  {
  }

  // f_read's loop.
  method ReadLoop(fp: Fil, buff: array<Byte>, count: nat) returns (res: FResult, br: nat)
    requires fp.Core() && fp.Cursor() && buff != fp.buf && buff != fp.fs.win
    requires count <= buff.Length && count <= fp.objsize - fp.fptr
    modifies buff, fp`dirty, fp`sect, fp`clust, fp`fptr, fp.buf
    modifies fp.fs.disk, fp.fs.win, fp.fs`wflag, fp.fs`winsect, fp.fs`logical, fp.fs`mirrored
    ensures fp.fs.Valid()
    ensures Elsewhere(fp)
    ensures res == FR_OK || res == FR_DISK_ERR
    ensures res == FR_DISK_ERR ==> fp.fs.disk.faults > old(fp.fs.disk.faults)
    ensures res == FR_OK ==> fp.Core() && fp.Cursor() && br == count && fp.fptr == old(fp.fptr) + count
    ensures res == FR_OK ==> buff[..] == Splice(old(buff[..]), 0, fp.Data()[old(fp.fptr)..old(fp.fptr) + count])
  {
    hide FatFs.Valid, Shape, OwnOk, ImgOk, Splice, Content, Fil.Data, Fil.Cursor, Fil.Place, Fil.Core, Around;
    br := 0;
    SizeFits(fp);
    var btr := count;
    res := FR_OK;
    SameExtent(fp);
    ghost var p, d, b := fp.fptr, fp.Data(), buff[..];
    while btr > 0
      invariant fp.Core() && fp.fs.geo.csize > 0 && fp.Cursor() && res == FR_OK && Elsewhere(fp)
      invariant fp.objsize <= SS * |fp.img| && fp.fs.Valid()
      invariant br + btr == count && fp.fptr == p + br && fp.Data() == d && |b| == buff.Length
      invariant fp.fs.disk.faults >= old(fp.fs.disk.faults)
      invariant buff[..] == Splice(b, 0, d[p..p + br])
    {
      var rcnt;
      ghost var mid := fp.Place();
      res, rcnt := ReadStep(fp, buff, br, btr);
      AroundTwice(fp.fs.geo, old(fp.Place()), mid, fp.Place());
      if res != FR_OK { return; }
      SizeFits(fp);
      assert buff[..] == Splice(b, 0, d[p..p + (br + rcnt)]) by { SliceSpliced(b, 0, d, p, br, rcnt); }
      btr, br := btr - rcnt, br + rcnt;
    }
  }

  // f_read. On success the caller's buffer holds the next bytes of the file, as many as
  // asked for or as are left; the file itself is unchanged.
  method Read(fp: Fil, buff: array<Byte>, count: nat) returns (res: FResult, br: nat)
    requires fp.Valid() && buff != fp.buf && buff != fp.fs.win && count <= buff.Length
    modifies buff, fp`dirty, fp`sect, fp`clust, fp`fptr, fp`err, fp.buf
    modifies fp.fs.disk, fp.fs.win, fp.fs`wflag, fp.fs`winsect, fp.fs`logical, fp.fs`mirrored
    ensures old(fp.err) == FR_OK ==> fp.fs.Valid()
    ensures Elsewhere(fp)
    ensures fp.Valid()
    ensures old(fp.err) != FR_OK ==> res == old(fp.err) && br == 0
    ensures old(fp.err) == FR_OK && !fp.readable ==>
              res == FR_DENIED && br == 0 && fp.err == FR_OK && fp.fptr == old(fp.fptr)
    ensures old(fp.err) == FR_OK && fp.readable ==> res == fp.err && (res == FR_OK || res == FR_DISK_ERR)
    ensures res == FR_DISK_ERR && old(fp.err) == FR_OK ==> fp.fs.disk.faults > old(fp.fs.disk.faults)
    ensures res == FR_OK ==>
              && old(fp.Core()) && br == Min(count, old(fp.objsize - fp.fptr)) && fp.fptr == old(fp.fptr) + br
              && buff[..] == Splice(old(buff[..]), 0, old(fp.Data())[old(fp.fptr)..old(fp.fptr) + br])
  {
    hide FatFs.Valid, Shape, OwnOk, ImgOk, Splice, Content, Around;
    br := 0;
    SameExtent(fp);
    if fp.err != FR_OK { return fp.err, 0; }
    if !fp.readable { return FR_DENIED, 0; }
    var btr := Min(count, fp.objsize - fp.fptr);
    res, br := ReadLoop(fp, buff, btr);
    fp.err := res;
  }

  function Min(a: nat, b: nat): nat {
    if a <= b then a else b
  }
}
