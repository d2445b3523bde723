/** Moving the cursor of a file (thirdparty/fatfs/ff.c, f_lseek): resuming from the
    current cluster and walking from the first one lead to the same place. */
module FileSeek {
  import opened Disk
  import opened FatLayout
  import opened Window
  import opened Chain
  import opened ChainOps
  import opened FileMap
  import opened File
  import opened FileRead
  import opened FileWrite

  // Cluster size in bytes.
  function Bcs(g: Geometry): nat {
    SS * g.csize
  }

  // The cluster a byte lies in, by bytes and by sectors.
  lemma ClusterOfByte(g: Geometry, p: nat)
    requires g.DataOk()
    ensures p / Bcs(g) == p / SS / g.csize
  {
    if g.csize <= 8 {
      if g.csize == 1 {} else if g.csize == 2 {} else if g.csize == 4 {} else {}
    } else {
      if g.csize == 16 {} else if g.csize == 32 {} else if g.csize == 64 {} else {}
    }
  }

  lemma BytesOfSectors(m: int, r: int, b: nat)
    requires b < SS
    ensures (SS * m + (SS * r + b)) / SS == m + r && (SS * m + (SS * r + b)) % SS == b
  {
  }

  lemma BytesOfClusters(g: Geometry, q: int)
    ensures Bcs(g) * q == SS * (g.csize * q)
  {
  }

  // The place of a byte in its cluster.
  lemma SectorPlace(g: Geometry, q: nat, ofs: nat)
    requires g.DataOk() && ofs < Bcs(g)
    ensures var p := Bcs(g) * q + ofs;
            p / SS / g.csize == q && p / SS % g.csize == ofs / SS && p % SS == ofs % SS
  {
    BytesOfClusters(g, q);
    BytesOfSectors(g.csize * q, ofs / SS, ofs % SS);
    DivMod(g.csize * q + ofs / SS, g.csize, q, ofs / SS);
  }

  // ofs bytes into the q-th cluster (counting its last byte, not its first, when ofs
  // reaches the end).
  lemma Landing(g: Geometry, q: nat, ofs: nat)
    requires g.DataOk() && 0 < ofs <= Bcs(g)
    ensures (Bcs(g) * q + ofs - 1) / SS / g.csize == q
    ensures (Bcs(g) * q + ofs) % SS == ofs % SS
    ensures ofs % SS != 0 ==>
              var k := (Bcs(g) * q + ofs) / SS;
              k / g.csize == q && k % g.csize == ofs / SS
  {
    SectorPlace(g, q, ofs - 1);
    if ofs < Bcs(g) {
      SectorPlace(g, q, ofs);
    } else {
      BytesOfClusters(g, q + 1);
      assert Bcs(g) * (q + 1) == Bcs(g) * q + Bcs(g);
    }
  }

  // One turn of the cluster walk: the next cluster, stretching the chain when the file
  // may be written.
  method SeekStep(fp: Fil, clst: nat, ghost q: nat) returns (ncl: nat)
    requires fp.Core() && q < |fp.chain| && clst == fp.chain[q] && fp.clust == clst
    requires !fp.writable ==> q + 1 < |fp.chain|
    modifies fp`sclust, fp`chain, fp`secs, fp`img, fp.fs, fp.fs.disk, fp.fs.win
    ensures fp.fs.Valid()
    ensures Elsewhere(fp)
    ensures fp.fs.disk.faults >= old(fp.fs.disk.faults)
    ensures ncl == DWORD_MAX ==> fp.fs.disk.faults > old(fp.fs.disk.faults)
    ensures ncl != DWORD_MAX ==> fp.Core() && Stretched(fp) && old(fp.img) <= fp.img
    ensures ncl != DWORD_MAX ==> q < |fp.chain| && fp.clust == fp.chain[q]
    ensures ncl != DWORD_MAX && fp.chain != old(fp.chain) ==> |fp.chain| == q + 2
    ensures ncl == 1 ==> HasOne(fp.fs.fat)
    ensures 2 <= ncl && ncl != DWORD_MAX ==> q + 1 < |fp.chain| && ncl == fp.chain[q + 1] && ncl < fp.fs.geo.nFatent
    ensures ncl == 0 ==> fp.writable && |fp.chain| == q + 1
    ensures ncl == 0 && old(FreeOk(fp.fs.freeClst, fp.fs.fat)) ==> NoneFree(fp.fs.fat)
  {
    hide FatFs.Valid, OwnOk, ImgOk, SecsOf, IsChain, NoneFree, FreeOk, Around;
    if fp.writable {
      ncl := Follow(fp, clst, q);
    } else {
      ClusterInTable(fp.fs.fat, fp.chain, q + 1);
      ncl := NextInChain(fp, q);
      SameStretched(fp);
    }
    if ncl >= 2 && ncl != DWORD_MAX {
      ClusterInTable(fp.fs.fat, fp.chain, q + 1);
      TableSize(fp.fs);
    }
  }

  lemma RoundDown(p: nat, t: nat, b: nat)
    requires b > 0 && p / b <= t / b
    ensures p / b * b == b * (p / b) <= t
  {
    assert t == b * (t / b) + t % b;
    MulMonotone(b, p / b, t / b);
  }

  // The first cluster, which is created when the file has none yet.
  method FirstCluster(fp: Fil) returns (res: FResult, clst: nat)
    requires fp.Core()
    modifies fp`clust, fp`sclust, fp`chain, fp`secs, fp`img, fp.fs, fp.fs.disk, fp.fs.win
    ensures WriteOutcome(fp, res)
    ensures res == FR_OK ==> old(fp.img) <= fp.img
    ensures res == FR_OK && clst != 0 ==> fp.chain != [] && clst == fp.chain[0] == fp.clust
    ensures res == FR_OK && fp.chain != old(fp.chain) ==> |fp.chain| == 1
    ensures res == FR_OK && clst == 0 ==>
              old(fp.chain) == fp.chain == [] && (old(FreeOk(fp.fs.freeClst, fp.fs.fat)) ==> NoneFree(fp.fs.fat))
  {
    hide FatFs.Valid, OwnOk, ImgOk, SecsOf, IsChain, NoneFree, FreeOk, Around;
    clst, res := fp.sclust, FR_OK;
    if clst == 0 {
      clst := Follow(fp, 0, -1);
      if clst == 1 { return FR_INT_ERR, clst; }
      if clst == DWORD_MAX { return FR_DISK_ERR, clst; }
    } else {
      SameStretched(fp);
      SameExtent(fp);
    }
    fp.clust := clst;
  }

  // Where the walk to byte offset target starts: in the current cluster when the target
  // lies there or behind it, else in the first one.
  method SeekStart(fp: Fil, ifptr: nat, target: nat) returns (res: FResult, clst: nat, ofs: nat, ghost q: nat)
    requires fp.Core() && fp.fptr == 0 < target && (!fp.writable ==> target <= fp.objsize)
    requires ifptr > 0 ==> fp.At((ifptr - 1) / SS)
    modifies fp`clust, fp`fptr, fp`sclust, fp`chain, fp`secs, fp`img, fp.fs, fp.fs.disk, fp.fs.win
    ensures WriteOutcome(fp, res)
    ensures res == FR_OK ==> old(fp.img) <= fp.img
    ensures res == FR_OK && clst != 0 ==>
              && q < |fp.chain| && clst == fp.chain[q] == fp.clust
              && fp.fptr == Bcs(fp.fs.geo) * q && fp.fptr + ofs == target && ofs > 0
    ensures res == FR_OK && fp.chain != old(fp.chain) ==> |fp.chain| == q + 1
    ensures res == FR_OK && clst == 0 ==>
              && fp.fptr == 0 && old(fp.chain) == fp.chain == []
              && (old(FreeOk(fp.fs.freeClst, fp.fs.fat)) ==> NoneFree(fp.fs.fat))
  {
    hide FatFs.Valid, OwnOk, ImgOk, Shape, NoneFree, FreeOk, StretchedTo, Around;
    ofs, q := target, 0;
    var bcs := Bcs(fp.fs.geo);
    if ifptr > 0 && (target - 1) / bcs >= (ifptr - 1) / bcs {
      RoundDown(ifptr - 1, target - 1, bcs);
      ClusterOfByte(fp.fs.geo, ifptr - 1);
      fp.fptr := (ifptr - 1) / bcs * bcs;
      ofs := ofs - fp.fptr;
      clst := fp.clust;
      q := (ifptr - 1) / bcs;
      res := FR_OK;
      SameStretched(fp);
      SameExtent(fp);
      ClusterOfFile(fp, q);
    } else {
      res, clst := FirstCluster(fp);
    }
  }

  lemma ClusterOfFile(fp: Fil, q: nat)
    requires fp.Core() && q < |fp.chain|
    ensures 2 <= fp.chain[q] < fp.fs.geo.nFatent
  {
  }

  lemma SizeInClusters(fp: Fil, q: nat)
    requires fp.Core() && Bcs(fp.fs.geo) * q < fp.objsize
    ensures q < |fp.chain|
  {
    var b, n := Bcs(fp.fs.geo), |fp.chain|;
    assert SS * |fp.img| == b * n;
    if q >= n { MulMonotone(b, n, q); }
  }

  lemma ClusterBytes(fp: Fil)
    requires fp.Core()
    ensures fp.fs.geo.csize > 0 && Bcs(fp.fs.geo) > 0 && fp.fs.Valid()
  {
  }

  // The cluster walk. It ends in the target's cluster, or, when the volume is full, at
  // the end of the chain's last cluster (clst == 0).
  method SeekWalk(fp: Fil, target: nat, clst0: nat, ofs0: nat, ghost q0: nat)
    returns (res: FResult, clst: nat, ofs: nat, ghost q: nat)
    requires fp.Core() && q0 < |fp.chain| && clst0 == fp.chain[q0] == fp.clust && clst0 != 0
    requires fp.fptr == Bcs(fp.fs.geo) * q0 && fp.fptr + ofs0 == target && ofs0 > 0
    requires !fp.writable ==> target <= fp.objsize
    modifies fp`clust, fp`fptr, fp`sclust, fp`chain, fp`secs, fp`img, fp.fs, fp.fs.disk, fp.fs.win
    ensures WriteOutcome(fp, res)
    ensures res == FR_OK ==> old(fp.img) <= fp.img
    ensures res == FR_OK ==> q0 <= q < |fp.chain| && fp.clust == fp.chain[q]
    ensures res == FR_OK && fp.chain != old(fp.chain) ==> |fp.chain| == q + 1
    ensures res == FR_OK && clst != 0 ==>
              && clst == fp.clust && 0 < ofs <= Bcs(fp.fs.geo)
              && fp.fptr == Bcs(fp.fs.geo) * q && fp.fptr + ofs == target
    ensures res == FR_OK && clst == 0 ==>
              && ofs == 0 && |fp.chain| == q + 1 && fp.fptr == Bcs(fp.fs.geo) * (q + 1) < target && fp.writable
              && (old(FreeOk(fp.fs.freeClst, fp.fs.fat)) ==> NoneFree(fp.fs.fat))
  {
    hide FatFs.Valid, OwnOk, ImgOk, Shape, NoneFree, FreeOk, StretchedTo, Around, Fil.Core, Fil.Place;
    res, clst, ofs, q := FR_OK, clst0, ofs0, q0;
    var bcs := Bcs(fp.fs.geo);
    ClusterBytes(fp);
    SameStretched(fp);
    SameExtent(fp);
    while ofs > bcs
      invariant res == FR_OK && WriteOutcome(fp, FR_OK) && old(fp.img) <= fp.img
      invariant clst != 0 && q0 <= q < |fp.chain| && clst == fp.chain[q] == fp.clust
      invariant fp.fptr == bcs * q && fp.fptr + ofs == target && ofs > 0
      invariant fp.chain != old(fp.chain) ==> |fp.chain| == q + 1
      decreases ofs
    {
      ghost var c1, f1, n1, mid := fp.chain, fp.fs.fat, fp.fs.freeClst, fp.Place();
      assert bcs * (q + 1) == bcs * q + bcs;
      if !fp.writable { SizeInClusters(fp, q + 1); }
      ofs := ofs - bcs;
      fp.fptr := fp.fptr + bcs;
      clst := SeekStep(fp, clst, q);
      AroundTwice(fp.fs.geo, old(fp.Place()), mid, fp.Place());
      if clst != DWORD_MAX {
        StretchedTwice(old(fp.chain), old(fp.fs.fat), old(fp.fs.freeClst), c1, f1, n1, fp.chain, fp.fs.fat, fp.fs.freeClst);
        FreeAllAlong(old(fp.chain), old(fp.fs.fat), old(fp.fs.freeClst), c1, f1, n1);
      }
      if clst == 0 { return res, 0, 0, q; }
      if clst == DWORD_MAX { return FR_DISK_ERR, clst, ofs, q; }
      if clst <= 1 || clst >= fp.fs.geo.nFatent { return FR_INT_ERR, clst, ofs, q; }
      fp.clust := clst;
      q := q + 1;
    }
  }

  // The cursor stands at target, in the chain's cluster for it; or the volume is full
  // and it stands at the end of the chain.
  ghost predicate Landed(fp: Fil, target: nat)
    requires fp.fs.geo.csize > 0
    reads fp`fptr, fp`clust, fp`chain, fp`img, fp`writable
  {
    && (fp.fptr > 0 ==> fp.At((fp.fptr - 1) / SS))
    && fp.fptr <= SS * |fp.img|
    && (fp.fptr == target || (fp.writable && fp.fptr == Bcs(fp.fs.geo) * |fp.chain| < target))
  }

  // The chain ends with the cursor's cluster.
  ghost predicate EndsHere(fp: Fil)
    requires fp.fs.geo.csize > 0
    reads fp`fptr, fp`chain
  {
    fp.fptr > 0 && |fp.chain| == (fp.fptr - 1) / SS / fp.fs.geo.csize + 1
  }

  // A cursor ofs bytes into the q-th cluster of the chain.
  lemma LandedAt(fp: Fil, q: nat, ofs: nat)
    requires fp.Core() && q < |fp.chain| && fp.clust == fp.chain[q]
    requires 0 < ofs <= Bcs(fp.fs.geo) && fp.fptr == Bcs(fp.fs.geo) * q + ofs
    ensures fp.At((fp.fptr - 1) / SS) && fp.fptr <= SS * |fp.img| && (|fp.chain| == q + 1 ==> EndsHere(fp))
    ensures EndsHere(fp) ==> |fp.chain| == q + 1
  {
    hide FatFs.Valid, OwnOk, ImgOk, Shape;
    Landing(fp.fs.geo, q, ofs);
    SectorExists(fp, (fp.fptr - 1) / SS);
  }

  // The cursor's sector, when it stands inside one. On a chain clst2sect cannot fail.
  method CursorSector(fp: Fil, clst: nat, ofs: nat, ghost q: nat) returns (nsect: nat)
    requires fp.Core() && q < |fp.chain| && clst == fp.clust == fp.chain[q]
    requires 0 < ofs <= Bcs(fp.fs.geo) && fp.fptr == Bcs(fp.fs.geo) * q + ofs
    ensures fp.fptr % SS != 0 ==> fp.fptr / SS < |fp.secs| && nsect == fp.secs[fp.fptr / SS]
  {
    hide OwnOk, ImgOk, Shape, IsTable;
    Landing(fp.fs.geo, q, ofs);
    nsect := 0;
    if ofs % SS != 0 {
      SectorExists(fp, fp.fptr / SS);
      SectorAtCursor(fp, fp.fptr / SS);
      nsect := Clst2Sect(fp.fs.geo, clst) + ofs / SS;
    }
  }

  lemma LandedOr(fp: Fil, target: nat)
    requires fp.fs.geo.csize > 0
    requires fp.fptr > 0 && fp.At((fp.fptr - 1) / SS) && fp.fptr <= SS * |fp.img|
    requires fp.fptr == target || (fp.writable && fp.fptr == Bcs(fp.fs.geo) * |fp.chain| < target)
    ensures Landed(fp, target)
  {
  }

  // The walk from a starting cluster, and the landing.
  method SeekOn(fp: Fil, target: nat, clst0: nat, ofs0: nat, ghost q0: nat) returns (res: FResult, nsect: nat)
    requires fp.Core() && q0 < |fp.chain| && clst0 == fp.chain[q0] == fp.clust && clst0 != 0
    requires fp.fptr == Bcs(fp.fs.geo) * q0 && fp.fptr + ofs0 == target && ofs0 > 0
    requires !fp.writable ==> target <= fp.objsize
    modifies fp`clust, fp`fptr, fp`sclust, fp`chain, fp`secs, fp`img, fp.fs, fp.fs.disk, fp.fs.win
    ensures WriteOutcome(fp, res)
    ensures res == FR_OK ==> old(fp.img) <= fp.img && Landed(fp, target)
    ensures res == FR_OK && (fp.chain != old(fp.chain) || |fp.chain| == q0 + 1) ==> EndsHere(fp)
    ensures res == FR_OK && fp.fptr < target && old(FreeOk(fp.fs.freeClst, fp.fs.fat)) ==> NoneFree(fp.fs.fat)
    ensures res == FR_OK && fp.fptr % SS != 0 ==> fp.fptr / SS < |fp.secs| && nsect == fp.secs[fp.fptr / SS]
  {
    hide FatFs.Valid, OwnOk, ImgOk, Shape, NoneFree, FreeOk, StretchedTo, Landed, Around;
    var clst, ofs;
    ghost var q;
    nsect := 0;
    res, clst, ofs, q := SeekWalk(fp, target, clst0, ofs0, q0);
    if res != FR_OK { return; }
    fp.fptr := fp.fptr + ofs;
    if clst == 0 {
      FullLanding(fp, q);
      assert Landed(fp, target) by { LandedOr(fp, target); }
    } else {
      LandedAt(fp, q, ofs);
      assert Landed(fp, target) by { LandedOr(fp, target); }
      nsect := CursorSector(fp, clst, ofs, q);
    }
  }

  lemma FullLanding(fp: Fil, q: nat)
    requires fp.Core() && |fp.chain| == q + 1 && fp.clust == fp.chain[q] && fp.fptr == Bcs(fp.fs.geo) * (q + 1)
    ensures fp.At((fp.fptr - 1) / SS) && fp.fptr <= SS * |fp.img| && EndsHere(fp)
    ensures fp.fptr % SS == 0
  {
    var g := fp.fs.geo;
    assert Bcs(g) * (q + 1) == Bcs(g) * q + Bcs(g);
    Landing(g, q, Bcs(g));
    LandedAt(fp, q, Bcs(g));
  }

  // The walk to target; nsect is the cursor's sector when it stands inside one.
  method SeekTo(fp: Fil, ifptr: nat, target: nat) returns (res: FResult, nsect: nat)
    requires fp.Core() && fp.fptr == 0 && (!fp.writable ==> target <= fp.objsize)
    requires ifptr > 0 ==> fp.At((ifptr - 1) / SS)
    modifies fp`clust, fp`fptr, fp`sclust, fp`chain, fp`secs, fp`img, fp.fs, fp.fs.disk, fp.fs.win
    ensures WriteOutcome(fp, res)
    ensures res == FR_OK ==> old(fp.img) <= fp.img && Landed(fp, target)
    ensures res == FR_OK && fp.chain != old(fp.chain) ==> EndsHere(fp)
    ensures res == FR_OK && fp.fptr < target && old(FreeOk(fp.fs.freeClst, fp.fs.fat)) ==> NoneFree(fp.fs.fat)
    ensures res == FR_OK && fp.fptr % SS != 0 ==> fp.fptr / SS < |fp.secs| && nsect == fp.secs[fp.fptr / SS]
  {
    hide FatFs.Valid, OwnOk, ImgOk, Shape, NoneFree, FreeOk, StretchedTo, EndsHere, Around;
    nsect, res := 0, FR_OK;
    if target == 0 {
      SameStretched(fp);
      SameExtent(fp);
      return;
    }
    var clst, ofs;
    ghost var q;
    res, clst, ofs, q := SeekStart(fp, ifptr, target);
    if res != FR_OK { return; }
    if clst == 0 {
      EmptyChainFull(fp, target);
      return;
    }
    ghost var c1, f1, n1, mid := fp.chain, fp.fs.fat, fp.fs.freeClst, fp.Place();
    res, nsect := SeekOn(fp, target, clst, ofs, q);
    AroundTwice(fp.fs.geo, old(fp.Place()), mid, fp.Place());
    if res == FR_OK {
      StretchedTwice(old(fp.chain), old(fp.fs.fat), old(fp.fs.freeClst), c1, f1, n1, fp.chain, fp.fs.fat, fp.fs.freeClst);
      FreeAllAlong(old(fp.chain), old(fp.fs.fat), old(fp.fs.freeClst), c1, f1, n1);
    }
  }

  lemma EmptyChainFull(fp: Fil, target: nat)
    requires fp.Core() && fp.chain == [] && fp.fptr == 0 < target && (!fp.writable ==> target <= fp.objsize)
    ensures Landed(fp, target)
  {
    assert |fp.secs| == fp.fs.geo.csize * |fp.chain|;
  }

  // A longer file starts with the bytes it had.
  lemma DataOfPrefix(img: seq<Sector>, img': seq<Sector>, n: nat, n': nat)
    requires img <= img' && n <= SS * |img| && n <= n' <= SS * |img'|
    ensures Content(img', n')[..n] == Content(img, n)
  {
  }

  // The end of f_lseek: the size follows the cursor, and the buffer shows the cursor's
  // sector.
  method Settle(fp: Fil, nsect: nat) returns (res: FResult)
    requires fp.Core() && fp.fptr <= SS * |fp.img| && fp.fptr <= 0xFFFF_FFFF
    requires fp.fptr > 0 ==> fp.At((fp.fptr - 1) / SS)
    requires fp.objsize == 0 ==> !fp.dirty
    requires fp.fptr % SS != 0 ==> fp.fptr / SS < |fp.secs| && nsect == fp.secs[fp.fptr / SS]
    modifies fp`objsize, fp`modified, fp`dirty, fp`sect, fp.buf, fp.fs.disk, fp.fs`logical
    ensures fp.fs.Valid()
    ensures Elsewhere(fp)
    ensures fp.fs.disk.faults >= old(fp.fs.disk.faults)
    ensures res == FR_OK || res == FR_DISK_ERR
    ensures res == FR_DISK_ERR ==> fp.fs.disk.faults > old(fp.fs.disk.faults)
    ensures fp.objsize == Max(old(fp.objsize), fp.fptr)
    ensures fp.modified == (old(fp.modified) || fp.objsize != old(fp.objsize))
    ensures res == FR_OK ==> fp.Core() && fp.Cursor()
  {
    hide FatFs.Valid, OwnOk, ImgOk, Shape, Around;
    SameExtent(fp);
    res := FR_OK;
    if fp.fptr > fp.objsize {
      fp.objsize := fp.fptr;
      fp.modified := true;
    }
    if fp.fptr % SS != 0 {
      res := Load(fp, nsect, fp.fptr / SS);
    }
  }

  twostate lemma StillBegins(fp: Fil)
    requires old(fp.img) <= fp.img && old(fp.objsize) <= SS * |old(fp.img)| && old(fp.objsize) <= fp.objsize <= SS * |fp.img|
    ensures fp.Data()[..old(fp.objsize)] == old(fp.Data())
  {
    hide Content;
    DataOfPrefix(old(fp.img), fp.img, old(fp.objsize), fp.objsize);
  }

  lemma LandedIs(fp: Fil, target: nat)
    requires fp.fs.geo.csize > 0 && Landed(fp, target)
    ensures fp.fptr <= SS * |fp.img| && (fp.fptr > 0 ==> fp.At((fp.fptr - 1) / SS))
    ensures fp.fptr == target || fp.fptr < target
  {
  }

  // f_lseek on a file without an error.
  method MoveCursor(fp: Fil, target: nat) returns (res: FResult)
    requires fp.Core() && fp.Cursor() && target <= 0xFFFF_FFFF && (!fp.writable ==> target <= fp.objsize)
    modifies fp`clust, fp`sclust, fp`chain, fp`secs, fp`img, fp`dirty, fp`sect, fp`fptr, fp`objsize, fp`modified
    modifies fp.buf, fp.fs, fp.fs.disk, fp.fs.win
    ensures WriteOutcome(fp, res)
    ensures res == FR_OK ==> fp.Cursor() && Landed(fp, target)
    ensures res == FR_OK && fp.fptr < target && old(FreeOk(fp.fs.freeClst, fp.fs.fat)) ==> NoneFree(fp.fs.fat)
    ensures res == FR_OK && fp.chain != old(fp.chain) ==> EndsHere(fp)
    ensures res == FR_OK ==> fp.objsize == Max(old(fp.objsize), fp.fptr) && fp.Data()[..old(fp.objsize)] == old(fp.Data())
    ensures fp.modified == (old(fp.modified) || fp.objsize != old(fp.objsize))
  {
    hide FatFs.Valid, OwnOk, ImgOk, Shape, NoneFree, FreeOk, StretchedTo, EndsHere, Content, Around, Fil.Core, Fil.Place, Fil.At, Fil.Data, Landed, Max;
    SizeFits(fp);
    var ifptr, nsect := fp.fptr, 0;
    fp.fptr := 0;
    res, nsect := SeekTo(fp, ifptr, target);
    if res == FR_OK {
      SizeFits(fp);
      LandedIs(fp, target);
      ghost var mid := fp.Place();
      res := Settle(fp, nsect);
      AroundTwice(fp.fs.geo, old(fp.Place()), mid, fp.Place());
      if res == FR_OK {
        SizeFits(fp);
        StillBegins(fp);
      }
    }
  }

  // f_lseek. The cursor ends at ofs, cut to the file's size when the file is read-only;
  // a writable file is stretched to reach it, as far as free clusters allow. The bytes
  // the file had are unchanged.
  method Lseek(fp: Fil, ofs: nat) returns (res: FResult)
    requires fp.Valid() && ofs <= 0xFFFF_FFFF
    modifies fp`clust, fp`sclust, fp`chain, fp`secs, fp`img, fp`dirty, fp`sect, fp`fptr, fp`objsize, fp`modified, fp`err
    modifies fp.buf, fp.fs, fp.fs.disk, fp.fs.win
    ensures Elsewhere(fp)
    ensures fp.Valid()
    ensures old(fp.err) != FR_OK ==> res == old(fp.err)
    ensures old(fp.err) == FR_OK ==> res == fp.err && WriteOutcome(fp, res)
    ensures res == FR_OK ==> old(fp.Core())
    ensures res == FR_OK && old(fp.writable) ==> Landed(fp, ofs)
    ensures res == FR_OK && !old(fp.writable) ==> Landed(fp, if ofs <= old(fp.objsize) then ofs else old(fp.objsize))
    ensures res == FR_OK ==> TookFree(old(fp.fs.fat), old(fp.chain), fp.chain)
    ensures res == FR_OK ==> ChainsStay(old(fp.fs.fat), old(fp.chain), fp.fs.fat, fp.chain)
    ensures res == FR_OK && old(fp.writable) && fp.fptr < ofs && old(FreeOk(fp.fs.freeClst, fp.fs.fat)) ==> NoneFree(fp.fs.fat)
    ensures res == FR_OK && fp.chain != old(fp.chain) ==> EndsHere(fp)
    ensures res == FR_OK ==> fp.objsize == Max(old(fp.objsize), fp.fptr) && fp.Data()[..old(fp.objsize)] == old(fp.Data())
    ensures fp.modified == (old(fp.modified) || fp.objsize != old(fp.objsize))
  {
    hide FatFs.Valid, OwnOk, ImgOk, Shape, NoneFree, FreeOk, StretchedTo, EndsHere, Content, Around, Landed, TookFree, ChainsStay;
    SameExtent(fp);
    if fp.err != FR_OK { return fp.err; }
    res := MoveCursor(fp, Target(fp.objsize, fp.writable, ofs));
    fp.err := res;
    if res == FR_OK { GrownChains(fp); }
  }

  // In read-only mode the offset is clipped to the file's size.
  function Target(size: nat, writable: bool, ofs: nat): nat {
    if ofs > size && !writable then size else ofs
  }

  function Max(a: nat, b: nat): (m: nat)
    ensures a <= m && b <= m
  {
    if a >= b then a else b
  }
}
