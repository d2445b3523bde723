/** Cutting a file at its cursor (thirdparty/fatfs/ff.c, f_truncate). */
module FileResize {
  import opened Disk
  import opened FatLayout
  import opened Window
  import opened FatEntry
  import opened Chain
  import opened ChainOps
  import opened FileMap
  import opened File
  import opened FileRead
  import opened FileWrite
  import opened FileSeek

  // The FAT once a chain keeps only its first n clusters.
  function CutAt(f: seq<nat>, chain: seq<nat>, n: nat, eoc: nat): (f': seq<nat>)
    requires n <= |chain| && forall c :: c in chain ==> c < |f|
    ensures |f'| == |f|
  {
    if n == 0 then Zeroed(f, chain)
    else if n == |chain| then f
    else
      assert chain[n - 1] in chain;
      Zeroed(f[chain[n - 1] := eoc], chain[n..])
  }

  // The clusters up to the cursor.
  function Needed(g: Geometry, fptr: nat): nat
    requires g.csize > 0
  {
    if fptr == 0 then 0 else (fptr - 1) / SS / g.csize + 1
  }

  // Cutting a chain is one of the operations on the set of chains, or changes nothing.
  lemma CutIsApply(f: seq<nat>, cs: set<seq<nat>>, chain: seq<nat>, n: nat, eoc: nat)
    requires Chains(f, cs) && chain in cs && n <= |chain| && eoc >= |f|
    ensures var f' := CutAt(f, chain, n, eoc);
            Chains(f', cs - {chain} + (if n == 0 then {} else {chain[..n]}))
  {
    hide AllChains, Disjoint, Covered, Zeroed;
    if n == 0 {
      assert cs - {chain} + {} == cs - {chain};
      ApplyKeepsChains(f, cs, Drop(chain), eoc);
    } else if n < |chain| {
      ApplyKeepsChains(f, cs, Shorten(chain, n), eoc);
    } else {
      assert chain[..n] == chain;
      assert cs - {chain} + {chain} == cs;
    }
  }

  lemma CutFromFreed(f: seq<nat>, chain: seq<nat>, n: nat, eoc: nat)
    requires IsChain(f, chain) && n < |chain| && eoc >= |f|
    ensures var f1 := Ended(f, if n == 0 then 0 else chain[n - 1], eoc);
            Freed(f1, chain[n]) == CutAt(f, chain, n, eoc) && !HitsReserved(f1, chain[n])
  {
    if n == 0 {
      FreedIsZeroed(f, chain);
    } else {
      TailIsChain(f, chain, n, eoc);
      FreedIsZeroed(f[chain[n - 1] := eoc], chain[n..]);
    }
  }

  // The cursor lies within the chain.
  lemma NeededFits(fp: Fil)
    requires fp.Core() && fp.Cursor() && fp.fptr < fp.objsize
    ensures Needed(fp.fs.geo, fp.fptr) <= |fp.chain|
    ensures forall c :: c in fp.chain ==> c < |fp.fs.fat|
  {
  }

  // No entry in use outside the chain changed.
  ghost predicate Spares(f: seq<nat>, f': seq<nat>, chain: seq<nat>) {
    |f'| == |f| && forall c {:trigger f'[c]} :: 2 <= c < |f| && f[c] != 0 && c !in chain ==> f'[c] == f[c]
  }

  lemma SparesSame(f: seq<nat>, chain: seq<nat>)
    ensures Spares(f, f, chain)
  {
  }

  lemma FreedSpares(f: seq<nat>, f': seq<nat>, chain: seq<nat>, n: nat, eoc: nat)
    requires IsChain(f, chain) && n < |chain| && eoc >= |f| && |f'| == |f|
    requires var p := if n == 0 then 0 else chain[n - 1];
             forall c :: 0 <= c < |f| && c != p && Freed(Ended(f, p, eoc), chain[n])[c] != 0 ==> f'[c] == f[c]
    ensures Spares(f, f', chain)
  {
    hide Freed, CutAt;
    CutFromFreed(f, chain, n, eoc);
    ZeroedOutside(f, chain, n, eoc);
  }

  lemma ZeroedOutside(f: seq<nat>, chain: seq<nat>, n: nat, eoc: nat)
    requires n < |chain| && forall c :: c in chain ==> c < |f|
    ensures forall c :: 0 <= c < |f| && c !in chain ==> CutAt(f, chain, n, eoc)[c] == f[c]
    ensures n > 0 ==> chain[n - 1] in chain
  {
  }

  // remove_chain from the n-th cluster of a chain.
  method FreeFrom(fs: FatFs, ghost chain: seq<nat>, ghost n: nat, clst: nat, pclst: nat) returns (res: FResult)
    requires fs.Valid() && IsChain(fs.fat, chain) && n < |chain|
    requires clst == chain[n] && pclst == if n == 0 then 0 else chain[n - 1]
    modifies fs, fs.disk, fs.win
    ensures fs.Valid() && Kept(fs)
    ensures res == FR_OK || res == FR_DISK_ERR
    ensures Spares(old(fs.fat), fs.fat, chain)
    ensures res == FR_DISK_ERR ==> fs.disk.faults > old(fs.disk.faults)
    ensures res == FR_OK ==> fs.fat == CutAt(old(fs.fat), chain, n, Eoc(fs))
    ensures res == FR_OK && old(FreeOk(fs.freeClst, fs.fat)) ==> FreeOk(fs.freeClst, fs.fat)
  {
    hide FatFs.Valid, CutAt, Freed, HitsReserved, FreeOk, Spares;
    TableSize(fs);
    CutFromFreed(fs.fat, chain, n, Eoc(fs));
    if n > 0 { AllocatedInChain(fs.fat, chain, n - 1); }
    res := RemoveChain(fs, clst, pclst);
    FreedSpares(old(fs.fat), fs.fat, chain, n, Eoc(fs));
  }

  lemma CutNothing(f: seq<nat>, chain: seq<nat>, n: nat, eoc: nat)
    requires IsChain(f, chain) && n == |chain|
    ensures CutAt(f, chain, n, eoc) == f
  {
  }

  // Outside the FATs only the listed sectors may have changed.
  ghost predicate SameBut(g: Geometry, l: seq<Sector>, l': seq<Sector>, secs: seq<nat>) {
    && |l'| == |l|
    && forall s {:trigger l'[s]} :: 0 <= s < |l| && !g.InFat(s) && !g.InMirror(s) && s !in secs ==> l'[s] == l[s]
  }

  lemma SameButTwice(g: Geometry, l: seq<Sector>, l': seq<Sector>, l'': seq<Sector>, more: seq<nat>, secs: seq<nat>)
    requires SameBut(g, l, l', []) && SameBut(g, l', l'', more) && forall s :: s in more ==> s in secs
    ensures SameBut(g, l, l'', secs)
  {
  }

  twostate lemma KeptIsSame(fs: FatFs)
    requires Kept(fs)
    ensures SameBut(fs.geo, old(fs.logical), fs.logical, [])
  {
  }

  lemma SameButMore(g: Geometry, l: seq<Sector>, l': seq<Sector>, secs: seq<nat>)
    requires SameBut(g, l, l', [])
    ensures SameBut(g, l, l', secs)
  {
  }

  // The sector of a dirty buffer.
  ghost function Pending(fp: Fil): seq<nat>
    reads fp`dirty, fp`sect
  {
    if fp.dirty then [fp.sect] else []
  }

  // remove_chain from the first cluster the file no longer needs.
  method CutFat(fp: Fil) returns (res: FResult)
    requires fp.Core() && fp.Cursor() && fp.fptr < fp.objsize
    modifies fp`sclust, fp.fs, fp.fs.disk, fp.fs.win
    ensures fp.fs.Valid() && Kept(fp.fs) && fp.fs.disk.faults >= old(fp.fs.disk.faults)
    ensures SameBut(fp.fs.geo, old(fp.fs.logical), fp.fs.logical, [])
    ensures res == FR_OK || res == FR_DISK_ERR
    ensures Spares(old(fp.fs.fat), fp.fs.fat, fp.chain)
    ensures res == FR_DISK_ERR ==> fp.fs.disk.faults > old(fp.fs.disk.faults)
    ensures fp.sclust == if fp.fptr == 0 then 0 else old(fp.sclust)
    ensures Needed(fp.fs.geo, fp.fptr) <= |fp.chain| && forall c :: c in fp.chain ==> c < |old(fp.fs.fat)|
    ensures res == FR_OK ==> fp.fs.fat == CutAt(old(fp.fs.fat), fp.chain, Needed(fp.fs.geo, fp.fptr), Eoc(fp.fs))
    ensures res == FR_OK && old(FreeOk(fp.fs.freeClst, fp.fs.fat)) ==> FreeOk(fp.fs.freeClst, fp.fs.fat)
  {
    hide FatFs.Valid, OwnOk, ImgOk, SecsOf, IsChain, CutAt, FreeOk, Spares;
    SparesSame(fp.fs.fat, fp.chain);
    ghost var n := Needed(fp.fs.geo, fp.fptr);
    NeededFits(fp);
    if fp.fptr == 0 {
      SizeInClusters(fp, 0);
      res := FreeFrom(fp.fs, fp.chain, 0, fp.sclust, 0);
      fp.sclust := 0;
    } else {
      ClusterInTable(fp.fs.fat, fp.chain, n - 1);
      TableSize(fp.fs);
      var ncl := GetFat(fp.fs, fp.clust);
      res := FR_OK;
      if ncl == DWORD_MAX { res := FR_DISK_ERR; }
      if ncl == 1 { res := FR_INT_ERR; }
      if res == FR_OK && ncl < fp.fs.geo.nFatent {
        res := FreeFrom(fp.fs, fp.chain, n, ncl, fp.clust);
      } else if res == FR_OK {
        CutNothing(fp.fs.fat, fp.chain, n, Eoc(fp.fs));
      }
    }
  }

  // The file's place on the volume once the chain is cut to n clusters.
  lemma CutShape(g: Geometry, f: seq<nat>, sclust: nat, chain: seq<nat>, secs: seq<nat>, own: set<nat>, n: nat, eoc: nat)
    requires g.DataOk() && Shape(g, f, sclust, chain, secs) && OwnOk(g, f, secs, own)
    requires chain != [] && n <= |chain| && eoc >= |f|
    ensures g.csize * n <= |secs| && forall c :: c in chain ==> c < |f|
    ensures Shape(g, CutAt(f, chain, n, eoc), if n == 0 then 0 else sclust, chain[..n], secs[..g.csize * n])
    ensures OwnOk(g, CutAt(f, chain, n, eoc), secs[..g.csize * n], own)
  {
    SecsShorten(g, chain, secs, n);
    var f' := CutAt(f, chain, n, eoc);
    assert n > 0 ==> IsChain(f', chain[..n]) by {
      if 0 < n < |chain| { ShortenIsChain(f, chain, n, eoc); }
      if n == |chain| { assert chain[..n] == chain; }
    }
    assert OwnOk(g, f', secs[..g.csize * n], own) by { CutOwn(g, f, f', chain, secs, own, g.csize * n); }
  }

  lemma CutOwn(g: Geometry, f: seq<nat>, f': seq<nat>, chain: seq<nat>, secs: seq<nat>, own: set<nat>, m: nat)
    requires g.DataOk() && SecsOf(g, chain, secs) && OwnOk(g, f, secs, own) && |f'| == |f| && m <= |secs|
    requires forall c :: 2 <= c < |f| && f'[c] == 0 ==> f[c] == 0 || c in chain
    ensures OwnOk(g, f', secs[..m], own)
  {
    forall c, j | 2 <= c < |f| && f'[c] == 0 && 0 <= j < g.csize ensures SectorOf(g, c, j) in own {
      if f[c] != 0 {
        var i :| 0 <= i < |chain| && chain[i] == c;
        SectorInSecs(g, chain, secs, i, j);
      }
    }
  }

  lemma SectorInSecs(g: Geometry, chain: seq<nat>, secs: seq<nat>, i: nat, j: nat)
    requires g.DataOk() && SecsOf(g, chain, secs) && i < |chain| && j < g.csize
    ensures g.csize * i + j < |secs| && secs[g.csize * i + j] == SectorOf(g, chain[i], j)
  {
    MulMonotone(g.csize, i + 1, |chain|);
    assert g.csize * (i + 1) == g.csize * i + g.csize;
    DivMod(g.csize * i + j, g.csize, i, j);
    assert secs[g.csize * i + j] == SectorAt(g, chain, g.csize * i + j);
  }

  // The clusters kept hold the bytes up to the cursor, and the cursor.
  lemma NeededHold(fp: Fil)
    requires fp.fs.geo.DataOk()
    ensures fp.fptr <= SS * (fp.fs.geo.csize * Needed(fp.fs.geo, fp.fptr))
    ensures fp.fptr % SS != 0 ==> fp.fptr / SS < fp.fs.geo.csize * Needed(fp.fs.geo, fp.fptr)
  {
    if fp.fptr > 0 {
      var g, k := fp.fs.geo, (fp.fptr - 1) / SS;
      Position(g, k);
      assert g.csize * (k / g.csize + 1) == g.csize * (k / g.csize) + g.csize;
    }
  }

  // As Core, but a dirty buffer may belong to a sector the file has given up.
  ghost predicate Loose(fp: Fil)
    reads fp`sclust, fp`objsize, fp`sect, fp`dirty, fp`chain, fp`secs, fp`img, fp`own, fp.buf
    reads fp.fs`winsect, fp.fs`wflag, fp.fs`logical, fp.fs`fat, fp.fs`mirrored, fp.fs.disk`sectors, fp.fs.win
  {
    && fp.Base()
    && ((fp.sect != 0 || fp.dirty) ==> fp.sect in fp.own)
    && (!fp.dirty && fp.sect != 0 ==> fp.buf[..] == fp.fs.logical[fp.sect])
    && ImgOk(fp.fs.logical, fp.secs, fp.dirty, fp.sect, fp.buf[..], fp.img)
  }

  // The write-back at the end of f_truncate.
  method FlushLoose(fp: Fil) returns (res: FResult)
    requires Loose(fp)
    modifies fp`dirty, fp.fs.disk, fp.fs`logical
    ensures fp.fs.Valid()
    ensures res == FR_OK || res == FR_DISK_ERR
    ensures SameBut(fp.fs.geo, old(fp.fs.logical), fp.fs.logical, old(Pending(fp)))
    ensures fp.fs.disk.faults >= old(fp.fs.disk.faults)
    ensures res == FR_DISK_ERR ==> fp.fs.disk.faults > old(fp.fs.disk.faults)
    ensures res == FR_OK ==> fp.Core() && !fp.dirty
  {
    hide Shape, SecsOf;
    res := FR_OK;
    if fp.dirty {
      var ok := WriteData(fp.fs, fp.sect, 1, fp.buf[..], 0);
      FlushKeepsImage(fp.fs.geo, fp.fs.fat, fp.chain, old(fp.fs.logical), fp.fs.logical, fp.secs, fp.sect, fp.buf[..], fp.img, ok);
      if ok {
        fp.dirty := false;
      } else {
        res := FR_DISK_ERR;
      }
    }
  }

  // FAT traffic leaves the file's sectors and its buffer's sector alone.
  twostate lemma ImageStays(fp: Fil)
    requires old(fp.Core()) && fp.fs.Valid() && Kept(fp.fs) && fp.own == old(fp.own)
    requires fp.buf[..] == old(fp.buf[..]) && fp.sect == old(fp.sect) && fp.dirty == old(fp.dirty)
    ensures ImgOk(fp.fs.logical, old(fp.secs), fp.dirty, fp.sect, fp.buf[..], old(fp.img))
    ensures fp.fs.winsect !in fp.own && (fp.dirty ==> fp.sect in fp.own)
    ensures !fp.dirty && fp.sect != 0 ==> fp.sect < |fp.fs.logical| && fp.buf[..] == fp.fs.logical[fp.sect]
  {
    OwnKept(fp);
    ImageKept(old(fp.fs.logical), fp.fs.logical, old(fp.secs), fp.dirty, fp.sect, fp.buf[..], old(fp.img));
  }

  // The file stays consistent when its chain is cut to the clusters the cursor needs.
  twostate lemma CutLoose(fp: Fil)
    requires old(fp.Core()) && old(fp.Cursor()) && old(fp.fptr < fp.objsize) && fp.fs.Valid() && Kept(fp.fs)
    requires Needed(fp.fs.geo, fp.fptr) <= |old(fp.chain)| && forall c :: c in old(fp.chain) ==> c < |old(fp.fs.fat)|
    requires fp.fs.geo.csize * Needed(fp.fs.geo, fp.fptr) <= |old(fp.secs)|
    requires fp.fs.fat == CutAt(old(fp.fs.fat), old(fp.chain), Needed(fp.fs.geo, fp.fptr), Eoc(fp.fs))
    requires fp.chain == old(fp.chain)[..Needed(fp.fs.geo, fp.fptr)]
    requires fp.secs == old(fp.secs)[..fp.fs.geo.csize * Needed(fp.fs.geo, fp.fptr)]
    requires fp.img == old(fp.img)[..fp.fs.geo.csize * Needed(fp.fs.geo, fp.fptr)]
    requires fp.sclust == if fp.fptr == 0 then 0 else old(fp.sclust)
    requires fp.fptr == old(fp.fptr) == fp.objsize && fp.own == old(fp.own) && fp.clust == old(fp.clust)
    requires fp.buf[..] == old(fp.buf[..]) && fp.sect == old(fp.sect) && fp.dirty == old(fp.dirty)
    ensures Loose(fp)
  {
    hide FatFs.Valid, Shape, ImgOk, CutAt, OwnOk;
    var n := Needed(fp.fs.geo, fp.fptr);
    TableSize(fp.fs);
    assert old(fp.chain) != [] by { ChainNotEmpty(old(fp.objsize), old(fp.img), old(fp.secs), fp.fs.geo, old(fp.fs.fat), old(fp.sclust), old(fp.chain)); }
    CutShape(fp.fs.geo, old(fp.fs.fat), old(fp.sclust), old(fp.chain), old(fp.secs), fp.own, n, Eoc(fp.fs));
    assert fp.objsize <= SS * |fp.img| by { NeededHold(fp); }
    ImageStays(fp);
    assert ImgOk(fp.fs.logical, fp.secs, fp.dirty, fp.sect, fp.buf[..], fp.img) by {
      ImagePrefix(fp.fs.logical, old(fp.secs), fp.dirty, fp.sect, fp.buf[..], old(fp.img), fp.fs.geo.csize * n);
    }
  }

  lemma ChainNotEmpty(size: nat, img: seq<Sector>, secs: seq<nat>, g: Geometry, f: seq<nat>, sclust: nat, chain: seq<nat>)
    requires g.csize > 0 && Shape(g, f, sclust, chain, secs) && |img| == |secs| && 0 < size <= SS * |img|
    ensures chain != []
  {
  }

  lemma ImagePrefix(l: seq<Sector>, secs: seq<nat>, dirty: bool, sect: nat, b: seq<Byte>, img: seq<Sector>, m: nat)
    requires |b| == SS && ImgOk(l, secs, dirty, sect, b, img) && m <= |secs|
    ensures ImgOk(l, secs[..m], dirty, sect, b, img[..m])
  {
    forall k | 0 <= k < m
      ensures secs[k] < |l| && img[..m][k] == if dirty && secs[k] == sect then b else l[secs[k]]
    {
      var held := img[k];
    }
  }

  // The cursor needs no cluster that is cut off.
  twostate lemma CutCursor(fp: Fil)
    requires fp.fs.geo.DataOk() && old(fp.Cursor()) && fp.fptr == old(fp.fptr) == fp.objsize
    requires fp.clust == old(fp.clust) && fp.sect == old(fp.sect)
    requires fp.objsize == 0 ==> !fp.dirty
    requires Needed(fp.fs.geo, fp.fptr) <= |old(fp.chain)| && fp.chain == old(fp.chain)[..Needed(fp.fs.geo, fp.fptr)]
    requires fp.fs.geo.csize * Needed(fp.fs.geo, fp.fptr) <= |old(fp.secs)|
    requires fp.secs == old(fp.secs)[..fp.fs.geo.csize * Needed(fp.fs.geo, fp.fptr)]
    ensures fp.Cursor()
  {
    NeededHold(fp);
  }

  lemma ContentCut(img: seq<Sector>, m: nat, n: nat, p: nat)
    requires m <= |img| && p <= n <= SS * |img| && p <= SS * m
    ensures Content(img[..m], p) == Content(img, n)[..p]
  {
  }

  // The ghost view follows the shortened chain.
  ghost method Forget(fp: Fil)
    requires fp.fs.geo.csize > 0
    requires Needed(fp.fs.geo, fp.fptr) <= |fp.chain|
    requires fp.fs.geo.csize * Needed(fp.fs.geo, fp.fptr) <= |fp.secs| == |fp.img|
    modifies fp`chain, fp`secs, fp`img
    ensures fp.chain == old(fp.chain)[..Needed(fp.fs.geo, fp.fptr)]
    ensures fp.secs == old(fp.secs)[..fp.fs.geo.csize * Needed(fp.fs.geo, fp.fptr)]
    ensures fp.img == old(fp.img)[..fp.fs.geo.csize * Needed(fp.fs.geo, fp.fptr)]
  {
    ghost var n := Needed(fp.fs.geo, fp.fptr);
    fp.chain, fp.secs, fp.img := fp.chain[..n], fp.secs[..fp.fs.geo.csize * n], fp.img[..fp.fs.geo.csize * n];
  }

  lemma PendingIsOwn(fp: Fil)
    requires fp.Core()
    ensures forall s :: s in Pending(fp) ==> s in fp.secs
  {
  }

  lemma SameButNone(g: Geometry, l: seq<Sector>, secs: seq<nat>)
    ensures SameBut(g, l, l, secs)
  {
  }

  // f_truncate up to its write-back: the FAT is cut, and the file's view of its chain.
  method CutChain(fp: Fil) returns (res: FResult)
    requires fp.Core() && fp.Cursor() && fp.fptr < fp.objsize
    modifies fp`sclust, fp`objsize, fp`modified, fp`chain, fp`secs, fp`img, fp.fs, fp.fs.disk, fp.fs.win
    ensures fp.fs.Valid() && fp.fs.disk.faults >= old(fp.fs.disk.faults)
    ensures res == FR_OK || res == FR_DISK_ERR
    ensures Spares(old(fp.fs.fat), fp.fs.fat, old(fp.chain))
    ensures SameBut(fp.fs.geo, old(fp.fs.logical), fp.fs.logical, [])
    ensures res == FR_DISK_ERR ==> fp.fs.disk.faults > old(fp.fs.disk.faults)
    ensures fp.objsize == fp.fptr && fp.modified
    ensures Needed(fp.fs.geo, fp.fptr) <= |old(fp.chain)| && forall c :: c in old(fp.chain) ==> c < |old(fp.fs.fat)|
    ensures fp.fs.geo.csize * Needed(fp.fs.geo, fp.fptr) <= |old(fp.secs)|
    ensures res == FR_OK ==>
              && Loose(fp) && fp.Data() == old(fp.Data())[..fp.fptr]
              && fp.chain == old(fp.chain)[..Needed(fp.fs.geo, fp.fptr)]
              && fp.secs == old(fp.secs)[..fp.fs.geo.csize * Needed(fp.fs.geo, fp.fptr)]
              && fp.fs.fat == CutAt(old(fp.fs.fat), old(fp.chain), Needed(fp.fs.geo, fp.fptr), Eoc(fp.fs))
    ensures res == FR_OK && old(FreeOk(fp.fs.freeClst, fp.fs.fat)) ==> FreeOk(fp.fs.freeClst, fp.fs.fat)
  {
    hide FatFs.Valid, Shape, OwnOk, ImgOk, CutAt, FreeOk, Content, SameBut, Kept, Spares, Needed;
    res := CutFat(fp);
    SecsOfNeeded(fp);
    fp.objsize := fp.fptr;
    fp.modified := true;
    if res == FR_OK {
      Forget(fp);
      CutLoose(fp);
      NeededHold(fp);
      ContentCut(old(fp.img), fp.fs.geo.csize * Needed(fp.fs.geo, fp.fptr), old(fp.objsize), fp.fptr);
    }
  }

  // f_truncate while the cursor is inside the file.
  method CutFile(fp: Fil) returns (res: FResult)
    requires fp.Core() && fp.Cursor() && fp.fptr < fp.objsize
    modifies fp`sclust, fp`objsize, fp`modified, fp`dirty, fp`chain, fp`secs, fp`img, fp.fs, fp.fs.disk, fp.fs.win
    ensures fp.fs.Valid()
    ensures res == FR_OK || res == FR_DISK_ERR
    ensures Spares(old(fp.fs.fat), fp.fs.fat, old(fp.chain))
    ensures SameBut(fp.fs.geo, old(fp.fs.logical), fp.fs.logical, old(fp.secs))
    ensures res == FR_DISK_ERR ==> fp.fs.disk.faults > old(fp.fs.disk.faults)
    ensures fp.objsize == fp.fptr && fp.modified
    ensures res == FR_OK ==>
              && fp.Core() && fp.Cursor() && fp.Data() == old(fp.Data())[..fp.fptr]
              && Needed(fp.fs.geo, fp.fptr) <= |old(fp.chain)| && (forall c :: c in old(fp.chain) ==> c < |old(fp.fs.fat)|)
              && fp.chain == old(fp.chain)[..Needed(fp.fs.geo, fp.fptr)]
              && fp.fs.fat == CutAt(old(fp.fs.fat), old(fp.chain), Needed(fp.fs.geo, fp.fptr), Eoc(fp.fs))
    ensures res == FR_OK && old(FreeOk(fp.fs.freeClst, fp.fs.fat)) ==> FreeOk(fp.fs.freeClst, fp.fs.fat)
  {
    hide FatFs.Valid, Shape, OwnOk, ImgOk, CutAt, FreeOk, Content, SameBut, Pending, Spares, Needed;
    PendingIsOwn(fp);
    res := CutChain(fp);
    ghost var mid := fp.fs.logical;
    SameButMore(fp.fs.geo, old(fp.fs.logical), mid, old(fp.secs));
    if res == FR_OK {
      res := FlushLoose(fp);
      SameButTwice(fp.fs.geo, old(fp.fs.logical), mid, fp.fs.logical, old(Pending(fp)), old(fp.secs));
      if res == FR_OK { CutCursor(fp); }
    }
  }

  twostate lemma SecsOfNeeded(fp: Fil)
    requires old(fp.Core()) && Needed(fp.fs.geo, old(fp.fptr)) <= |old(fp.chain)|
    ensures fp.fs.geo.csize * Needed(fp.fs.geo, old(fp.fptr)) <= |old(fp.secs)|
  {
    MulMonotone(fp.fs.geo.csize, Needed(fp.fs.geo, old(fp.fptr)), |old(fp.chain)|);
  }

  // f_truncate. The file's bytes end at the cursor, and exactly the clusters behind the
  // cursor's are freed.
  method Truncate(fp: Fil) returns (res: FResult)
    requires fp.Valid()
    modifies fp`sclust, fp`objsize, fp`modified, fp`dirty, fp`chain, fp`secs, fp`img, fp`err, fp.fs, fp.fs.disk, fp.fs.win
    ensures old(fp.err) == FR_OK ==> fp.fs.Valid()
    ensures fp.Valid()
    ensures Spares(old(fp.fs.fat), fp.fs.fat, old(fp.chain))
    ensures SameBut(fp.fs.geo, old(fp.fs.logical), fp.fs.logical, old(fp.secs))
    ensures old(fp.err) != FR_OK ==> res == old(fp.err)
    ensures old(fp.err) == FR_OK && !old(fp.writable) ==> res == FR_DENIED && fp.err == FR_OK && fp.Data() == old(fp.Data()) && Idle(fp)
    ensures old(fp.err) == FR_OK && old(fp.writable) ==> res == fp.err && (res == FR_OK || res == FR_DISK_ERR)
    ensures old(fp.err) == FR_OK && res == FR_DISK_ERR ==> fp.fs.disk.faults > old(fp.fs.disk.faults)
    ensures res == FR_OK ==> old(fp.Core()) && fp.fptr == old(fp.fptr) && fp.Data() == old(fp.Data())[..fp.fptr]
    ensures res == FR_OK ==> Trimmed(fp)
    ensures fp.modified == old(fp.modified || (fp.err == FR_OK && fp.writable && fp.fptr < fp.objsize))
    ensures res == FR_OK && old(FreeOk(fp.fs.freeClst, fp.fs.fat)) ==> FreeOk(fp.fs.freeClst, fp.fs.fat)
  {
    hide FatFs.Valid, Shape, OwnOk, ImgOk, CutAt, FreeOk, Content, SameBut, Spares;
    SparesSame(fp.fs.fat, fp.chain);
    SameButNone(fp.fs.geo, fp.fs.logical, fp.secs);
    if fp.err != FR_OK { return fp.err; }
    if !fp.writable { return FR_DENIED; }
    res := FR_OK;
    if fp.fptr < fp.objsize {
      res := CutFile(fp);
      fp.err := res;
    }
  }

  // What f_truncate does to the clusters.
  twostate predicate Trimmed(fp: Fil)
    requires fp.fs.geo.csize > 0
    reads fp`fptr, fp`chain, fp`secs, fp.fs`fat
  {
    var n := Needed(fp.fs.geo, old(fp.fptr));
    if old(fp.fptr >= fp.objsize) then fp.chain == old(fp.chain) && fp.secs == old(fp.secs) && fp.fs.fat == old(fp.fs.fat)
    else
      && n <= |old(fp.chain)| && (forall c :: c in old(fp.chain) ==> c < |old(fp.fs.fat)|)
      && fp.chain == old(fp.chain)[..n]
      && fp.fs.fat == CutAt(old(fp.fs.fat), old(fp.chain), n, Eoc(fp.fs))
  }
}
