/** Writing a file (thirdparty/fatfs/ff.c, f_write): the file's bytes become the old
    bytes with the written slice laid over them, whatever mix of direct transfers,
    partial sectors and new clusters that takes. */
module FileWrite {
  import opened Disk
  import opened FatLayout
  import opened Window
  import opened FatEntry
  import opened Chain
  import opened ChainOps
  import opened FileMap
  import opened File
  import opened FileRead

  // -- Following or stretching the chain --

  ghost predicate NoneFree(f: seq<nat>) {
    forall c :: 2 <= c < |f| ==> f[c] != 0
  }

  // The cluster c that follows the chain s is the one behind its last, when that is free.
  ghost predicate TakesNext(f: seq<nat>, s: seq<nat>, c: nat)
    requires |s| > 0
  {
    var b := Behind(f, s[|s| - 1]);
    b < |f| && f[b] == 0 && b !in s ==> c == b
  }

  // From its old end on, the chain grew in place wherever it could.
  ghost predicate InPlace(f: seq<nat>, chain: seq<nat>, chain': seq<nat>) {
    forall i :: 0 < i && |chain| <= i < |chain'| ==> TakesNext(f, chain'[..i], chain'[i])
  }

  lemma InPlaceOnce(f: seq<nat>, last: nat, chain: seq<nat>, ncl: nat)
    requires chain != [] ==> LastOf(chain) != 0 && Takes(f, last, LastOf(chain), ncl)
    ensures InPlace(f, chain, chain + [ncl])
  {
    assert (chain + [ncl])[..|chain|] == chain;
  }

  lemma InPlaceTwice(f: seq<nat>, f': seq<nat>, c: seq<nat>, c': seq<nat>, c'': seq<nat>)
    requires c <= c' <= c'' && |f'| == |f| && InPlace(f, c, c') && InPlace(f', c', c'')
    requires forall x :: 0 <= x < |f| && x !in c' ==> f'[x] == f[x]
    ensures InPlace(f, c, c'')
  {
    forall i | 0 < i && |c| <= i < |c''| ensures TakesNext(f, c''[..i], c''[i]) {
      if i < |c'| {
        assert c''[..i] == c'[..i];
      } else {
        PrefixMember(c', c''[..i]);
        assert TakesNext(f', c''[..i], c''[i]);
      }
    }
  }

  // The outcome of following or stretching the chain past its q-th cluster.
  twostate predicate Followed(fp: Fil, q: int, ncl: nat)
    reads fp, fp.buf, fp.fs, fp.fs.disk, fp.fs.win
  {
    && fp.Core() && old(fp.chain) <= fp.chain && old(fp.img) <= fp.img
    && (ncl == 1 ==> HasOne(fp.fs.fat))
    && (ncl >= 2 ==> 0 <= q + 1 < |fp.chain| && ncl == fp.chain[q + 1])
    && (ncl == 0 ==> fp.chain == old(fp.chain) && |fp.chain| == q + 1)
    && (fp.chain != old(fp.chain) ==>
          fp.chain == old(fp.chain) + [ncl] && |fp.chain| == q + 2 && ncl < |old(fp.fs.fat)| && old(fp.fs.fat)[ncl] == 0)
    && |fp.fs.fat| == |old(fp.fs.fat)|
    && (forall c :: 0 <= c < |fp.fs.fat| && c !in fp.chain ==> fp.fs.fat[c] == old(fp.fs.fat)[c])
    && InPlace(old(fp.fs.fat), old(fp.chain), fp.chain)
    && (fp.chain != old(fp.chain) ==> Takes(old(fp.fs.fat), old(fp.fs.lastClst), LastOf(old(fp.chain)), ncl))
  }

  // The file after its chain f, chain gained the free cluster ncl.
  lemma GrownShape(g: Geometry, f: seq<nat>, chain: seq<nat>, secs: seq<nat>, sclust: nat, ncl: nat, eoc: nat)
    requires g.DataOk() && Shape(g, f, sclust, chain, secs) && 2 <= ncl < |f| && f[ncl] == 0 && eoc >= |f|
    ensures var f' := Grown(f, if chain == [] then 0 else chain[|chain| - 1], ncl, eoc);
            Shape(g, f', if sclust == 0 then ncl else sclust, chain + [ncl], secs + Block(g, ncl))
  {
    SecsExtend(g, chain, secs, ncl);
    if chain != [] {
      AppendIsChain(f, chain, ncl, eoc);
    }
  }

  lemma GrownOwn(g: Geometry, f: seq<nat>, f': seq<nat>, secs: seq<nat>, own: set<nat>, ncl: nat)
    requires g.DataOk() && OwnOk(g, f, secs, own) && 2 <= ncl < |f| == |f'| && f[ncl] == 0
    requires forall c :: 2 <= c < |f| && f'[c] == 0 ==> f[c] == 0
    ensures OwnOk(g, f', secs + Block(g, ncl), own)
    ensures forall j :: 0 <= j < g.csize ==> Block(g, ncl)[j] in own
  {
    forall j | 0 <= j < g.csize ensures Block(g, ncl)[j] in own {
      assert SectorOf(g, ncl, j) in own;
    }
  }

  lemma GrownImage(g: Geometry, f': seq<nat>, chain': seq<nat>, l: seq<Sector>, secs: seq<nat>, more: seq<nat>,
                   dirty: bool, sect: nat, b: seq<Byte>, img: seq<Sector>)
    requires g.DataOk() && IsChain(f', chain') && SecsOf(g, chain', secs + more)
    requires |b| == SS && ImgOk(l, secs, dirty, sect, b, img) && (dirty ==> sect in secs)
    requires forall j :: 0 <= j < |more| ==> more[j] < |l|
    ensures ImgOk(l, secs + more, dirty, sect, b, img + SectorsAt(l, more))
  {
    var secs', img' := secs + more, img + SectorsAt(l, more);
    forall k | 0 <= k < |img'|
      ensures secs'[k] < |l| && img'[k] == if dirty && secs'[k] == sect then b else l[secs'[k]]
    {
      if k < |secs| {
        assert img'[k] == img[k];
      } else {
        assert secs'[k] == more[k - |secs|] && img'[k] == l[secs'[k]];
        if dirty {
          var m :| 0 <= m < |secs| && secs[m] == sect;
          assert secs'[m] == sect;
          if secs'[k] == sect { SecsDistinct(g, f', chain', secs', m, k); }
        }
      }
    }
  }

  // The sectors this file owns are outside the FATs, so FAT traffic leaves them alone.
  twostate lemma OwnKept(fp: Fil)
    requires old(fp.Core()) && fp.own == old(fp.own) && fp.fs.Valid() && Kept(fp.fs)
    ensures forall s :: s in fp.own ==> s < |fp.fs.logical| && fp.fs.logical[s] == old(fp.fs.logical)[s]
    ensures fp.fs.winsect !in fp.own
  {
  }

  lemma ImageKept(l: seq<Sector>, l': seq<Sector>, secs: seq<nat>, dirty: bool, sect: nat, b: seq<Byte>, img: seq<Sector>)
    requires |b| == SS && ImgOk(l, secs, dirty, sect, b, img) && |l'| == |l|
    requires forall k :: 0 <= k < |secs| ==> secs[k] < |l| && l'[secs[k]] == l[secs[k]]
    ensures ImgOk(l', secs, dirty, sect, b, img)
  {
  }

  // create_chain for this file: clst is its q-th cluster (0 and -1 when it has none).
  method CreateFor(fp: Fil, clst: nat, ghost q: int) returns (ncl: nat)
    requires fp.Core() && -1 <= q < |fp.chain|
    requires q == -1 ==> fp.chain == [] && clst == 0
    requires q >= 0 ==> clst == fp.chain[q]
    modifies fp.fs, fp.fs.disk, fp.fs.win
    ensures fp.fs.Valid() && Kept(fp.fs) && Elsewhere(fp) && fp.fs.disk.faults >= old(fp.fs.disk.faults)
    ensures ncl == DWORD_MAX ==> fp.fs.disk.faults > old(fp.fs.disk.faults)
    ensures ncl != DWORD_MAX ==> CreatedBehind(old(fp.fs.fat), fp.fs.fat, fp.chain, q, ncl, Eoc(fp.fs))
    ensures ncl != DWORD_MAX && old(FreeOk(fp.fs.freeClst, fp.fs.fat)) ==> FreeOk(fp.fs.freeClst, fp.fs.fat)
    ensures ncl == 0 && old(FreeOk(fp.fs.freeClst, fp.fs.fat)) ==> NoneFree(fp.fs.fat)
    ensures ncl != DWORD_MAX && q + 1 == |fp.chain| && ncl >= 2 ==>
              && Takes(old(fp.fs.fat), old(fp.fs.lastClst), LastOf(fp.chain), ncl)
              && InPlace(old(fp.fs.fat), fp.chain, fp.chain + [ncl])
  {
    hide FatFs.Valid, OwnOk, ImgOk, SecsOf, IsChain, Around, Created, CreatedBehind, FreeOk, Takes, InPlace;
    assert clst == 0 || clst in fp.chain;
    ncl := CreateChain(fp.fs, clst);
    if ncl != DWORD_MAX {
      CreatedCases(old(fp.fs.fat), fp.fs.fat, fp.chain, q, clst, ncl, Eoc(fp.fs));
      CreatedSpares(old(fp.fs.fat), fp.fs.fat, clst, ncl, Eoc(fp.fs), fp.chain);
      if q + 1 == |fp.chain| && ncl >= 2 {
        InPlaceOnce(old(fp.fs.fat), old(fp.fs.lastClst), fp.chain, ncl);
      }
    }
    CreatedElsewhere(fp);
  }

  // A new cluster joins the chain; whatever it held joins the file's allocated sectors.
  method Follow(fp: Fil, clst: nat, ghost q: int) returns (ncl: nat)
    requires fp.Core() && -1 <= q < |fp.chain|
    requires q == -1 ==> fp.chain == [] && clst == 0
    requires q >= 0 ==> clst == fp.chain[q]
    modifies fp`sclust, fp`chain, fp`secs, fp`img, fp.fs, fp.fs.disk, fp.fs.win
    ensures fp.fs.Valid()
    ensures Elsewhere(fp)
    ensures fp.fs.disk.faults >= old(fp.fs.disk.faults)
    ensures ncl == DWORD_MAX ==> fp.fs.disk.faults > old(fp.fs.disk.faults)
    ensures ncl != DWORD_MAX ==> Followed(fp, q, ncl)
    ensures ncl != DWORD_MAX && old(FreeOk(fp.fs.freeClst, fp.fs.fat)) ==> FreeOk(fp.fs.freeClst, fp.fs.fat)
    ensures ncl == 0 && old(FreeOk(fp.fs.freeClst, fp.fs.fat)) ==> NoneFree(fp.fs.fat)
  {
    hide FatFs.Valid, OwnOk, ImgOk, SecsOf, IsChain, Around, Kept, FreeOk, NoneFree, Grown, Block, NewSectors, HasOne, TakesNext, Takes;
    ncl := CreateFor(fp, clst, q);
    if ncl == DWORD_MAX { return; }
    ghost var was := fp.Place();
    if fp.sclust == 0 && ncl >= 2 {
      fp.sclust := ncl;
    }
    if q + 1 == |fp.chain| && ncl >= 2 {
      fp.img := fp.img + NewSectors(fp.fs.geo, fp.fs.logical, ncl);
      fp.chain, fp.secs := fp.chain + [ncl], fp.secs + Block(fp.fs.geo, ncl);
      GrownCore(fp);
      assert Elsewhere(fp) by { LongerElsewhere(fp.fs.geo, old(fp.Place()), was, fp.Place()); }
    } else {
      FatReadKeepsCore(fp);
    }
  }

  // create_chain behind the q-th cluster of a chain: past its end the chain grows by a free
  // cluster, or nothing changes; inside it nothing changes.
  ghost predicate CreatedBehind(f: seq<nat>, f': seq<nat>, chain: seq<nat>, q: int, ncl: nat, eoc: nat) {
    && |f'| == |f| && -1 <= q < |chain|
    && (q + 1 < |chain| ==> f' == f && ncl == chain[q + 1] >= 2)
    && (q + 1 == |chain| && ncl < 2 ==> f' == f)
    && (q + 1 == |chain| && ncl >= 2 ==>
          LastOf(chain) < |f| && 2 <= ncl < |f| && f[ncl] == 0 && f' == Grown(f, LastOf(chain), ncl, eoc))
    && (forall c :: 0 <= c < |f| && c !in chain && !(q + 1 == |chain| && c == ncl) ==> f'[c] == f[c])
    && (ncl == 1 ==> HasOne(f))
  }

  lemma CreatedCases(f: seq<nat>, f': seq<nat>, chain: seq<nat>, q: int, clst: nat, ncl: nat, eoc: nat)
    requires |f'| == |f| && Created(f, f', clst, ncl, eoc)
    requires -1 <= q < |chain| && (chain != [] ==> IsChain(f, chain)) && (q == -1 ==> chain == [] && clst == 0)
    requires q >= 0 ==> clst == chain[q]
    ensures CreatedBehind(f, f', chain, q, ncl, eoc)
    ensures q + 1 == |chain| ==> clst == LastOf(chain) && !HasNext(f, clst) && (chain != [] ==> clst != 0)
    ensures q + 1 == |chain| && ncl >= 2 ==> ncl < |f|
  {
    ClusterInTable(f, chain, q);
  }

  lemma CreatedSpares(f: seq<nat>, f': seq<nat>, clst: nat, ncl: nat, eoc: nat, chain: seq<nat>)
    requires |f'| == |f| && Created(f, f', clst, ncl, eoc) && (clst == 0 || clst in chain)
    ensures forall c :: 2 <= c < |f| && f[c] != 0 && c !in chain ==> f'[c] == f[c]
  {
  }

  lemma LongerElsewhere(g: Geometry, a: Extent, b: Extent, c: Extent)
    requires Around(g, a, b) && b.chain == a.chain && g.DataOk()
    requires c.logical == b.logical && c.fat == b.fat && c.window == b.window
    requires |c.chain| == |b.chain| + 1 && b.chain <= c.chain && b.secs == a.secs && (b.shown ==> c.shown)
    requires 2 <= LastOf(c.chain) < |a.fat| && a.fat[LastOf(c.chain)] == 0
    requires c.secs == b.secs + Block(g, LastOf(c.chain)) && SecsOf(g, a.chain, a.secs)
    ensures Around(g, a, c)
  {
    SecsExtend(g, b.chain, b.secs, LastOf(c.chain));
    PrefixMember(b.chain, c.chain);
    PrefixMember(b.secs, c.secs);
    assert c.chain == b.chain + [LastOf(c.chain)];
  }

  // A call of create_chain touches entries of free clusters and of the chain alone.
  twostate lemma CreatedElsewhere(fp: Fil)
    requires Kept(fp.fs) && fp.chain == old(fp.chain) && fp.secs == old(fp.secs) && fp.sect == old(fp.sect)
    requires forall c :: 2 <= c < |fp.fs.fat| && old(fp.fs.fat)[c] != 0 && c !in fp.chain ==> fp.fs.fat[c] == old(fp.fs.fat)[c]
    ensures Elsewhere(fp)
  {
  }

  // What a cluster's sectors hold.
  ghost function NewSectors(g: Geometry, l: seq<Sector>, ncl: nat): (img: seq<Sector>)
    requires ncl >= 2
  {
    if forall j :: 0 <= j < g.csize ==> Block(g, ncl)[j] < |l| then SectorsAt(l, Block(g, ncl)) else []
  }

  function LastOf(chain: seq<nat>): nat {
    if chain == [] then 0 else chain[|chain| - 1]
  }

  // The file stays consistent when its chain has grown by one free cluster.
  twostate lemma GrownCore(fp: Fil)
    requires old(fp.Core()) && fp.fs.Valid() && Kept(fp.fs)
    requires |fp.chain| == |old(fp.chain)| + 1
    requires 2 <= LastOf(fp.chain) < |old(fp.fs.fat)| && old(fp.fs.fat)[LastOf(fp.chain)] == 0
    requires LastOf(old(fp.chain)) < |old(fp.fs.fat)|
    requires fp.fs.fat == Grown(old(fp.fs.fat), LastOf(old(fp.chain)), LastOf(fp.chain), Eoc(fp.fs))
    requires fp.chain == old(fp.chain) + [LastOf(fp.chain)]
    requires fp.secs == old(fp.secs) + Block(fp.fs.geo, LastOf(fp.chain))
    requires fp.img == old(fp.img) + NewSectors(fp.fs.geo, fp.fs.logical, LastOf(fp.chain))
    requires old(fp.sclust) == 0 ==> fp.sclust == LastOf(fp.chain)
    requires old(fp.sclust) != 0 ==> fp.sclust == old(fp.sclust)
    requires fp.buf[..] == old(fp.buf[..]) && fp.objsize == old(fp.objsize) && fp.own == old(fp.own)
    requires fp.sect == old(fp.sect) && fp.dirty == old(fp.dirty)
    ensures fp.Core()
  {
    var ncl := LastOf(fp.chain);
    EocEndsChains(fp.fs);
    GrownShape(fp.fs.geo, old(fp.fs.fat), old(fp.chain), old(fp.secs), old(fp.sclust), ncl, Eoc(fp.fs));
    GrownOwn(fp.fs.geo, old(fp.fs.fat), fp.fs.fat, old(fp.secs), fp.own, ncl);
    OwnKept(fp);
    ImageKept(old(fp.fs.logical), fp.fs.logical, old(fp.secs), fp.dirty, fp.sect, fp.buf[..], old(fp.img));
    GrownImage(fp.fs.geo, fp.fs.fat, fp.chain, fp.fs.logical, old(fp.secs), Block(fp.fs.geo, ncl), fp.dirty, fp.sect,
               fp.buf[..], old(fp.img));
  }

  // What the FAT says about the q-th cluster of a chain.
  lemma ClusterInTable(f: seq<nat>, chain: seq<nat>, q: int)
    requires -1 <= q < |chain| && (chain != [] ==> IsChain(f, chain))
    ensures q >= 0 ==> 2 <= chain[q] < |f|
    ensures 0 <= q && q + 1 < |chain| ==> f[chain[q]] == chain[q + 1] && 2 <= chain[q + 1] < |f|
    ensures q >= 0 && q + 1 == |chain| ==> f[chain[q]] >= |f|
    ensures q == -1 && chain != [] ==> 2 <= chain[0] < |f|
  {
    if q >= 0 && q + 1 < |chain| { MiddleLink(f, chain, q); }
  }

  // -- f_write --

  // The cursor at a sector boundary, in clusters.
  lemma PositionInFile(fp: Fil, k: nat)
    requires fp.Base() && fp.Cursor() && fp.fptr == SS * k
    ensures k <= |fp.secs|
    ensures k == 0 ==> k / fp.fs.geo.csize == 0 && k % fp.fs.geo.csize == 0
    ensures k > 0 && k % fp.fs.geo.csize == 0 ==>
              0 <= k / fp.fs.geo.csize - 1 < |fp.chain| && fp.clust == fp.chain[k / fp.fs.geo.csize - 1]
    ensures k % fp.fs.geo.csize != 0 ==> fp.At(k)
  {
    if k == 0 {
      DivMod(0, fp.fs.geo.csize, 0, 0);
    } else {
      assert (fp.fptr - 1) / SS == k - 1;
      PreviousSector(fp.fs.geo, k);
    }
  }

  lemma SectorExists(fp: Fil, k: nat)
    requires fp.Base() && fp.At(k)
    ensures k < |fp.secs|
  {
    var n, q := fp.fs.geo.csize, k / fp.fs.geo.csize;
    Position(fp.fs.geo, k);
    MulMonotone(n, q + 1, |fp.chain|);
    assert n * (q + 1) == n * q + n;
  }

  // What a step of f_write leaves, apart from the file's data: the chain only grows, by
  // clusters that were free, and the FAT changes only at the file's own clusters. Whatever
  // the outcome, other sectors and other clusters in use stay as they were.
  twostate predicate WriteOutcome(fp: Fil, res: FResult)
    reads fp, fp.buf, fp.fs, fp.fs.disk, fp.fs.win
  {
    && fp.fs.disk.faults >= old(fp.fs.disk.faults)
    && (res == FR_OK || res == FR_DISK_ERR || res == FR_INT_ERR)
    && (res == FR_DISK_ERR ==> fp.fs.disk.faults > old(fp.fs.disk.faults))
    && (res == FR_INT_ERR ==> HasOne(fp.fs.fat))
    && (res == FR_OK ==> fp.Core() && Stretched(fp))
    && fp.fs.Valid() && Elsewhere(fp)
  }

  // A reserved entry, which makes the allocator stop with an internal error.
  ghost predicate HasOne(f: seq<nat>) {
    exists c :: 2 <= c < |f| && f[c] == 1
  }

  twostate predicate Stretched(fp: Fil)
    reads fp`chain, fp.fs`fat, fp.fs`freeClst
  {
    StretchedTo(old(fp.chain), old(fp.fs.fat), old(fp.fs.freeClst), fp.chain, fp.fs.fat, fp.fs.freeClst)
  }

  // The chain only grows, by clusters that were free and in place where that is possible,
  // the FAT changes only at its clusters, and a right free count stays right.
  ghost predicate StretchedTo(chain: seq<nat>, f: seq<nat>, free: nat, chain': seq<nat>, f': seq<nat>, free': nat) {
    && chain <= chain' && |f'| == |f|
    && (forall c :: c in chain' ==> c in chain || (c < |f| && f[c] == 0))
    && (forall c :: 0 <= c < |f| && c !in chain' ==> f'[c] == f[c])
    && (FreeOk(free, f) ==> FreeOk(free', f'))
    && InPlace(f, chain, chain')
  }

  lemma StretchedTwice(c: seq<nat>, f: seq<nat>, n: nat, c': seq<nat>, f': seq<nat>, n': nat,
                       c'': seq<nat>, f'': seq<nat>, n'': nat)
    requires StretchedTo(c, f, n, c', f', n') && StretchedTo(c', f', n', c'', f'', n'')
    ensures StretchedTo(c, f, n, c'', f'', n'')
  {
    hide TakesNext, InPlace, FreeOk;
    PrefixMember(c', c'');
    InPlaceTwice(f, f', c, c', c'');
  }

  // Following the chain or stretching it by one cluster is growing it.
  twostate lemma FollowedStretches(x: (Fil, int, nat))
    requires Followed(x.0, x.1, x.2)
    requires old(FreeOk(x.0.fs.freeClst, x.0.fs.fat)) ==> FreeOk(x.0.fs.freeClst, x.0.fs.fat)
    ensures Stretched(x.0)
  {
    hide InPlace, FreeOk, Fil.Core;
  }

  lemma TableSize(fs: FatFs)
    requires fs.Valid()
    ensures |fs.fat| == fs.geo.nFatent < DWORD_MAX && Eoc(fs) >= |fs.fat|
  {
    EocEndsChains(fs);
  }

  // The cursor is at the start of a cluster.
  ghost predicate AtStart(fp: Fil)
    reads fp`fptr
  {
    fp.fs.geo.csize > 0 && fp.fptr % SS == 0 && fp.fptr / SS % fp.fs.geo.csize == 0
  }

  // clst is the chain's cluster there.
  ghost predicate StartsHere(fp: Fil, clst: nat)
    reads fp`fptr, fp`chain
  {
    && fp.fs.geo.csize > 0
    && var q := fp.fptr / SS / fp.fs.geo.csize; q < |fp.chain| && clst == fp.chain[q]
  }

  // The cluster of the sector at the cursor, which starts a cluster: the first one, the
  // next one, or a new one.
  method NextForWrite(fp: Fil) returns (clst: nat)
    requires fp.Core() && fp.Cursor() && AtStart(fp)
    modifies fp`sclust, fp`chain, fp`secs, fp`img, fp.fs, fp.fs.disk, fp.fs.win
    ensures fp.fs.Valid()
    ensures Elsewhere(fp)
    ensures fp.fs.disk.faults >= old(fp.fs.disk.faults)
    ensures clst == DWORD_MAX ==> fp.fs.disk.faults > old(fp.fs.disk.faults)
    ensures clst != DWORD_MAX ==> fp.Core() && Stretched(fp) && old(fp.img) <= fp.img
    ensures clst == 1 ==> HasOne(fp.fs.fat)
    ensures 2 <= clst && clst != DWORD_MAX ==> StartsHere(fp, clst)
    ensures clst == 0 ==> fp.chain == old(fp.chain) && (old(FreeOk(fp.fs.freeClst, fp.fs.fat)) ==> NoneFree(fp.fs.fat))
  {
    hide FatFs.Valid, OwnOk, ImgOk, SecsOf, IsChain, Around, StretchedTo, FreeOk, NoneFree, HasOne, InPlace;
    ghost var k := fp.fptr / SS;
    PositionInFile(fp, k);
    if fp.fptr == 0 {
      ClusterInTable(fp.fs.fat, fp.chain, -1);
      TableSize(fp.fs);
      clst := fp.sclust;
      SameExtent(fp);
      SameStretched(fp);
      if clst == 0 {
        clst := Follow(fp, 0, -1);
        if clst != DWORD_MAX { FollowedStretches((fp, -1, clst)); }
      }
    } else {
      ghost var q := k / fp.fs.geo.csize - 1;
      clst := Follow(fp, fp.clust, q);
      if clst != DWORD_MAX { FollowedStretches((fp, q, clst)); }
    }
  }

  // At a sector boundary: clust becomes the cluster of the sector at the cursor, which
  // may be new. `full` tells that no cluster could be allocated.
  method AtSectorForWrite(fp: Fil) returns (res: FResult, full: bool)
    requires fp.Core() && fp.Cursor() && fp.fptr % SS == 0
    modifies fp`clust, fp`sclust, fp`chain, fp`secs, fp`img, fp.fs, fp.fs.disk, fp.fs.win
    ensures WriteOutcome(fp, res)
    ensures res == FR_OK ==> old(fp.img) <= fp.img
    ensures res == FR_OK && !full ==> fp.At(fp.fptr / SS) && fp.fptr / SS < |fp.secs|
    ensures res == FR_OK && full ==> fp.Cursor() && fp.chain == old(fp.chain) && (old(FreeOk(fp.fs.freeClst, fp.fs.fat)) ==> NoneFree(fp.fs.fat))
  {
    hide FatFs.Valid, OwnOk, ImgOk, SecsOf, IsChain, Around, StretchedTo, FreeOk, NoneFree;
    var k := fp.fptr / SS;
    PositionInFile(fp, k);
    full := false;
    SameExtent(fp);
    SameStretched(fp);
    if k % fp.fs.geo.csize == 0 {
      var clst := NextForWrite(fp);
      if clst == 0 {
        CursorGrown(fp);
        return FR_OK, true;
      }
      if clst == 1 { return FR_INT_ERR, false; }
      if clst == DWORD_MAX { return FR_DISK_ERR, false; }
      fp.clust := clst;
    }
    res := FR_OK;
    SectorExists(fp, k);
  }

  // A longer chain does not disturb the cursor.
  twostate lemma CursorGrown(fp: Fil)
    requires fp.fs.geo.csize > 0 && old(fp.Cursor()) && fp.fptr == old(fp.fptr) && fp.objsize == old(fp.objsize)
    requires fp.clust == old(fp.clust) && old(fp.chain) <= fp.chain && fp.fptr % SS == 0 && fp.dirty == old(fp.dirty)
    ensures fp.Cursor()
  {
  }

  // -- Whole sectors --

  lemma SubRange(d: seq<Byte>, ofs: nat, n: nat, a: nat, m: nat)
    requires ofs + n <= |d| && a + m <= n
    ensures d[ofs..ofs + n][a..a + m] == d[ofs + a..ofs + a + m]
  {
    var w := d[ofs..ofs + n];
    var x, y := w[a..a + m], d[ofs + a..ofs + a + m];
    forall i | 0 <= i < m ensures x[i] == y[i] { assert w[a + i] == d[ofs + a + i]; }
  }

  // Writing sectors k..k+cc of the file changes its image there and nowhere else.
  lemma DirectImage(g: Geometry, f: seq<nat>, sclust: nat, chain: seq<nat>, l: seq<Sector>, l': seq<Sector>,
                    secs: seq<nat>, sect: nat, b: seq<Byte>, b': seq<Byte>, img: seq<Sector>, k: nat, cc: nat,
                    data: seq<Byte>, ofs: nat)
    requires g.DataOk() && Shape(g, f, sclust, chain, secs)
    requires |b| == SS && |b'| == SS && ImgOk(l, secs, false, sect, b, img) && |l'| == |l|
    requires cc > 0 && ofs + SS * cc <= |data| && InOrder(secs, k, cc) && secs[k] + cc <= |l|
    requires forall j :: 0 <= j < |l| && !(secs[k] <= j < secs[k] + cc) ==> l'[j] == l[j]
    requires forall j :: secs[k] <= j < secs[k] + cc ==>
               l'[j] == data[ofs + SS * (j - secs[k])..ofs + SS * (j - secs[k]) + SS]
    ensures ImgOk(l', secs, false, sect, b', WithSectors(img, k, data[ofs..ofs + SS * cc]))
  {
    var img' := WithSectors(img, k, data[ofs..ofs + SS * cc]);
    forall m | 0 <= m < |img'| ensures secs[m] < |l'| && img'[m] == l'[secs[m]] {
      assert img[m] == l[secs[m]];
      if secs[k] <= secs[m] < secs[k] + cc {
        var j := secs[m] - secs[k];
        assert secs[k + j] == secs[k] + j;
        SecsDistinct(g, f, chain, secs, k + j, m);
        WrittenAt(img, k, cc, data, ofs, j);
      }
    }
  }

  lemma WrittenAt(img: seq<Sector>, k: nat, cc: nat, data: seq<Byte>, ofs: nat, j: nat)
    requires ofs + SS * cc <= |data| && j < cc && k + cc <= |img|
    ensures WithSectors(img, k, data[ofs..ofs + SS * cc])[k + j] == data[ofs + SS * j..ofs + SS * j + SS]
  {
    SubRange(data, ofs, SS * cc, SS * j, SS);
  }

  // When the file's buffer showed one of the sectors just written, it takes the new data.
  method Refill(fp: Fil, sect: nat, cc: nat, wbuff: seq<Byte>, ofs: nat)
    requires fp.buf.Length == SS && ofs + SS * cc <= |wbuff|
    modifies fp`dirty, fp.buf
    ensures if sect <= fp.sect < sect + cc
            then !fp.dirty && fp.buf[..] == wbuff[ofs + SS * (fp.sect - sect)..ofs + SS * (fp.sect - sect) + SS]
            else fp.dirty == old(fp.dirty) && fp.buf[..] == old(fp.buf[..])
  {
    if sect <= fp.sect < sect + cc {
      CopyIn(wbuff, ofs + SS * (fp.sect - sect), fp.buf, 0, SS);
      fp.dirty := false;
    }
  }

  // disk_write of whole sectors of the file.
  method PutRun(fp: Fil, sect: nat, cc: nat, wbuff: seq<Byte>, ofs: nat, ghost k: nat) returns (ok: bool)
    requires fp.Core() && cc > 0 && InOrder(fp.secs, k, cc) && sect == fp.secs[k] && ofs + SS * cc <= |wbuff|
    modifies fp.fs.disk, fp.fs`logical
    ensures fp.fs.Valid() && |fp.fs.logical| == |old(fp.fs.logical)| && Elsewhere(fp)
    ensures fp.fs.disk.faults == old(fp.fs.disk.faults) + (if ok then 0 else 1)
    ensures forall j :: 0 <= j < |fp.fs.logical| && !(sect <= j < sect + cc) ==> fp.fs.logical[j] == old(fp.fs.logical)[j]
    ensures sect + cc <= |fp.fs.logical|
    ensures ok ==> forall j :: sect <= j < sect + cc ==>
              fp.fs.logical[j] == wbuff[ofs + SS * (j - sect)..ofs + SS * (j - sect) + SS]
  {
    hide FatFs.Valid, Shape, OwnOk, ImgOk, Around;
    RunAvoidsWindow(fp, k, cc);
    RunInData(fp, k, cc);
    ok := WriteData(fp.fs, sect, cc, wbuff, ofs);
    RunInSecs(fp.secs, k, cc);
    OwnWriteElsewhere(fp);
  }

  // Whole sectors straight from the caller's data; the file's buffer is refilled when
  // it showed one of them.
  method WriteDirect(fp: Fil, sect: nat, cc: nat, wbuff: seq<Byte>, ofs: nat, ghost k: nat) returns (res: FResult)
    requires fp.Core() && !fp.dirty && cc > 0 && InOrder(fp.secs, k, cc) && sect == fp.secs[k]
    requires ofs + SS * cc <= |wbuff|
    modifies fp`img, fp`dirty, fp.buf, fp.fs.disk, fp.fs`logical
    ensures |fp.fs.logical| == |old(fp.fs.logical)|
    ensures forall s {:trigger fp.fs.logical[s]} :: 0 <= s < |fp.fs.logical| && !(sect <= s < sect + cc) ==>
              fp.fs.logical[s] == old(fp.fs.logical)[s]
    ensures fp.fs.Valid()
    ensures Elsewhere(fp)
    ensures fp.fs.disk.faults >= old(fp.fs.disk.faults)
    ensures res == FR_OK || res == FR_DISK_ERR
    ensures res == FR_DISK_ERR ==> fp.fs.disk.faults > old(fp.fs.disk.faults)
    ensures res == FR_OK ==> fp.Core() && fp.img == WithSectors(old(fp.img), k, wbuff[ofs..ofs + SS * cc])
  {
    hide FatFs.Valid, Shape, ImgOk, Content, Splice, Around;
    RunInData(fp, k, cc);
    WholeSectors(cc);
    var ok := PutRun(fp, sect, cc, wbuff, ofs, k);
    if !ok { return FR_DISK_ERR; }
    Refill(fp, sect, cc, wbuff, ofs);
    DirectImage(fp.fs.geo, fp.fs.fat, fp.sclust, fp.chain, old(fp.fs.logical), fp.fs.logical, fp.secs, fp.sect,
                old(fp.buf[..]), fp.buf[..], fp.img, k, cc, wbuff, ofs);
    fp.img := WithSectors(fp.img, k, wbuff[ofs..ofs + SS * cc]);
    res := FR_OK;
  }

  lemma WholeSectors(cc: nat)
    ensures SS * cc % SS == 0 && SS * cc / SS == cc
  {
  }

  lemma RunInSecs(secs: seq<nat>, k: nat, cc: nat)
    requires cc > 0 && InOrder(secs, k, cc)
    ensures forall s :: secs[k] <= s < secs[k] + cc ==> s in secs
  {
    forall s | secs[k] <= s < secs[k] + cc ensures s in secs { assert secs[k + (s - secs[k])] == s; }
  }

  lemma RunInData(fp: Fil, k: nat, cc: nat)
    requires fp.Core() && cc > 0 && InOrder(fp.secs, k, cc)
    ensures fp.fs.geo.database <= fp.secs[k] && fp.secs[k] + cc <= fp.fs.geo.volend <= |fp.fs.logical|
  {
    assert fp.secs[k] in fp.own && fp.secs[k + cc - 1] in fp.own;
  }

  // mem_cpy from the caller's data.
  method CopyIn(src: seq<Byte>, from: nat, dst: array<Byte>, to: nat, cnt: nat)
    requires from + cnt <= |src| && to + cnt <= dst.Length
    modifies dst
    ensures forall i :: 0 <= i < dst.Length ==>
              dst[i] == if to <= i < to + cnt then src[from + (i - to)] else old(dst[i])
  {
    for n := 0 to cnt
      invariant forall i :: 0 <= i < dst.Length ==>
                  dst[i] == if to <= i < to + n then src[from + (i - to)] else old(dst[i])
    {
      dst[to + n] := src[from + n];
    }
  }

  // -- Parts of a sector --

  // The buffer is set to take new bytes for the file's k-th sector: every other sector
  // is as the disk has it, and the buffer shows this one unless it lies past the end.
  ghost predicate Ready(fp: Fil, k: nat)
    reads fp`sclust, fp`objsize, fp`sect, fp`chain, fp`secs, fp`img, fp`own, fp.buf
    reads fp.fs`winsect, fp.fs`wflag, fp.fs`logical, fp.fs`fat, fp.fs`mirrored, fp.fs.disk`sectors, fp.fs.win
  {
    && fp.Base() && k < |fp.secs| && fp.sect == fp.secs[k]
    && OthersOk(fp.fs.logical, fp.secs, k, fp.img)
    && (fp.buf[..] == fp.img[k] || fp.objsize <= SS * k)
  }

  ghost predicate OthersOk(l: seq<Sector>, secs: seq<nat>, k: nat, img: seq<Sector>) {
    && |img| == |secs|
    && forall m {:trigger img[m]} :: 0 <= m < |img| ==> secs[m] < |l| && (m != k ==> img[m] == l[secs[m]])
  }

  lemma OthersAreOk(g: Geometry, f: seq<nat>, sclust: nat, chain: seq<nat>, l: seq<Sector>, secs: seq<nat>,
                    dirty: bool, sect: nat, b: seq<Byte>, img: seq<Sector>, k: nat)
    requires g.DataOk() && Shape(g, f, sclust, chain, secs) && |b| == SS
    requires ImgOk(l, secs, dirty, sect, b, img) && k < |secs| && (dirty ==> sect == secs[k])
    ensures OthersOk(l, secs, k, img)
  {
    forall m | 0 <= m < |img| ensures secs[m] < |l| && (m != k ==> img[m] == l[secs[m]]) {
      var held := img[m];
      if m != k && secs[m] == secs[k] { SecsDistinct(g, f, chain, secs, m, k); }
    }
  }

  // Makes the buffer ready for the sector at the cursor. Past the end of the file there
  // is nothing to read.
  method Fill(fp: Fil, sect: nat, ghost k: nat) returns (res: FResult)
    requires fp.Core() && !fp.dirty && k < |fp.secs| && sect == fp.secs[k] && fp.fptr == SS * k
    modifies fp`sect, fp.buf, fp.fs.disk`faults
    ensures fp.fs.Valid()
    ensures Elsewhere(fp)
    ensures res == FR_OK ==> Ready(fp, k)
    ensures res == FR_OK || res == FR_DISK_ERR
    ensures fp.fs.disk.faults >= old(fp.fs.disk.faults)
    ensures res == FR_DISK_ERR ==> fp.fs.disk.faults > old(fp.fs.disk.faults)
  {
    hide Around;
    BufferElsewhere(fp);
    assert fp.secs[k] in fp.own;
    if fp.sect != sect && fp.fptr < fp.objsize {
      var ok := ReadData(fp.fs, sect, 1, fp.buf, 0);
      if !ok { return FR_DISK_ERR; }
      assert fp.buf[..] == fp.fs.logical[sect];
    }
    fp.sect := sect;
    BufferElsewhere(fp);
    res := FR_OK;
    assert OthersOk(fp.fs.logical, fp.secs, k, fp.img) by {
      OthersAreOk(fp.fs.geo, fp.fs.fat, fp.sclust, fp.chain, fp.fs.logical, fp.secs, false, 0, fp.buf[..], fp.img, k);
    }
    assert fp.img[k] == fp.fs.logical[sect];
  }

  method FillAtCursor(fp: Fil) returns (res: FResult)
    requires fp.Core() && !fp.dirty && fp.fptr % SS == 0 && fp.At(fp.fptr / SS) && fp.fptr / SS < |fp.secs|
    modifies fp`sect, fp.buf, fp.fs.disk`faults
    ensures fp.fs.Valid()
    ensures Elsewhere(fp)
    ensures res == FR_OK ==> Ready(fp, fp.fptr / SS)
    ensures res == FR_OK || res == FR_DISK_ERR
    ensures fp.fs.disk.faults >= old(fp.fs.disk.faults)
    ensures res == FR_DISK_ERR ==> fp.fs.disk.faults > old(fp.fs.disk.faults)
  {
    hide Around;
    SectorAtCursor(fp, fp.fptr / SS);
    res := Fill(fp, Clst2Sect(fp.fs.geo, fp.clust) + fp.fptr / SS % fp.fs.geo.csize, fp.fptr / SS);
  }

  // Inside a sector the buffer already shows it.
  lemma ReadyInside(fp: Fil)
    requires fp.Core() && fp.Cursor() && fp.fptr % SS != 0
    ensures Ready(fp, fp.fptr / SS) && fp.At(fp.fptr / SS)
  {
    InsideSector(fp);
    BufferShows(fp, fp.fptr / SS);
    OthersOfBuffer(fp, fp.fptr / SS);
  }

  lemma OthersOfBuffer(fp: Fil, k: nat)
    requires fp.Core() && k < |fp.secs| && fp.sect == fp.secs[k]
    ensures OthersOk(fp.fs.logical, fp.secs, k, fp.img)
  {
    OthersAreOk(fp.fs.geo, fp.fs.fat, fp.sclust, fp.chain, fp.fs.logical, fp.secs, fp.dirty, fp.sect, fp.buf[..], fp.img, k);
  }

  lemma MergedImage(g: Geometry, f: seq<nat>, sclust: nat, chain: seq<nat>, l: seq<Sector>, secs: seq<nat>,
                    b: Sector, img: seq<Sector>, k: nat)
    requires g.DataOk() && Shape(g, f, sclust, chain, secs)
    requires OthersOk(l, secs, k, img) && k < |secs|
    ensures ImgOk(l, secs, true, secs[k], b, img[k := b])
  {
    forall m | 0 <= m < |img|
      ensures secs[m] < |l| && img[k := b][m] == if secs[m] == secs[k] then b else l[secs[m]]
    {
      var held := img[m];
      if m != k && secs[m] == secs[k] { SecsDistinct(g, f, chain, secs, m, k); }
    }
  }

  // Puts n bytes into the buffered sector and marks it dirty.
  method Merge(fp: Fil, wbuff: seq<Byte>, ofs: nat, n: nat, ghost k: nat)
    requires Ready(fp, k) && ofs + n <= |wbuff| && fp.fptr % SS + n <= SS
    modifies fp`dirty, fp`img, fp.buf
    ensures fp.Core() && fp.img == old(fp.img)[k := fp.buf[..]]
    ensures forall i :: 0 <= i < SS ==>
              fp.buf[i] == if fp.fptr % SS <= i < fp.fptr % SS + n then wbuff[ofs + (i - fp.fptr % SS)] else old(fp.buf[i])
  {
    CopyIn(wbuff, ofs, fp.buf, fp.fptr % SS, n);
    fp.dirty := true;
    ghost var b: Sector := fp.buf[..];
    MergedImage(fp.fs.geo, fp.fs.fat, fp.sclust, fp.chain, fp.fs.logical, fp.secs, b, fp.img, k);
    fp.img := fp.img[k := b];
    assert fp.sect in fp.own;
  }

  // -- The loop --

  // What one turn of the loop does to the file's bytes.
  twostate predicate Wrote(fp: Fil, new w: seq<Byte>)
    requires old(fp.fptr) <= old(fp.objsize) <= SS * |old(fp.img)| && fp.objsize <= SS * |fp.img|
    reads fp`fptr, fp`objsize, fp`img
  {
    && fp.fptr == old(fp.fptr) + |w|
    && fp.Data() == Splice(old(fp.Data()), old(fp.fptr), w)
  }

  // The cursor passes what was written, the file grows when it was at the end.
  method Advance(fp: Fil, n: nat)
    requires fp.fptr <= fp.objsize
    modifies fp`fptr, fp`objsize
    ensures fp.fptr == old(fp.fptr) + n
    ensures fp.objsize == if old(fp.fptr) + n <= old(fp.objsize) then old(fp.objsize) else old(fp.fptr) + n
  {
    fp.fptr := fp.fptr + n;
    fp.objsize := if fp.fptr > fp.objsize then fp.fptr else fp.objsize;
  }

  // Writes cc whole sectors at the cursor, the file's k-th sector.
  method WriteRun(fp: Fil, sect: nat, cc: nat, wbuff: seq<Byte>, ofs: nat, ghost k: nat) returns (res: FResult)
    requires fp.Core() && !fp.dirty && cc > 0 && InOrder(fp.secs, k, cc) && sect == fp.secs[k]
    requires fp.fptr == SS * k <= fp.objsize && fp.fptr + SS * cc <= 0xFFFF_FFFF && ofs + SS * cc <= |wbuff|
    modifies fp`img, fp`dirty, fp`fptr, fp`objsize, fp.buf, fp.fs.disk, fp.fs`logical
    ensures fp.fs.Valid()
    ensures Elsewhere(fp)
    ensures fp.fs.disk.faults >= old(fp.fs.disk.faults)
    ensures res == FR_OK || res == FR_DISK_ERR
    ensures res == FR_DISK_ERR ==> fp.fs.disk.faults > old(fp.fs.disk.faults)
    ensures res == FR_OK ==> fp.Core() && fp.fptr <= fp.objsize && Wrote(fp, wbuff[ofs..ofs + SS * cc])
  {
    hide FatFs.Valid, Shape, OwnOk, ImgOk, Splice, Content, WithSectors, Around;
    res := WriteDirect(fp, sect, cc, wbuff, ofs, k);
    if res == FR_OK {
      Advance(fp, SS * cc);
      WholeSpliced(old(fp.img), k, wbuff[ofs..ofs + SS * cc], old(fp.objsize), fp.objsize);
    }
  }

  // Writes whole sectors at the cursor, cut at the cluster's end.
  method WriteWhole(fp: Fil, wbuff: seq<Byte>, ofs: nat, btw: nat) returns (res: FResult, wcnt: nat)
    requires fp.Core() && !fp.dirty && fp.fptr % SS == 0 && fp.At(fp.fptr / SS) && fp.fptr / SS < |fp.secs|
    requires fp.fptr <= fp.objsize && fp.fptr + btw <= 0xFFFF_FFFF && SS <= btw && ofs + btw <= |wbuff|
    modifies fp`img, fp`dirty, fp`fptr, fp`objsize, fp.buf, fp.fs.disk, fp.fs`logical
    ensures fp.fs.Valid()
    ensures Elsewhere(fp)
    ensures fp.fs.disk.faults >= old(fp.fs.disk.faults)
    ensures res == FR_OK || res == FR_DISK_ERR
    ensures res == FR_DISK_ERR ==> fp.fs.disk.faults > old(fp.fs.disk.faults)
    ensures res == FR_OK ==> fp.Core() && fp.Cursor() && 0 < wcnt <= btw
    ensures res == FR_OK ==> Wrote(fp, wbuff[ofs..ofs + wcnt])
  {
    hide FatFs.Valid, Shape, OwnOk, ImgOk, Splice, Content, Fil.Data, InOrder, WithSectors, Around;
    ghost var k := fp.fptr / SS;
    var sect, cc := WholeRun(fp, btw);
    wcnt := SS * cc;
    res := WriteRun(fp, sect, cc, wbuff, ofs, k);
    if res == FR_OK {
      CursorAfterWhole(fp, k, cc);
    }
  }

  // Writes the rest of the buffered sector, or less.
  method WritePart(fp: Fil, wbuff: seq<Byte>, ofs: nat, btw: nat) returns (wcnt: nat)
    requires Ready(fp, fp.fptr / SS) && fp.At(fp.fptr / SS)
    requires fp.fptr <= fp.objsize && fp.fptr + btw <= 0xFFFF_FFFF && 0 < btw && ofs + btw <= |wbuff|
    modifies fp`img, fp`dirty, fp`fptr, fp`objsize, fp.buf
    ensures fp.Core() && fp.Cursor() && 0 < wcnt <= btw
    ensures Wrote(fp, wbuff[ofs..ofs + wcnt])
  {
    hide FatFs.Valid, Shape, OwnOk, ImgOk, Splice, Content;
    ghost var k := fp.fptr / SS;
    wcnt := Min(SS - fp.fptr % SS, btw);
    Merge(fp, wbuff, ofs, wcnt, k);
    Advance(fp, wcnt);
    assert Wrote(fp, wbuff[ofs..ofs + wcnt]) by {
      PartialSpliced(old(fp.img), fp.buf[..], old(fp.fptr), wbuff[ofs..ofs + wcnt], old(fp.objsize), fp.objsize);
    }
    CursorAfterPart(fp, old(fp.fptr));
  }

  lemma ContentOfPrefix(img: seq<Sector>, img': seq<Sector>, n: nat)
    requires img <= img' && n <= SS * |img|
    ensures Content(img', n) == Content(img, n)
  {
  }

  // Whole sectors, or part of one, at a sector boundary with nothing pending.
  method WriteClean(fp: Fil, wbuff: seq<Byte>, ofs: nat, btw: nat) returns (res: FResult, wcnt: nat)
    requires fp.Core() && !fp.dirty && fp.fptr % SS == 0 && fp.At(fp.fptr / SS) && fp.fptr / SS < |fp.secs|
    requires fp.fptr <= fp.objsize && fp.fptr + btw <= 0xFFFF_FFFF && 0 < btw && ofs + btw <= |wbuff|
    modifies fp`img, fp`dirty, fp`sect, fp`fptr, fp`objsize, fp.buf, fp.fs.disk, fp.fs`logical
    ensures fp.fs.Valid()
    ensures Elsewhere(fp)
    ensures fp.fs.disk.faults >= old(fp.fs.disk.faults)
    ensures res == FR_OK || res == FR_DISK_ERR
    ensures res == FR_DISK_ERR ==> fp.fs.disk.faults > old(fp.fs.disk.faults)
    ensures res == FR_OK ==> fp.Core() && fp.Cursor() && 0 < wcnt <= btw
    ensures res == FR_OK ==> Wrote(fp, wbuff[ofs..ofs + wcnt])
  {
    hide FatFs.Valid, Shape, OwnOk, ImgOk, Splice, Content, Fil.Data, OthersOk, Around;
    wcnt := 0;
    if btw / SS > 0 {
      res, wcnt := WriteWhole(fp, wbuff, ofs, btw);
    } else {
      res := FillAtCursor(fp);
      if res != FR_OK { return; }
      wcnt := WritePart(fp, wbuff, ofs, btw);
    }
  }

  // The turn of the loop that starts at a sector boundary, once clust is settled.
  method WriteAtBoundary(fp: Fil, wbuff: seq<Byte>, ofs: nat, btw: nat) returns (res: FResult, wcnt: nat)
    requires fp.Core() && fp.fptr % SS == 0 && fp.At(fp.fptr / SS) && fp.fptr / SS < |fp.secs|
    requires fp.fptr <= fp.objsize && fp.fptr + btw <= 0xFFFF_FFFF && 0 < btw && ofs + btw <= |wbuff|
    modifies fp`img, fp`dirty, fp`sect, fp`fptr, fp`objsize, fp.buf, fp.fs.disk, fp.fs`logical
    ensures fp.fs.Valid()
    ensures Elsewhere(fp)
    ensures fp.fs.disk.faults >= old(fp.fs.disk.faults)
    ensures res == FR_OK || res == FR_DISK_ERR
    ensures res == FR_DISK_ERR ==> fp.fs.disk.faults > old(fp.fs.disk.faults)
    ensures res == FR_OK ==> fp.Core() && fp.Cursor() && 0 < wcnt <= btw
    ensures res == FR_OK ==> Wrote(fp, wbuff[ofs..ofs + wcnt])
  {
    hide FatFs.Valid, Shape, OwnOk, ImgOk, Splice, Content, Fil.Data, OthersOk, Around;
    wcnt := 0;
    res := Flush(fp);
    if res != FR_OK { return; }
    assert fp.Data() == old(fp.Data()) && fp.fptr == old(fp.fptr);
    ghost var mid := fp.Place();
    res, wcnt := WriteClean(fp, wbuff, ofs, btw);
    AroundTwice(fp.fs.geo, old(fp.Place()), mid, fp.Place());
  }

  // The turn of the loop that starts inside a sector.
  method WriteInside(fp: Fil, wbuff: seq<Byte>, ofs: nat, btw: nat) returns (wcnt: nat)
    requires fp.Core() && fp.Cursor() && fp.fptr % SS != 0
    requires fp.fptr + btw <= 0xFFFF_FFFF && 0 < btw && ofs + btw <= |wbuff|
    modifies fp`img, fp`dirty, fp`fptr, fp`objsize, fp.buf
    ensures WriteOutcome(fp, FR_OK) && fp.Cursor() && 0 < wcnt <= btw && Wrote(fp, wbuff[ofs..ofs + wcnt])
  {
    hide FatFs.Valid, Shape, OwnOk, ImgOk, Splice, Content, StretchedTo, Around;
    ReadyInside(fp);
    wcnt := WritePart(fp, wbuff, ofs, btw);
    SameStretched(fp);
    SameExtent(fp);
  }

  // One turn of f_write's loop, the cursor's advance included. `full` tells that the
  // volume has no free cluster for it.
  method WriteStep(fp: Fil, wbuff: seq<Byte>, ofs: nat, btw: nat) returns (res: FResult, full: bool, wcnt: nat)
    requires fp.Core() && fp.Cursor()
    requires fp.fptr + btw <= 0xFFFF_FFFF && 0 < btw && ofs + btw <= |wbuff|
    modifies fp`clust, fp`sclust, fp`chain, fp`secs, fp`img, fp`dirty, fp`sect, fp`fptr, fp`objsize, fp.buf
    modifies fp.fs, fp.fs.disk, fp.fs.win
    ensures WriteOutcome(fp, res)
    ensures res == FR_OK ==> fp.Cursor() && wcnt <= btw && Wrote(fp, wbuff[ofs..ofs + wcnt])
    ensures res == FR_OK && !full ==> 0 < wcnt
    ensures res == FR_OK && full ==>
              wcnt == 0 && fp.chain == old(fp.chain) && (old(FreeOk(fp.fs.freeClst, fp.fs.fat)) ==> NoneFree(fp.fs.fat))
  {
    hide FatFs.Valid, Shape, OwnOk, ImgOk, Splice, Content, StretchedTo, NoneFree, Around, Fil.Core;
    SizeFits(fp);
    full, wcnt := false, 0;
    if fp.fptr % SS == 0 {
      res, full := AtSectorForWrite(fp);
      if res != FR_OK { return; }
      SizeFits(fp);
      assert fp.Data() == old(fp.Data()) by { ContentOfPrefix(old(fp.img), fp.img, fp.objsize); }
      if full {
        SpliceNothing(fp.Data(), fp.fptr, wbuff[ofs..ofs + 0]);
        return;
      }
      ghost var mid := fp.Place();
      res, wcnt := WriteAtBoundary(fp, wbuff, ofs, btw);
      AroundTwice(fp.fs.geo, old(fp.Place()), mid, fp.Place());
    } else {
      res := FR_OK;
      wcnt := WriteInside(fp, wbuff, ofs, btw);
    }
  }

  lemma SpliceNothing(d: seq<Byte>, p: nat, w: seq<Byte>)
    requires p <= |d| && w == []
    ensures Splice(d, p, w) == d
  {
  }

  twostate lemma SameStretched(fp: Fil)
    requires fp.chain == old(fp.chain) && fp.fs.fat == old(fp.fs.fat) && fp.fs.freeClst == old(fp.fs.freeClst)
    ensures Stretched(fp)
  {
  }

  lemma FreeAllAlong(c: seq<nat>, f: seq<nat>, n: nat, c': seq<nat>, f': seq<nat>, n': nat)
    requires StretchedTo(c, f, n, c', f', n')
    ensures FreeOk(n, f) ==> FreeOk(n', f')
  {
  }

  lemma SpliceMore(d: seq<Byte>, p: nat, w: seq<Byte>, n: nat, m: nat)
    requires p <= |d| && n + m <= |w|
    ensures Splice(Splice(d, p, w[..n]), p + n, w[n..n + m]) == Splice(d, p, w[..n + m])
  {
    SpliceTwice(d, p, w[..n], w[n..n + m]);
    assert w[..n] + w[n..n + m] == w[..n + m];
  }

  // f_write's loop: stops early, without an error, when no cluster is free.
  method WriteLoop(fp: Fil, wbuff: seq<Byte>, count: nat) returns (res: FResult, bw: nat)
    requires fp.Core() && fp.Cursor() && count <= |wbuff| && fp.fptr + count <= 0xFFFF_FFFF
    modifies fp`clust, fp`sclust, fp`chain, fp`secs, fp`img, fp`dirty, fp`sect, fp`fptr, fp`objsize, fp.buf
    modifies fp.fs, fp.fs.disk, fp.fs.win
    ensures WriteOutcome(fp, res)
    ensures bw <= count
    ensures res == FR_OK ==> fp.Cursor() && Wrote(fp, wbuff[..bw]) && (bw == 0 ==> fp.chain == old(fp.chain))
    ensures res == FR_OK && bw < count && old(FreeOk(fp.fs.freeClst, fp.fs.fat)) ==> NoneFree(fp.fs.fat)
  {
    hide FatFs.Valid, Shape, OwnOk, ImgOk, Splice, Content, StretchedTo, NoneFree, Fil.Data, Fil.Place, Fil.Core, FreeOk, Around;
    bw, res := 0, FR_OK;
    SizeFits(fp);
    var btw, full := count, false;
    SameStretched(fp);
    SameExtent(fp);
    ghost var p, d := fp.fptr, fp.Data();
    assert Splice(d, p, wbuff[..0]) == d by { SpliceNothing(d, p, wbuff[..0]); }
    while btw > 0 && !full
      invariant fp.objsize <= SS * |fp.img| && fp.fs.geo.csize > 0
      invariant res == FR_OK && WriteOutcome(fp, FR_OK) && fp.Cursor()
      invariant bw + btw == count && fp.fptr == p + bw
      invariant p <= |d| && fp.Data() == Splice(d, p, wbuff[..bw])
      invariant full && old(FreeOk(fp.fs.freeClst, fp.fs.fat)) ==> NoneFree(fp.fs.fat)
      invariant bw == 0 ==> fp.chain == old(fp.chain)
      decreases !full, btw
    {
      var wcnt;
      ghost var c1, f1, n1, mid := fp.chain, fp.fs.fat, fp.fs.freeClst, fp.Place();
      res, full, wcnt := WriteStep(fp, wbuff, bw, btw);
      AroundTwice(fp.fs.geo, old(fp.Place()), mid, fp.Place());
      if res != FR_OK { return; }
      SizeFits(fp);
      assert Stretched(fp) by {
        StretchedTwice(old(fp.chain), old(fp.fs.fat), old(fp.fs.freeClst), c1, f1, n1, fp.chain, fp.fs.fat, fp.fs.freeClst);
      }
      FreeAllAlong(old(fp.chain), old(fp.fs.fat), old(fp.fs.freeClst), c1, f1, n1);
      SpliceMore(d, p, wbuff, bw, wcnt);
      btw, bw := btw - wcnt, bw + wcnt;
    }
  }

  // -- The other chains --

  // The clusters a chain gained were free.
  ghost predicate TookFree(f: seq<nat>, chain: seq<nat>, chain': seq<nat>) {
    forall i :: |chain| <= i < |chain'| ==> chain'[i] < |f| && f[chain'[i]] == 0
  }

  lemma GainedAreFree(chain: seq<nat>, f: seq<nat>, n: nat, chain': seq<nat>, f': seq<nat>, n': nat)
    requires StretchedTo(chain, f, n, chain', f', n') && (chain' != [] ==> IsChain(f', chain'))
    ensures TookFree(f, chain, chain')
  {
    forall i | |chain| <= i < |chain'| ensures chain'[i] < |f| && f[chain'[i]] == 0 {
      forall j | 0 <= j < |chain| ensures chain[j] != chain'[i] {
        ChainDistinct(f', chain', j, i);
      }
      assert chain'[i] in chain';
    }
  }

  // A chain that grows where the clusters behind its end are free stays in one piece there.
  lemma {:induction false} GrowsOn(f: seq<nat>, chain: seq<nat>, chain': seq<nat>, i: nat)
    requires InPlace(f, chain, chain') && chain <= chain' && chain != [] && IsChain(f, chain)
    requires |chain| <= i < |chain'| && LastOf(chain) + (i - |chain|) + 1 < |f|
    requires forall c :: LastOf(chain) < c <= LastOf(chain) + (i - |chain|) + 1 ==> f[c] == 0
    ensures forall j :: |chain| <= j <= i ==> chain'[j] == LastOf(chain) + (j - |chain|) + 1
  {
    if i > |chain| { GrowsOn(f, chain, chain', i - 1); }
    var b := LastOf(chain) + (i - |chain|) + 1;
    assert TakesNext(f, chain'[..i], chain'[i]);
    forall j | 0 <= j < i ensures chain'[j] != b {
      if j < |chain| { AllocatedInChain(f, chain, j); }
    }
  }

  function AsSet(chain: seq<nat>): set<seq<nat>> {
    if chain == [] then {} else {chain}
  }

  // A FAT that is a set of chains with this one among them stays one, in which only this
  // one differs.
  ghost predicate ChainsStay(f: seq<nat>, chain: seq<nat>, f': seq<nat>, chain': seq<nat>) {
    forall cs {:trigger Chains(f, cs)} :: Chains(f, cs) && AsSet(chain) <= cs ==> Chains(f', cs - AsSet(chain) + AsSet(chain'))
  }

  lemma StretchedKeepsChains(cs: set<seq<nat>>, chain: seq<nat>, f: seq<nat>, n: nat, chain': seq<nat>, f': seq<nat>, n': nat)
    requires StretchedTo(chain, f, n, chain', f', n') && (chain' != [] ==> IsChain(f', chain'))
    requires Chains(f, cs) && AsSet(chain) <= cs
    ensures Chains(f', cs - AsSet(chain) + AsSet(chain'))
  {
    hide Chains;
    if chain' == [] {
      assert f' == f;
      assert cs - {} + {} == cs;
    } else {
      forall c | c in chain' ensures 2 <= c < |f| { var i :| 0 <= i < |chain'| && chain'[i] == c; AllocatedInChain(f', chain', i); }
      if chain == [] {
        assert cs - {} + {chain'} == cs + {chain'};
        AddChain(f, f', cs, chain');
      } else {
        PrefixMember(chain, chain');
        ReplaceChain(f, f', cs, chain, chain');
      }
    }
  }

  twostate lemma GrownChains(fp: Fil)
    requires fp.Core() && Stretched(fp)
    ensures TookFree(old(fp.fs.fat), old(fp.chain), fp.chain)
    ensures ChainsStay(old(fp.fs.fat), old(fp.chain), fp.fs.fat, fp.chain)
  {
    hide FatFs.Valid, OwnOk, ImgOk, Chains, StretchedTo, TookFree;
    GainedAreFree(old(fp.chain), old(fp.fs.fat), old(fp.fs.freeClst), fp.chain, fp.fs.fat, fp.fs.freeClst);
    forall cs | Chains(old(fp.fs.fat), cs) && AsSet(old(fp.chain)) <= cs
      ensures Chains(fp.fs.fat, cs - AsSet(old(fp.chain)) + AsSet(fp.chain))
    {
      StretchedKeepsChains(cs, old(fp.chain), old(fp.fs.fat), old(fp.fs.freeClst), fp.chain, fp.fs.fat, fp.fs.freeClst);
    }
  }

  // A refused call: the file, its chain and the FAT are as they were.
  twostate predicate Idle(fp: Fil)
    reads fp, fp.fs
  {
    && fp.fs.fat == old(fp.fs.fat) && fp.chain == old(fp.chain) && fp.secs == old(fp.secs) && fp.sect == old(fp.sect)
    && fp.objsize == old(fp.objsize) && fp.fptr == old(fp.fptr)
  }

  // f_write. On success the file's bytes are the old ones with the first bw bytes of
  // the caller's data laid over them at the old cursor; fewer than asked only when the
  // size limit cuts the request or no cluster is free.
  method Write(fp: Fil, wbuff: seq<Byte>) returns (res: FResult, bw: nat)
    requires fp.Valid() && |wbuff| <= 0xFFFF_FFFF
    modifies fp`clust, fp`sclust, fp`chain, fp`secs, fp`img, fp`dirty, fp`sect, fp`fptr, fp`objsize, fp`modified, fp`err
    modifies fp.buf, fp.fs, fp.fs.disk, fp.fs.win
    ensures Elsewhere(fp)
    ensures fp.Valid() && bw <= |wbuff|
    ensures old(fp.err) != FR_OK ==> res == old(fp.err) && bw == 0
    ensures old(fp.err) == FR_OK && !old(fp.writable) ==>
              res == FR_DENIED && bw == 0 && fp.err == FR_OK && fp.Data() == old(fp.Data()) && Idle(fp)
    ensures old(fp.err) == FR_OK && old(fp.writable) ==> res == fp.err && WriteOutcome(fp, res)
    ensures res == FR_OK ==> old(fp.Core()) && Wrote(fp, wbuff[..bw]) && fp.modified && (bw == 0 ==> fp.chain == old(fp.chain))
    ensures res != FR_OK ==> fp.modified == old(fp.modified)
    ensures res == FR_OK ==> TookFree(old(fp.fs.fat), old(fp.chain), fp.chain)
    ensures res == FR_OK ==> ChainsStay(old(fp.fs.fat), old(fp.chain), fp.fs.fat, fp.chain)
    ensures res == FR_OK && bw < |wbuff| && bw < 0xFFFF_FFFF - old(fp.fptr) && old(FreeOk(fp.fs.freeClst, fp.fs.fat)) ==>
              NoneFree(fp.fs.fat)
  {
    hide FatFs.Valid, Shape, OwnOk, ImgOk, Splice, Content, StretchedTo, NoneFree, FreeOk, Around, TookFree, ChainsStay;
    bw := 0;
    SameExtent(fp);
    if fp.err != FR_OK { return fp.err, 0; }
    if !fp.writable { return FR_DENIED, 0; }
    var btw := Clip(fp.fptr, |wbuff|);
    res, bw := WriteLoop(fp, wbuff, btw);
    if res != FR_OK {
      fp.err := res;
      return;
    }
    fp.modified := true;
    GrownChains(fp);
  }

  // (DWORD)(fptr + btw) < (DWORD)fptr: the file may not grow past 4 GiB - 1.
  function Clip(fptr: nat, btw: nat): (n: nat)
    requires fptr <= 0xFFFF_FFFF && btw <= 0xFFFF_FFFF
    ensures n == if fptr + btw <= 0xFFFF_FFFF then btw else 0xFFFF_FFFF - fptr
  {
    if (fptr + btw) % 0x1_0000_0000 < fptr then 0xFFFF_FFFF - fptr else btw
  }
}
