/** The FAT driver's cluster operations on the volume (thirdparty/fatfs/ff.c,
    create_chain, remove_chain, f_getfree). */
module ChainOps {
  import opened Disk
  import opened FatLayout
  import opened Window
  import opened FatEntry
  import opened Chain

  // The end-of-chain mark as it reads back.
  function Eoc(fs: FatFs): nat {
    Cut(fs.geo.fatType, DWORD_MAX)
  }

  // create_chain's effect on the FAT.
  function Grown(f: seq<nat>, clst: nat, ncl: nat, eoc: nat): seq<nat>
    requires ncl < |f| && clst < |f|
  {
    if clst == 0 then f[ncl := eoc] else f[ncl := eoc][clst := ncl]
  }

  // ncl is the first free cluster behind `start`, the numbers going round from the last
  // one to 2.
  ghost predicate FirstBehind(f: seq<nat>, start: nat, ncl: nat) {
    && 2 <= ncl < |f| && f[ncl] == 0
    && if start < ncl then forall c :: start < c < ncl ==> f[c] != 0
       else forall c :: 2 <= c < ncl || start < c < |f| ==> f[c] != 0
  }

  // The cluster behind clst.
  function Behind(f: seq<nat>, clst: nat): nat {
    if clst + 1 < |f| then clst + 1 else 2
  }

  // Which free cluster create_chain takes: the one behind clst when that is free, else the
  // first behind the one taken last, if there is one; else behind clst, or from the start.
  ghost predicate Takes(f: seq<nat>, last: nat, clst: nat, ncl: nat) {
    && 2 <= ncl < |f|
    && if clst == 0 then FirstBehind(f, if 1 <= last < |f| then last else 1, ncl)
       else if Behind(f, clst) < |f| && f[Behind(f, clst)] == 0 then ncl == Behind(f, clst)
       else FirstBehind(f, if 2 <= last < |f| then last else clst, ncl)
  }

  // Searches cyclically from the cluster after scl. 0: no free cluster, 1: internal
  // error, 0xFFFFFFFF: disk error.
  method FindFree(fs: FatFs, scl: nat) returns (ncl: nat)
    requires fs.Valid() && 1 <= scl < |fs.fat|
    modifies fs.disk, fs.win, fs`wflag, fs`winsect, fs`logical, fs`mirrored
    ensures fs.Valid() && Kept(fs) && fs.fat == old(fs.fat)
    ensures ncl == DWORD_MAX || ncl < |fs.fat|
    ensures ncl == DWORD_MAX ==> fs.disk.faults > old(fs.disk.faults)
    ensures ncl == 0 ==> forall c :: 2 <= c < |fs.fat| ==> fs.fat[c] != 0
    ensures ncl == 1 ==> exists c :: 2 <= c < |fs.fat| && fs.fat[c] == 1
    ensures 2 <= ncl < |fs.fat| ==> FirstBehind(fs.fat, scl, ncl)
  {
    ncl := scl;
    ghost var wrapped := false;
    while true
      invariant fs.Valid() && Kept(fs) && fs.fat == old(fs.fat)
      invariant if wrapped then 2 <= ncl < scl else scl <= ncl < |fs.fat|
      invariant wrapped ==> forall c :: scl < c < |fs.fat| || 2 <= c <= ncl ==> fs.fat[c] != 0
      invariant !wrapped ==> forall c :: scl < c <= ncl ==> fs.fat[c] != 0
      decreases !wrapped, |fs.fat| - ncl
    {
      ncl := ncl + 1;
      if ncl >= fs.geo.nFatent {
        ncl := 2;
        wrapped := true;
        if ncl > scl { return 0; }
      }
      var cs := GetFat(fs, ncl);
      if cs == 0 { return; }
      if cs == 1 || cs == DWORD_MAX { return cs; }
      if ncl == scl { return 0; }
    }
  }

  lemma SmallIsNotCut(fs: FatFs, c: nat)
    requires fs.geo.Ok() && c < fs.geo.nFatent
    ensures Cut(fs.geo.fatType, c) == c
  {
  }

  lemma EocEndsChains(fs: FatFs)
    requires fs.geo.Ok()
    ensures Eoc(fs) >= fs.geo.nFatent
  {
    EocIsBeyondAllClusters(fs.geo);
  }

  // Growing by a free cluster costs one free cluster.
  lemma GrownCounts(f: seq<nat>, clst: nat, ncl: nat, eoc: nat)
    requires 2 <= ncl < |f| && f[ncl] == 0 && eoc != 0
    requires clst == 0 || (2 <= clst < |f| && f[clst] != 0)
    ensures CountFree(Grown(f, clst, ncl, eoc)) + 1 == CountFree(f)
  {
    CountUpdate(f, ncl, eoc);
    if clst != 0 {
      CountUpdate(f[ncl := eoc], clst, ncl);
    }
  }

  // Marks ncl as the new end of the chain and links it from clst.
  method LinkCluster(fs: FatFs, clst: nat, ncl: nat) returns (res: FResult)
    requires fs.Valid() && 2 <= ncl < |fs.fat| && fs.fat[ncl] == 0
    requires clst == 0 || (2 <= clst < |fs.fat| && fs.fat[clst] != 0)
    modifies fs.disk, fs.win, fs`wflag, fs`winsect, fs`logical, fs`fat, fs`mirrored
    ensures fs.Valid() && Kept(fs)
    ensures res == FR_OK || res == FR_DISK_ERR
    ensures res == FR_OK ==> fs.fat == Grown(old(fs.fat), clst, ncl, Eoc(fs)) && fs.geo.InFat(fs.winsect)
    ensures res == FR_DISK_ERR ==> fs.disk.faults > old(fs.disk.faults)
    ensures res == FR_DISK_ERR ==> forall c :: 0 <= c < |fs.fat| && c != clst && c != ncl ==> fs.fat[c] == old(fs.fat)[c]
  {
    res := PutFat(fs, ncl, DWORD_MAX);
    if res == FR_OK && clst != 0 {
      SmallIsNotCut(fs, ncl);
      res := PutFat(fs, clst, ncl);
    }
  }

  // clst already has a successor.
  predicate HasNext(f: seq<nat>, clst: nat) {
    clst != 0 && 2 <= clst < |f| && 2 <= f[clst] < |f|
  }

  // What create_chain(clst) = ncl did, from FAT f to FAT f'.
  ghost predicate Created(f: seq<nat>, f': seq<nat>, clst: nat, ncl: nat, eoc: nat)
    requires |f'| == |f|
  {
    && (HasNext(f, clst) ==> ncl == f[clst] && f' == f)
    && (!HasNext(f, clst) && ncl <= 1 ==> f' == f)
    && (!HasNext(f, clst) && ncl == 1 ==>
          (clst != 0 && !(2 <= clst < |f| && f[clst] >= 2)) || exists c :: 2 <= c < |f| && f[c] == 1)
    && (!HasNext(f, clst) && ncl >= 2 ==>
          && (clst == 0 || (2 <= clst < |f| && f[clst] >= |f|))
          && ncl < |f| && f[ncl] == 0
          && f' == Grown(f, clst, ncl, eoc))
  }

  lemma EndIsLast(f: seq<nat>, s: seq<nat>, clst: nat)
    requires IsChain(f, s) && clst in s && clst < |f| <= f[clst]
    ensures s[|s| - 1] == clst
  {
    var i :| 0 <= i < |s| && s[i] == clst;
    assert f[s[i]] >= |f|;
  }

  lemma InChains(f: seq<nat>, cs: set<seq<nat>>, s: seq<nat>)
    requires Chains(f, cs) && s in cs
    ensures IsChain(f, s)
  {
  }

  // A create_chain that took a cluster is one of the operations on the set of chains.
  lemma CreatedIsApply(f: seq<nat>, f': seq<nat>, cs: set<seq<nat>>, clst: nat, ncl: nat, eoc: nat)
    requires Chains(f, cs) && |f'| == |f| && eoc >= |f|
    requires Created(f, f', clst, ncl, eoc) && !HasNext(f, clst) && ncl >= 2
    ensures clst == 0 ==> Enabled(f, cs, New(ncl)) && f' == Apply(f, cs, New(ncl), eoc)
    ensures clst != 0 ==> exists s :: s in cs && s[|s| - 1] == clst && Enabled(f, cs, Append(s, ncl))
                            && f' == Apply(f, cs, Append(s, ncl), eoc)
  {
    hide IsChain, AllChains, Disjoint;
    if clst != 0 {
      assert InSome(cs, clst);
      var s :| s in cs && clst in s;
      InChains(f, cs, s);
      EndIsLast(f, s, clst);
      assert s[|s| - 1] == clst && f' == Apply(f, cs, Append(s, ncl), eoc);
    }
  }

  // Where the search for a new cluster starts, and the cluster itself when the one
  // after clst is free.
  method Candidate(fs: FatFs, clst: nat) returns (scl: nat, ncl: nat)
    requires fs.Valid() && (clst == 0 || 2 <= clst < |fs.fat|)
    modifies fs.disk, fs.win, fs`wflag, fs`winsect, fs`logical, fs`mirrored
    ensures fs.Valid() && Kept(fs) && fs.fat == old(fs.fat)
    ensures 1 <= scl < |fs.fat| && (ncl == DWORD_MAX || ncl < |fs.fat|)
    ensures ncl == DWORD_MAX ==> fs.disk.faults > old(fs.disk.faults)
    ensures ncl == 1 ==> exists c :: 2 <= c < |fs.fat| && fs.fat[c] == 1
    ensures 2 <= ncl < |fs.fat| ==> Takes(fs.fat, fs.lastClst, clst, ncl)
    ensures ncl == 0 ==> forall c :: FirstBehind(fs.fat, scl, c) ==> Takes(fs.fat, fs.lastClst, clst, c)
  {
    ncl := 0;
    if clst == 0 {
      scl := fs.lastClst;
      if scl == 0 || scl >= fs.geo.nFatent { scl := 1; }
    } else {
      scl := clst;
      var next := if scl + 1 >= fs.geo.nFatent then 2 else scl + 1;
      var cs := GetFat(fs, next);
      if cs == 1 || cs == DWORD_MAX {
        ncl := cs;
      } else if cs != 0 {
        if 2 <= fs.lastClst < fs.geo.nFatent { scl := fs.lastClst; }
      } else {
        ncl := next;
      }
    }
  }

  method Search(fs: FatFs, clst: nat) returns (ncl: nat)
    requires fs.Valid() && (clst == 0 || 2 <= clst < |fs.fat|)
    modifies fs.disk, fs.win, fs`wflag, fs`winsect, fs`logical, fs`mirrored
    ensures fs.Valid() && Kept(fs) && fs.fat == old(fs.fat)
    ensures ncl == DWORD_MAX || ncl < |fs.fat|
    ensures ncl == DWORD_MAX ==> fs.disk.faults > old(fs.disk.faults)
    ensures ncl == 0 ==> forall c :: 2 <= c < |fs.fat| ==> fs.fat[c] != 0
    ensures ncl == 1 ==> exists c :: 2 <= c < |fs.fat| && fs.fat[c] == 1
    ensures 2 <= ncl < |fs.fat| ==> fs.fat[ncl] == 0 && Takes(fs.fat, fs.lastClst, clst, ncl)
  {
    var scl;
    scl, ncl := Candidate(fs, clst);
    if ncl == 0 {
      ncl := FindFree(fs, scl);
    }
  }

  // 0: no free cluster, 1: internal error, 0xFFFFFFFF: disk error, otherwise the cluster
  // that follows clst (or starts a new chain when clst is 0).
  method CreateChain(fs: FatFs, clst: nat) returns (ncl: nat)
    requires fs.Valid()
    modifies fs.disk, fs.win, fs
    ensures fs.Valid() && Kept(fs)
    ensures ncl == DWORD_MAX || ncl < |fs.fat|
    ensures ncl == DWORD_MAX ==> fs.disk.faults > old(fs.disk.faults)
    ensures ncl == DWORD_MAX ==> forall c :: 2 <= c < |fs.fat| && c != clst && old(fs.fat)[c] != 0 ==> fs.fat[c] == old(fs.fat)[c]
    ensures ncl != DWORD_MAX ==> Created(old(fs.fat), fs.fat, clst, ncl, Eoc(fs))
    ensures ncl != DWORD_MAX && old(FreeOk(fs.freeClst, fs.fat)) ==> FreeOk(fs.freeClst, fs.fat)
    ensures ncl == 0 && old(FreeOk(fs.freeClst, fs.fat)) ==> forall c :: 2 <= c < |fs.fat| ==> fs.fat[c] != 0
    ensures 2 <= ncl < |fs.fat| && !HasNext(old(fs.fat), clst) ==> Takes(old(fs.fat), old(fs.lastClst), clst, ncl)
    ensures 2 <= ncl < |fs.fat| && !HasNext(old(fs.fat), clst) ==> fs.lastClst == ncl && fs.fsiFlag
    ensures !(2 <= ncl < |fs.fat| && !HasNext(old(fs.fat), clst)) ==>
              fs.lastClst == old(fs.lastClst) && fs.freeClst == old(fs.freeClst) && fs.fsiFlag == old(fs.fsiFlag)
  {
    if clst != 0 {
      var cs := GetFat(fs, clst);
      if cs < 2 { return 1; }
      if cs == DWORD_MAX { return cs; }
      if cs < fs.geo.nFatent { return cs; }
    }
    ncl := Extend(fs, clst);
  }

  // create_chain once clst is known to end its chain (or is 0).
  method Extend(fs: FatFs, clst: nat) returns (ncl: nat)
    requires fs.Valid() && (clst == 0 || (2 <= clst < |fs.fat| && fs.fat[clst] >= |fs.fat|))
    modifies fs.disk, fs.win, fs
    ensures fs.Valid() && Kept(fs)
    ensures ncl == DWORD_MAX || ncl < |fs.fat|
    ensures ncl == DWORD_MAX ==> fs.disk.faults > old(fs.disk.faults)
    ensures ncl == DWORD_MAX ==> forall c :: 2 <= c < |fs.fat| && c != clst && old(fs.fat)[c] != 0 ==> fs.fat[c] == old(fs.fat)[c]
    ensures ncl != DWORD_MAX ==> Created(old(fs.fat), fs.fat, clst, ncl, Eoc(fs))
    ensures ncl != DWORD_MAX && old(FreeOk(fs.freeClst, fs.fat)) ==> FreeOk(fs.freeClst, fs.fat)
    ensures ncl == 0 && old(FreeOk(fs.freeClst, fs.fat)) ==> forall c :: 2 <= c < |fs.fat| ==> fs.fat[c] != 0
    ensures 2 <= ncl < |fs.fat| && !HasNext(old(fs.fat), clst) ==> Takes(old(fs.fat), old(fs.lastClst), clst, ncl)
    ensures 2 <= ncl < |fs.fat| && !HasNext(old(fs.fat), clst) ==> fs.lastClst == ncl && fs.fsiFlag
    ensures !(2 <= ncl < |fs.fat| && !HasNext(old(fs.fat), clst)) ==>
              fs.lastClst == old(fs.lastClst) && fs.freeClst == old(fs.freeClst) && fs.fsiFlag == old(fs.fsiFlag)
  {
    if fs.freeClst == 0 {
      CountZero(fs.fat);
      return 0;
    }
    ncl := Search(fs, clst);
    if 2 <= ncl < fs.geo.nFatent {
      ncl := Commit(fs, clst, ncl);
    }
  }

  // The last part of create_chain: link the cluster and update the allocation hints.
  method Commit(fs: FatFs, clst: nat, free: nat) returns (ncl: nat)
    requires fs.Valid() && 2 <= free < |fs.fat| && fs.fat[free] == 0 && fs.freeClst != 0
    requires clst == 0 || (2 <= clst < |fs.fat| && fs.fat[clst] >= |fs.fat|)
    modifies fs.disk, fs.win, fs
    ensures fs.Valid() && Kept(fs)
    ensures ncl == free || ncl == DWORD_MAX
    ensures ncl == DWORD_MAX ==> fs.disk.faults > old(fs.disk.faults)
    ensures ncl == DWORD_MAX ==> forall c :: 2 <= c < |fs.fat| && c != clst && c != free ==> fs.fat[c] == old(fs.fat)[c]
    ensures ncl == free ==> fs.fat == Grown(old(fs.fat), clst, ncl, Eoc(fs))
    ensures ncl == free && old(FreeOk(fs.freeClst, fs.fat)) ==> FreeOk(fs.freeClst, fs.fat)
    ensures ncl == free ==> fs.lastClst == ncl && fs.fsiFlag
    ensures ncl != free ==> fs.lastClst == old(fs.lastClst) && fs.freeClst == old(fs.freeClst) && fs.fsiFlag == old(fs.fsiFlag)
  {
    var res := LinkCluster(fs, clst, free);
    if res == FR_OK {
      ncl := free;
      EocEndsChains(fs);
      GrownCounts(old(fs.fat), clst, free, Eoc(fs));
      fs.lastClst := ncl;
      if fs.freeClst <= fs.geo.nFatent - 2 { fs.freeClst := fs.freeClst - 1; }
      fs.fsiFlag := true;
    } else {
      ncl := DWORD_MAX;
    }
  }

  // The FAT with the previous cluster marked as the end of its chain.
  function Ended(f: seq<nat>, pclst: nat, eoc: nat): (f': seq<nat>)
    requires pclst < |f|
    ensures |f'| == |f|
  {
    if pclst == 0 then f else f[pclst := eoc]
  }

  // Removing a chain, or its part from the k-th cluster on, is one of the operations on
  // the set of chains.
  lemma DroppedIsApply(f: seq<nat>, cs: set<seq<nat>>, s: seq<nat>, eoc: nat)
    requires Chains(f, cs) && s in cs && |s| > 0
    ensures Freed(Ended(f, 0, eoc), s[0]) == Apply(f, cs, Drop(s), eoc) && !HitsReserved(f, s[0])
  {
    hide IsChain, Freed, HitsReserved, Zeroed;
    InChains(f, cs, s);
    FreedIsZeroed(f, s);
  }

  lemma ShortenedIsApply(f: seq<nat>, cs: set<seq<nat>>, s: seq<nat>, k: nat, eoc: nat)
    requires Chains(f, cs) && s in cs && 0 < k < |s| && eoc >= |f|
    ensures s[k - 1] < |f|
    ensures Freed(Ended(f, s[k - 1], eoc), s[k]) == Apply(f, cs, Shorten(s, k), eoc)
    ensures !HitsReserved(Ended(f, s[k - 1], eoc), s[k])
  {
    hide Freed, HitsReserved, Zeroed, AllChains, Disjoint, Covered;
    InChains(f, cs, s);
    AllocatedInChain(f, s, k - 1);
    TailIsChain(f, s, k, eoc);
    FreedIsZeroed(f[s[k - 1] := eoc], s[k..]);
  }

  // Frees the chain from clst on; pclst, when not 0, becomes the end of what remains.
  method RemoveChain(fs: FatFs, clst: nat, pclst: nat) returns (res: FResult)
    requires fs.Valid()
    modifies fs.disk, fs.win, fs
    ensures fs.Valid() && Kept(fs)
    ensures res in {FR_OK, FR_DISK_ERR, FR_INT_ERR}
    ensures |fs.fat| == |old(fs.fat)|
    ensures 2 <= clst < |fs.fat| && (pclst == 0 || 2 <= pclst < |fs.fat|) ==>
              forall c :: 0 <= c < |fs.fat| && c != pclst && Freed(Ended(old(fs.fat), pclst, Eoc(fs)), clst)[c] != 0 ==>
                fs.fat[c] == old(fs.fat)[c]
    ensures res == FR_DISK_ERR ==> fs.disk.faults > old(fs.disk.faults)
    ensures !(2 <= clst < |fs.fat|) || !(pclst == 0 || 2 <= pclst < |fs.fat|) ==>
              res == FR_INT_ERR && fs.fat == old(fs.fat)
    ensures 2 <= clst < |fs.fat| && (pclst == 0 || 2 <= pclst < |fs.fat|) && res != FR_DISK_ERR ==>
              var f1 := Ended(old(fs.fat), pclst, Eoc(fs));
              fs.fat == Freed(f1, clst) && (res == FR_INT_ERR <==> HitsReserved(f1, clst))
    ensures (old(FreeOk(fs.freeClst, fs.fat)) && res != FR_DISK_ERR
             && (pclst == 0 || pclst >= |fs.fat| || old(fs.fat)[pclst] != 0)) ==> FreeOk(fs.freeClst, fs.fat)
    ensures fs.lastClst == old(fs.lastClst)
  {
    if clst < 2 || clst >= fs.geo.nFatent { return FR_INT_ERR; }
    if pclst != 0 {
      res := PutFat(fs, pclst, DWORD_MAX);
      if res != FR_OK { return; }
      EocEndsChains(fs);
      CountUpdate(old(fs.fat), pclst, Eoc(fs));
    }
    res := FreeWalk(fs, clst);
  }

  method FreeWalk(fs: FatFs, first: nat) returns (res: FResult)
    requires fs.Valid() && 2 <= first < |fs.fat|
    modifies fs.disk, fs.win, fs
    ensures fs.Valid() && Kept(fs)
    ensures res in {FR_OK, FR_DISK_ERR, FR_INT_ERR}
    ensures |fs.fat| == |old(fs.fat)|
    ensures forall c :: 0 <= c < |fs.fat| && Freed(old(fs.fat), first)[c] != 0 ==> fs.fat[c] == old(fs.fat)[c]
    ensures res == FR_DISK_ERR ==> fs.disk.faults > old(fs.disk.faults)
    ensures res != FR_DISK_ERR ==>
              fs.fat == Freed(old(fs.fat), first) && (res == FR_INT_ERR <==> HitsReserved(old(fs.fat), first))
    ensures old(FreeOk(fs.freeClst, fs.fat)) && res != FR_DISK_ERR ==> FreeOk(fs.freeClst, fs.fat)
    ensures fs.lastClst == old(fs.lastClst)
  {
    var clst := first;
    while true
      invariant fs.Valid() && Kept(fs) && 2 <= clst < |fs.fat|
      invariant Freed(fs.fat, clst) == Freed(old(fs.fat), first)
      invariant forall c :: 0 <= c < |fs.fat| && Freed(old(fs.fat), first)[c] != 0 ==> fs.fat[c] == old(fs.fat)[c]
      invariant HitsReserved(fs.fat, clst) == HitsReserved(old(fs.fat), first)
      invariant old(FreeOk(fs.freeClst, fs.fat)) ==> FreeOk(fs.freeClst, fs.fat)
      invariant fs.lastClst == old(fs.lastClst)
      decreases |Used(fs.fat)|
    {
      var nxt := GetFat(fs, clst);
      if nxt == 0 { return FR_OK; }
      if nxt == 1 { return FR_INT_ERR; }
      if nxt == DWORD_MAX { return FR_DISK_ERR; }
      FreedOnlyClears(fs.fat, clst);
      res := FreeOne(fs, clst);
      if res != FR_OK { return; }
      if nxt >= fs.geo.nFatent { return FR_OK; }
      clst := nxt;
    }
  }

  // put_fat(clst, 0) and the update of the free count.
  method FreeOne(fs: FatFs, clst: nat) returns (res: FResult)
    requires fs.Valid() && 2 <= clst < |fs.fat| && fs.fat[clst] != 0
    modifies fs.disk, fs.win, fs
    ensures fs.Valid() && Kept(fs)
    ensures res == FR_OK || res == FR_DISK_ERR
    ensures res == FR_DISK_ERR ==> fs.disk.faults > old(fs.disk.faults)
    ensures forall c :: 0 <= c < |fs.fat| && c != clst ==> fs.fat[c] == old(fs.fat)[c]
    ensures res == FR_OK ==> fs.fat == old(fs.fat)[clst := 0] && Used(fs.fat) == Used(old(fs.fat)) - {clst}
    ensures res == FR_OK ==> |Used(fs.fat)| < |Used(old(fs.fat))|
    ensures old(FreeOk(fs.freeClst, fs.fat)) && res == FR_OK ==> FreeOk(fs.freeClst, fs.fat)
    ensures fs.lastClst == old(fs.lastClst)
  {
    CountUpdate(fs.fat, clst, 0);
    CountBound(fs.fat);
    SmallIsNotCut(fs, 0);
    res := PutFat(fs, clst, 0);
    if res == FR_OK {
      assert Used(fs.fat) == Used(old(fs.fat)) - {clst} && clst in Used(old(fs.fat));
      if fs.freeClst < fs.geo.nFatent - 2 {
        fs.freeClst := fs.freeClst + 1;
        fs.fsiFlag := true;
      }
    }
  }

  // f_getfree's scan of a FAT12 volume, entry by entry.
  method Scan12(fs: FatFs) returns (res: FResult, nfree: nat)
    requires fs.Valid()
    modifies fs.disk, fs.win, fs`wflag, fs`winsect, fs`logical, fs`mirrored
    ensures fs.Valid() && Kept(fs) && fs.fat == old(fs.fat)
    ensures res in {FR_OK, FR_DISK_ERR, FR_INT_ERR}
    ensures res == FR_OK ==> nfree == CountFree(fs.fat)
    ensures res == FR_DISK_ERR ==> fs.disk.faults > old(fs.disk.faults)
    ensures res == FR_INT_ERR ==> exists c :: 2 <= c < |fs.fat| && fs.fat[c] == 1
  {
    nfree := 0;
    var clst := 2;
    while clst < fs.geo.nFatent
      invariant fs.Valid() && Kept(fs) && fs.fat == old(fs.fat)
      invariant 2 <= clst <= |fs.fat| && nfree == CountZeros(fs.fat, 2, clst)
    {
      var stat := GetFat(fs, clst);
      if stat == DWORD_MAX { return FR_DISK_ERR, nfree; }
      if stat == 1 { return FR_INT_ERR, nfree; }
      if stat == 0 { nfree := nfree + 1; }
      clst := clst + 1;
    }
    res := FR_OK;
    CountZerosIsCountFree(fs.fat, |fs.fat|);
    assert fs.fat[..|fs.fat|] == fs.fat;
  }

  // f_getfree's scan of FAT16 and FAT32 volumes, sector by sector. It starts at entry 0,
  // so it also counts the two reserved entries when they are zero.
  method ScanWords(fs: FatFs) returns (res: FResult, nfree: nat)
    requires fs.Valid() && fs.geo.fatType != Fat12
    modifies fs.disk, fs.win, fs`wflag, fs`winsect, fs`logical, fs`mirrored
    ensures fs.Valid() && Kept(fs) && fs.fat == old(fs.fat)
    ensures res == FR_OK || res == FR_DISK_ERR
    ensures res == FR_OK ==> nfree == CountZeros(fs.fat, 0, |fs.fat|)
    ensures res == FR_DISK_ERR ==> fs.disk.faults > old(fs.disk.faults)
  {
    hide FatFs.Valid;
    res, nfree := FR_OK, 0;
    var i, sect, c := 0, fs.geo.fatbase, 0;
    TableLength(fs);
    while c < fs.geo.nFatent
      invariant fs.Valid() && Kept(fs) && fs.fat == old(fs.fat)
      invariant res == FR_OK && c <= |fs.fat| && nfree == CountZeros(fs.fat, 0, c)
      invariant ScanAt(fs, c, i, sect)
    {
      var v;
      res, v, sect := ScanWord(fs, c, i, sect);
      if res != FR_OK { return; }
      if v == 0 { nfree := nfree + 1; }
      NextOffsetIs(fs.geo.fatType, c, i);
      i := NextOffset(fs.geo.fatType, i);
      c := c + 1;
    }
  }

  lemma TableLength(fs: FatFs)
    requires fs.Valid()
    ensures |fs.fat| == fs.geo.nFatent && fs.geo.Ok()
  {
  }

  // Entry c is next: at the start of sector sect, or at offset i of the window, whose
  // successor is sect.
  ghost predicate ScanAt(fs: FatFs, c: nat, i: nat, sect: nat)
    reads fs`winsect
  {
    && i == EntryOffset(fs.geo.fatType, c) % SS
    && var s := fs.geo.fatbase + EntryOffset(fs.geo.fatType, c) / SS;
       if i == 0 then sect == s else fs.winsect == s && sect == s + 1
  }

  method ScanWord(fs: FatFs, c: nat, i: nat, sect: nat) returns (res: FResult, v: nat, next: nat)
    requires fs.Valid() && fs.geo.fatType != Fat12 && c < |fs.fat| && ScanAt(fs, c, i, sect)
    modifies fs.disk, fs.win, fs`wflag, fs`winsect, fs`logical, fs`mirrored
    ensures fs.Valid() && Kept(fs) && fs.fat == old(fs.fat)
    ensures res == FR_OK || res == FR_DISK_ERR
    ensures res == FR_DISK_ERR ==> fs.disk.faults > old(fs.disk.faults)
    ensures res == FR_OK ==>
              v == fs.fat[c] && next == fs.winsect + 1 && fs.winsect == fs.geo.fatbase + EntryOffset(fs.geo.fatType, c) / SS
  {
    res, v, next := FR_OK, 0, sect;
    EntryFits(fs.geo, c);
    if i == 0 {
      res := ShowFatSector(fs, sect);
      if res != FR_OK { return; }
      next := sect + 1;
    }
    v := PeekEntry(fs, c);
  }

  method ShowFatSector(fs: FatFs, sect: nat) returns (res: FResult)
    requires fs.Valid() && fs.geo.InFat(sect)
    modifies fs.disk, fs.win, fs`wflag, fs`winsect, fs`logical, fs`mirrored
    ensures fs.Valid() && Kept(fs) && fs.fat == old(fs.fat)
    ensures res == FR_OK || res == FR_DISK_ERR
    ensures res == FR_OK ==> fs.winsect == sect
    ensures res == FR_DISK_ERR ==> fs.disk.faults > old(fs.disk.faults)
  {
    res := MoveWindow(fs, sect);
  }

  lemma NextPosition(o: nat, w: nat)
    requires w in {2, 4} && o % w == 0
    ensures (o + w) % SS == (o % SS + w) % SS
    ensures (o + w) / SS == o / SS + (if (o + w) % SS == 0 then 1 else 0)
  {
    if w == 2 {
    } else {
    }
  }

  // The next entry's offset, back to 0 at the end of the sector.
  function NextOffset(t: FatType, i: nat): nat {
    if t == Fat16 then (i + 2) % SS else (i + 4) % SS
  }

  lemma NextEntry(t: FatType, c: nat)
    requires t != Fat12
    ensures EntryOffset(t, c + 1) == EntryOffset(t, c) + (if t == Fat16 then 2 else 4)
    ensures EntryOffset(t, c) % (if t == Fat16 then 2 else 4) == 0
  {
  }

  lemma NextOffsetIs(t: FatType, c: nat, i: nat)
    requires t != Fat12 && i == EntryOffset(t, c) % SS
    ensures NextOffset(t, i) == EntryOffset(t, c + 1) % SS
    ensures EntryOffset(t, c + 1) / SS == EntryOffset(t, c) / SS + (if NextOffset(t, i) == 0 then 1 else 0)
  {
    hide EntryOffset;
    NextEntry(t, c);
    NextPosition(EntryOffset(t, c), if t == Fat16 then 2 else 4);
  }

  // The number of free clusters: the remembered count when there is one, else a scan,
  // whose result becomes the remembered count.
  method GetFree(fs: FatFs) returns (res: FResult, nclst: nat)
    requires fs.Valid()
    modifies fs.disk, fs.win, fs
    ensures fs.Valid() && Kept(fs) && fs.fat == old(fs.fat) && nclst == fs.freeClst
    ensures res in {FR_OK, FR_DISK_ERR, FR_INT_ERR}
    ensures res == FR_DISK_ERR ==> fs.disk.faults > old(fs.disk.faults)
    ensures res == FR_INT_ERR ==> exists c :: 2 <= c < |fs.fat| && fs.fat[c] == 1
    ensures old(fs.freeClst) <= |fs.fat| - 2 ==> res == FR_OK && nclst == old(fs.freeClst)
    ensures res == FR_OK && old(fs.freeClst) > |fs.fat| - 2 ==>
              nclst == CountFree(fs.fat) + (if fs.geo.fatType == Fat12 then 0 else CountZeros(fs.fat, 0, 2))
    ensures res == FR_OK && fs.geo.fatType != Fat12 && old(FreeOk(fs.freeClst, fs.fat)) && old(fs.freeClst) > |fs.fat| - 2 ==>
              (nclst == CountFree(fs.fat) <==> fs.fat[0] != 0 && fs.fat[1] != 0)
  {
    if fs.freeClst <= fs.geo.nFatent - 2 {
      return FR_OK, fs.freeClst;
    }
    if fs.geo.fatType == Fat12 {
      res, nclst := Scan12(fs);
    } else {
      res, nclst := ScanWords(fs);
      CountZerosSplit(fs.fat, |fs.fat|);
      CountZerosIsCountFree(fs.fat, |fs.fat|);
      assert fs.fat[..|fs.fat|] == fs.fat;
    }
    fs.freeClst := nclst;
    fs.fsiFlag := true;
  }
}
