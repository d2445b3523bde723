/** Allocating a file in one contiguous block (thirdparty/fatfs/ff.c, f_expand): what its
    search finds, what it misses, and what a failed allocation leaves behind. */
module FileExpand {
  import opened Disk
  import opened FatLayout
  import opened Window
  import opened FatEntry
  import opened Chain
  import opened ChainOps
  import opened FileMap
  import opened File
  import opened FileRead
  import opened FileWrite
  import opened FileSeek
  import opened FileResize

  // Cluster numbers wrap from n - 1 to 2.
  function Cyc(n: nat, x: nat): nat
    requires n > 2
  {
    if x >= n then x - (n - 2) else x
  }

  // cnt clusters from x on, cyclically, are free.
  ghost predicate FreeRun(f: seq<nat>, x: nat, cnt: nat)
    requires |f| > 2
  {
    forall i {:trigger Cyc(|f|, i)} :: x <= i < x + cnt ==> 2 <= Cyc(|f|, i) < |f| && f[Cyc(|f|, i)] == 0
  }

  // No free run of tcl clusters lies within the cnt clusters from stcl on.
  ghost predicate NoRun(f: seq<nat>, stcl: nat, cnt: nat, tcl: nat)
    requires |f| > 2
  {
    forall a :: stcl <= a && a + tcl <= stcl + cnt ==> !FreeRun(f, a, tcl)
  }

  // The first free run within one turn from stcl on starts at a, which is cluster scl.
  ghost predicate FoundAt(f: seq<nat>, stcl: nat, tcl: nat, a: nat, scl: nat)
    requires |f| > 2
  {
    && stcl <= a && a + tcl <= stcl + |f| - 2 && scl == Cyc(|f|, a)
    && FreeRun(f, a, tcl) && FreeRun(f, scl, tcl)
    && forall b :: stcl <= b < a ==> !FreeRun(f, b, tcl)
  }

  ghost predicate FirstRun(f: seq<nat>, stcl: nat, tcl: nat, scl: nat)
    requires |f| > 2
  {
    exists a: nat :: FoundAt(f, stcl, tcl, a, scl)
  }

  // The search after s clusters: the last ncl of them, from scl on, are free, the one
  // before those is not, and no run was long enough.
  ghost predicate Searching(f: seq<nat>, stcl: nat, tcl: nat, s: nat, ncl: nat, clst: nat, scl: nat)
    requires |f| > 2
  {
    && 2 <= stcl < |f| && s < |f| - 2 && ncl <= s && ncl < tcl
    && clst == Cyc(|f|, stcl + s) && scl == Cyc(|f|, stcl + s - ncl)
    && (forall j {:trigger Cyc(|f|, j)} :: stcl + s - ncl <= j < stcl + s ==> f[Cyc(|f|, j)] == 0)
    && (ncl < s ==> f[Cyc(|f|, stcl + s - ncl - 1)] != 0)
    && NoRun(f, stcl, s, tcl)
  }

  // A file that grows from nothing after a run was suggested to the allocator lies in that
  // run, cluster by cluster, over the end of the FAT as well.
  lemma {:induction false} SuggestionIsTaken(f: seq<nat>, scl: nat, tcl: nat, chain: seq<nat>, i: nat)
    requires 2 <= scl < |f| && tcl <= |f| - 2 && FreeRun(f, scl, tcl) && i < tcl && i < |chain|
    requires Takes(f, scl - 1, 0, chain[0]) && InPlace(f, [], chain)
    ensures forall j :: 0 <= j <= i ==> chain[j] == Cyc(|f|, scl + j)
    decreases i
  {
    assert f[Cyc(|f|, scl + i)] == 0;
    if i == 0 {
      assert Cyc(|f|, scl) == scl;
    } else {
      SuggestionIsTaken(f, scl, tcl, chain, i - 1);
      assert TakesNext(f, chain[..i], chain[i]);
      assert Behind(f, chain[i - 1]) == Cyc(|f|, scl + i);
      forall j | 0 <= j < i ensures chain[j] != Cyc(|f|, scl + i) {
        assert chain[j] == Cyc(|f|, scl + j);
      }
    }
  }

  function NextCluster(n: nat, clst: nat): nat {
    if clst + 1 >= n then 2 else clst + 1
  }

  lemma SearchStep(f: seq<nat>, stcl: nat, tcl: nat, s: nat, ncl: nat, clst: nat, scl: nat)
    requires |f| > 2 && Searching(f, stcl, tcl, s, ncl, clst, scl)
    ensures 2 <= clst < |f| && 2 <= scl < |f|
    ensures f[clst] == 0 && ncl + 1 == tcl ==> tcl <= |f| - 2 && FreeRun(f, scl, tcl) && FirstRun(f, stcl, tcl, scl)
    ensures !(f[clst] == 0 && ncl + 1 == tcl) ==>
              var next := NextCluster(|f|, clst);
              && (next == stcl ==> NoRun(f, stcl, |f| - 2, tcl))
              && (next != stcl && f[clst] == 0 ==> Searching(f, stcl, tcl, s + 1, ncl + 1, next, scl))
              && (next != stcl && f[clst] != 0 ==> Searching(f, stcl, tcl, s + 1, 0, next, next))
  {
    if f[clst] == 0 && ncl + 1 == tcl {
      ShiftRun(f, stcl + s - ncl, tcl);
      assert FoundAt(f, stcl, tcl, stcl + s - ncl, scl);
    } else {
      NoRunStep(f, stcl, tcl, s, ncl, clst, scl);
    }
  }

  lemma NoRunStep(f: seq<nat>, stcl: nat, tcl: nat, s: nat, ncl: nat, clst: nat, scl: nat)
    requires |f| > 2 && Searching(f, stcl, tcl, s, ncl, clst, scl) && 2 <= clst < |f|
    requires !(f[clst] == 0 && ncl + 1 == tcl)
    ensures NoRun(f, stcl, s + 1, tcl)
  {
    forall a | stcl <= a && a + tcl <= stcl + s + 1 ensures !FreeRun(f, a, tcl) {
      if a + tcl == stcl + s + 1 {
        var bad := if f[clst] != 0 then stcl + s else stcl + s - ncl - 1;
        assert a <= bad < a + tcl && f[Cyc(|f|, bad)] != 0;
      }
    }
  }

  // A run may be named by its first cluster.
  lemma ShiftRun(f: seq<nat>, x: nat, cnt: nat)
    requires |f| > 2 && 2 <= x && x + cnt <= 2 * |f| - 2 && 0 < cnt <= |f| - 2
    requires forall j {:trigger Cyc(|f|, j)} :: x <= j < x + cnt ==> f[Cyc(|f|, j)] == 0
    ensures FreeRun(f, x, cnt) && FreeRun(f, Cyc(|f|, x), cnt)
  {
    var y := Cyc(|f|, x);
    forall i | y <= i < y + cnt ensures 2 <= Cyc(|f|, i) < |f| && f[Cyc(|f|, i)] == 0 {
      assert f[Cyc(|f|, x + (i - y))] == 0;
    }
  }

  // Searches once around the volume for tcl free clusters in a row: it succeeds exactly
  // when there is such a run between the start point and its return to it, and then finds
  // the first. The count carries over the wrap-around, so that run may be split between
  // both ends.
  method FindRun(fs: FatFs, stcl: nat, tcl: nat) returns (res: FResult, scl: nat)
    requires fs.Valid() && 2 <= stcl < |fs.fat| && tcl > 0
    modifies fs.disk, fs.win, fs`wflag, fs`winsect, fs`logical, fs`mirrored
    ensures fs.Valid() && Kept(fs) && fs.fat == old(fs.fat)
    ensures res in {FR_OK, FR_DISK_ERR, FR_INT_ERR, FR_DENIED}
    ensures res == FR_DISK_ERR ==> fs.disk.faults > old(fs.disk.faults)
    ensures res == FR_INT_ERR ==> HasOne(fs.fat)
    ensures res == FR_OK ==> 2 <= scl < |fs.fat| && tcl <= |fs.fat| - 2 && FreeRun(fs.fat, scl, tcl)
    ensures res == FR_OK ==> FirstRun(fs.fat, stcl, tcl, scl) && !NoRun(fs.fat, stcl, |fs.fat| - 2, tcl)
    ensures res == FR_DENIED ==> NoRun(fs.fat, stcl, |fs.fat| - 2, tcl)
  {
    hide FatFs.Valid, Searching, FreeRun, NoRun, FirstRun;
    TableSize(fs);
    scl := stcl;
    var clst, ncl := stcl, 0;
    ghost var s: nat := 0;
    SearchStart(fs.fat, stcl, tcl);
    while true
      invariant fs.Valid() && Kept(fs) && fs.fat == old(fs.fat)
      invariant s < |fs.fat| - 2 && Searching(fs.fat, stcl, tcl, s, ncl, clst, scl)
      decreases |fs.fat| - s
    {
      SearchStep(fs.fat, stcl, tcl, s, ncl, clst, scl);
      var n := GetFat(fs, clst);
      clst := NextCluster(fs.geo.nFatent, clst);
      if n == 1 { return FR_INT_ERR, scl; }
      if n == DWORD_MAX { return FR_DISK_ERR, scl; }
      if n == 0 {
        ncl := ncl + 1;
        if ncl == tcl {
          FoundIsRun(fs.fat, stcl, tcl, scl);
          return FR_OK, scl;
        }
      } else {
        scl, ncl := clst, 0;
      }
      if clst == stcl { return FR_DENIED, scl; }
      s := s + 1;
      SearchBound(fs.fat, stcl, tcl, s, ncl, clst, scl);
    }
  }

  lemma FoundIsRun(f: seq<nat>, stcl: nat, tcl: nat, scl: nat)
    requires |f| > 2 && FirstRun(f, stcl, tcl, scl)
    ensures !NoRun(f, stcl, |f| - 2, tcl)
  {
    hide FreeRun;
  }

  // -- What the search finds --

  // tcl clusters from c on, without wrapping, are free.
  ghost predicate LinearRun(f: seq<nat>, c: nat, tcl: nat) {
    2 <= c && c + tcl <= |f| && forall k :: c <= k < c + tcl ==> f[k] == 0
  }

  lemma LinearIsFree(f: seq<nat>, c: nat, tcl: nat)
    requires |f| > 2 && 2 <= c && 0 < tcl && c + tcl <= |f|
    ensures LinearRun(f, c, tcl) <==> FreeRun(f, c, tcl)
    ensures LinearRun(f, c, tcl) ==> FreeRun(f, c + |f| - 2, tcl)
    ensures FreeRun(f, c + |f| - 2, tcl) ==> LinearRun(f, c, tcl)
  {
    if FreeRun(f, c, tcl) {
      forall k | c <= k < c + tcl ensures f[k] == 0 { assert f[Cyc(|f|, k)] == 0; }
    }
    if FreeRun(f, c + |f| - 2, tcl) {
      forall k | c <= k < c + tcl ensures f[k] == 0 { assert f[Cyc(|f|, k + |f| - 2)] == 0; }
    }
  }

  // The search misses a run that exists exactly when every run straddles the start point,
  // and none within the turn straddles the end of the FAT instead.
  lemma RefusedIff(f: seq<nat>, stcl: nat, tcl: nat)
    requires 2 <= stcl < |f| && tcl > 0
    ensures NoRun(f, stcl, |f| - 2, tcl) <==>
            && (forall c: nat :: LinearRun(f, c, tcl) ==> c < stcl < c + tcl)
            && (forall a :: stcl <= a < |f| < a + tcl <= stcl + |f| - 2 ==> !FreeRun(f, a, tcl))
  {
    hide FreeRun, LinearRun;
    if NoRun(f, stcl, |f| - 2, tcl) {
      forall c: nat | LinearRun(f, c, tcl) ensures c < stcl < c + tcl {
        LinearBounds(f, c, tcl);
        LinearIsFree(f, c, tcl);
      }
    } else {
      var a :| stcl <= a && a + tcl <= stcl + |f| - 2 && FreeRun(f, a, tcl);
      if a >= |f| {
        LinearIsFree(f, a - (|f| - 2), tcl);
      } else if a + tcl <= |f| {
        LinearIsFree(f, a, tcl);
      }
    }
  }

  lemma LinearBounds(f: seq<nat>, c: nat, tcl: nat)
    requires LinearRun(f, c, tcl)
    ensures 2 <= c && c + tcl <= |f|
  {
  }

  // Four clusters from 2 on are free, but a search that starts at 4 refuses.
  lemma RunMissed()
    ensures var f := [9, 9, 0, 0, 0, 0, 9, 9]; LinearRun(f, 2, 4) && NoRun(f, 4, |f| - 2, 4)
  {
    var f := [9, 9, 0, 0, 0, 0, 9, 9];
    forall a | 4 <= a && a + 4 <= 4 + |f| - 2 ensures !FreeRun(f, a, 4) {
      assert f[Cyc(|f|, 6)] == 9;
    }
  }

  // The run found wraps exactly when it starts in front of the end of the FAT and ends
  // behind it.
  lemma FoundWraps(f: seq<nat>, stcl: nat, tcl: nat, a: nat, scl: nat)
    requires 2 <= stcl < |f| && FoundAt(f, stcl, tcl, a, scl)
    ensures scl + tcl > |f| <==> a < |f| < a + tcl
  {
    hide FreeRun;
  }

  lemma SearchStart(f: seq<nat>, stcl: nat, tcl: nat)
    requires 2 <= stcl < |f| && tcl > 0
    ensures Searching(f, stcl, tcl, 0, 0, stcl, stcl)
  {
  }

  lemma SearchBound(f: seq<nat>, stcl: nat, tcl: nat, s: nat, ncl: nat, clst: nat, scl: nat)
    requires |f| > 2 && Searching(f, stcl, tcl, s, ncl, clst, scl)
    ensures s < |f| - 2 && ncl < tcl
  {
  }

  // The FAT with the first m of n clusters linked.
  function Partly(f: seq<nat>, first: nat, n: nat, m: nat, eoc: nat): (f': seq<nat>)
    requires m <= n && first + m <= |f|
    ensures |f'| == |f|
  {
    seq(|f|, c requires 0 <= c < |f| =>
      if first <= c < first + m then (if c + 1 == first + n then eoc else c + 1) else f[c])
  }

  lemma PartlyNone(f: seq<nat>, first: nat, n: nat, eoc: nat)
    requires first <= |f|
    ensures Partly(f, first, n, 0, eoc) == f
  {
  }

  lemma PartlyOutside(f: seq<nat>, first: nat, n: nat, m: nat, eoc: nat)
    requires m <= n && first + m <= |f|
    ensures forall c :: 0 <= c < |f| && !(first <= c < first + n) ==> Partly(f, first, n, m, eoc)[c] == f[c]
  {
  }

  lemma PartlyStep(f: seq<nat>, first: nat, n: nat, m: nat, eoc: nat)
    requires m < n && first + m < |f|
    ensures Partly(f, first, n, m + 1, eoc) ==
            Partly(f, first, n, m, eoc)[first + m := if m + 1 == n then eoc else first + m + 1]
  {
  }

  lemma PartlyAll(f: seq<nat>, first: nat, n: nat, eoc: nat)
    requires n > 0 && first + n <= |f|
    ensures Partly(f, first, n, n, eoc) == Linked(f, first, n, eoc)
  {
  }

  // What a run that wraps leaves behind: a chain of its clusters up to the end of the FAT,
  // which no file owns.
  lemma PartlyIsLinked(f: seq<nat>, first: nat, n: nat, eoc: nat)
    requires first < |f| < first + n
    ensures Partly(f, first, n, |f| - first, eoc) == Linked(f, first, |f| - first, |f|)
  {
  }

  lemma LeftBehind(f: seq<nat>, cs: set<seq<nat>>, first: nat, n: nat, eoc: nat)
    requires Chains(f, cs) && 2 <= first < |f| < first + n && forall c :: first <= c < |f| ==> f[c] == 0
    ensures Chains(Partly(f, first, n, |f| - first, eoc), cs + {Run(first, |f| - first)})
    ensures CountFree(Partly(f, first, n, |f| - first, eoc)) + (|f| - first) == CountFree(f)
  {
    hide Chains, CountFree, Partly, Linked, Run;
    PartlyIsLinked(f, first, n, eoc);
    ApplyKeepsChains(f, cs, Chain.Expand(first, |f| - first), |f|);
    CountLinked(f, first, |f| - first, |f|);
  }

  // All links were made but those from cluster first + m on, whose entry is torn.
  ghost predicate TornLinks(f: seq<nat>, f': seq<nat>, first: nat, n: nat, m: nat, eoc: nat) {
    && m < n && first + m < |f| == |f'|
    && forall c :: 0 <= c < |f| && c != first + m ==> f'[c] == Partly(f, first, n, m, eoc)[c]
  }

  // What put_fat stores for the link to the next cluster.
  lemma LinkValue(fs: FatFs, clst: nat, n: nat)
    requires fs.Valid() && clst < |fs.fat|
    ensures Cut(fs.geo.fatType, if n == 1 then DWORD_MAX else clst + 1) == if n == 1 then Eoc(fs) else clst + 1
  {
    EocIsBeyondAllClusters(fs.geo);
  }

  // f_expand's allocation loop. When the run wraps around, linking stops at the last
  // cluster with an internal error.
  method LinkRun(fs: FatFs, scl: nat, tcl: nat) returns (res: FResult)
    requires fs.Valid() && 2 <= scl < |fs.fat| && 0 < tcl <= |fs.fat| - 2
    modifies fs.disk, fs.win, fs`wflag, fs`winsect, fs`logical, fs`fat, fs`mirrored
    ensures fs.Valid() && Kept(fs)
    ensures res in {FR_OK, FR_DISK_ERR, FR_INT_ERR}
    ensures res == FR_DISK_ERR ==> fs.disk.faults > old(fs.disk.faults)
    ensures res == FR_DISK_ERR ==> exists m: nat :: TornLinks(old(fs.fat), fs.fat, scl, tcl, m, Eoc(fs))
    ensures res == FR_OK ==> scl + tcl <= |fs.fat| && fs.fat == Linked(old(fs.fat), scl, tcl, Eoc(fs))
    ensures res == FR_INT_ERR ==> scl + tcl > |fs.fat| && fs.fat == Partly(old(fs.fat), scl, tcl, |fs.fat| - scl, Eoc(fs))
    ensures forall c :: 0 <= c < |fs.fat| && !(scl <= c < scl + tcl) ==> fs.fat[c] == old(fs.fat)[c]
  {
    hide FatFs.Valid, Partly, Linked;
    res := FR_OK;
    var clst, n := scl, tcl;
    TableSize(fs);
    assert Partly(fs.fat, scl, tcl, 0, Eoc(fs)) == fs.fat by { PartlyNone(fs.fat, scl, tcl, Eoc(fs)); }
    while n > 0
      invariant fs.Valid() && Kept(fs) && res == FR_OK
      invariant n <= tcl && clst == scl + (tcl - n) <= |fs.fat|
      invariant fs.fat == Partly(old(fs.fat), scl, tcl, tcl - n, Eoc(fs))
    {
      var val := if n == 1 then DWORD_MAX else clst + 1;
      PartlyOutside(old(fs.fat), scl, tcl, tcl - n, Eoc(fs));
      res := PutFat(fs, clst, val);
      if res == FR_DISK_ERR { assert TornLinks(old(fs.fat), fs.fat, scl, tcl, tcl - n, Eoc(fs)); }
      if res != FR_OK { return; }
      LinkValue(fs, clst, n);
      PartlyStep(old(fs.fat), scl, tcl, tcl - n, Eoc(fs));
      clst, n := clst + 1, n - 1;
    }
    PartlyOutside(old(fs.fat), scl, tcl, tcl, Eoc(fs));
    PartlyAll(old(fs.fat), scl, tcl, Eoc(fs));
  }

  lemma RunIsChain(f: seq<nat>, first: nat, n: nat, eoc: nat)
    requires 2 <= first && n > 0 && first + n <= |f| && eoc >= |f|
    ensures IsChain(Linked(f, first, n, eoc), Run(first, n))
  {
  }

  // The sectors of a contiguous chain: one contiguous block.
  function RunSecs(g: Geometry, first: nat, n: nat): (secs: seq<nat>)
    requires g.csize > 0 && first >= 2
    ensures |secs| == g.csize * n
    ensures forall k :: 0 <= k < |secs| ==> secs[k] == SectorOf(g, first, 0) + k
  {
    MulMonotone(g.csize, 0, first - 2);
    MulMonotone(g.csize, 0, n);
    var base: nat := SectorOf(g, first, 0);
    seq<nat>(g.csize * n, k requires 0 <= k => base + k)
  }

  lemma RunSecsOf(g: Geometry, first: nat, n: nat)
    requires g.DataOk() && first >= 2
    ensures SecsOf(g, Run(first, n), RunSecs(g, first, n))
  {
    var secs, chain := RunSecs(g, first, n), Run(first, n);
    forall k: nat | k < |secs| ensures k / g.csize < |chain| && secs[k] == SectorAt(g, chain, k) {
      ClusterIndexInChain(g, n, k);
      RunSector(g, first, k);
    }
  }

  lemma RunSector(g: Geometry, first: nat, k: nat)
    requires g.DataOk()
    ensures SectorOf(g, first, 0) + k == SectorOf(g, first + k / g.csize, k % g.csize)
  {
    Position(g, k);
    MulDistributes(g.csize, first - 2, k / g.csize);
  }

  lemma MulDistributes(b: nat, x: int, y: int)
    ensures b * x + b * y == b * (x + y)
  {
  }

  // A free run belongs to the sectors this file may write.
  lemma RunOwn(g: Geometry, f: seq<nat>, secs: seq<nat>, own: set<nat>, first: nat, n: nat, eoc: nat)
    requires g.DataOk() && OwnOk(g, f, secs, own) && 2 <= first && n > 0 && first + n <= |f| && eoc >= |f|
    requires forall c :: first <= c < first + n ==> f[c] == 0
    ensures OwnOk(g, Linked(f, first, n, eoc), RunSecs(g, first, n), own)
  {
    var secs', chain := RunSecs(g, first, n), Run(first, n);
    RunSecsOf(g, first, n);
    forall k: nat | k < |secs'| ensures secs'[k] in own {
      ClusterIndexInChain(g, n, k);
      assert secs'[k] == SectorAt(g, chain, k);
      assert SectorOf(g, chain[k / g.csize], k % g.csize) in own;
    }
  }

  // The allocation hints after tcl clusters were taken. The count is a 32-bit word.
  method CountRun(fs: FatFs, tcl: nat, ghost f: seq<nat>)
    requires fs.Valid() && tcl <= |f| == |fs.fat| && CountFree(fs.fat) + tcl == CountFree(f)
    modifies fs`freeClst, fs`fsiFlag
    ensures FreeOk(old(fs.freeClst), f) ==> FreeOk(fs.freeClst, fs.fat)
  {
    TableSize(fs);
    if fs.freeClst <= fs.geo.nFatent - 2 {
      fs.freeClst := (fs.freeClst + 0x1_0000_0000 - tcl) % 0x1_0000_0000;
      fs.fsiFlag := true;
    }
  }

  lemma RunShape(g: Geometry, f: seq<nat>, first: nat, n: nat, eoc: nat)
    requires g.DataOk() && 2 <= first && n > 0 && first + n <= |f| && eoc >= |f|
    ensures Shape(g, Linked(f, first, n, eoc), first, Run(first, n), RunSecs(g, first, n))
  {
    RunIsChain(f, first, n, eoc);
    RunSecsOf(g, first, n);
  }

  lemma FreshImage(l: seq<Sector>, secs: seq<nat>, sect: nat, b: seq<Byte>)
    requires |b| == SS && forall k :: 0 <= k < |secs| ==> secs[k] < |l|
    ensures ImgOk(l, secs, false, sect, b, SectorsAt(l, secs))
  {
  }

  // The file takes over the linked block with whatever its sectors hold.
  twostate lemma Adopted(fp: Fil)
    requires old(fp.Core()) && fp.fs.Valid() && Kept(fp.fs) && fp.own == old(fp.own)
    requires fp.buf[..] == old(fp.buf[..]) && fp.sect == old(fp.sect) && !fp.dirty && !old(fp.dirty)
    requires Shape(fp.fs.geo, fp.fs.fat, fp.sclust, fp.chain, fp.secs) && OwnOk(fp.fs.geo, fp.fs.fat, fp.secs, fp.own)
    requires forall k :: 0 <= k < |fp.secs| ==> fp.secs[k] < |fp.fs.logical|
    requires fp.img == SectorsAt(fp.fs.logical, fp.secs)
    requires fp.objsize <= SS * |fp.img| && fp.objsize <= 0xFFFF_FFFF
    ensures fp.Core()
  {
    hide FatFs.Valid, Shape, ImgOk;
    ImageStays(fp);
    FreshImage(fp.fs.logical, fp.secs, fp.sect, fp.buf[..]);
  }

  lemma RunPlaced(fs: FatFs, f: seq<nat>, secs: seq<nat>, own: set<nat>, first: nat, n: nat)
    requires fs.Valid() && fs.geo.DataOk() && OwnOk(fs.geo, f, secs, own)
    requires 2 <= first && n > 0 && first + n <= |f| && forall c :: first <= c < first + n ==> f[c] == 0
    requires fs.fat == Linked(f, first, n, Eoc(fs))
    ensures Shape(fs.geo, fs.fat, first, Run(first, n), RunSecs(fs.geo, first, n))
    ensures OwnOk(fs.geo, fs.fat, RunSecs(fs.geo, first, n), own)
    ensures forall k :: 0 <= k < |RunSecs(fs.geo, first, n)| ==> RunSecs(fs.geo, first, n)[k] < |fs.logical|
  {
    hide Linked, Run, Shape;
    TableSize(fs);
    RunShape(fs.geo, f, first, n, Eoc(fs));
    RunOwn(fs.geo, f, secs, own, first, n, Eoc(fs));
  }

  lemma RunIsFree(f: seq<nat>, first: nat, n: nat)
    requires |f| > 2 && FreeRun(f, first, n)
    ensures forall c :: first <= c < first + n && c < |f| ==> f[c] == 0
  {
    forall c | first <= c < first + n && c < |f| ensures f[c] == 0 {
      assert f[Cyc(|f|, c)] == 0;
    }
  }

  lemma CountPartly(f: seq<nat>, first: nat, n: nat, eoc: nat)
    requires 2 <= first < |f| < first + n && forall c :: first <= c < |f| ==> f[c] == 0
    ensures CountFree(Partly(f, first, n, |f| - first, eoc)) + (|f| - first) == CountFree(f)
  {
    hide CountFree, Partly, Linked;
    PartlyIsLinked(f, first, n, eoc);
    CountLinked(f, first, |f| - first, |f|);
  }

  // The run wraps: its clusters up to the end of the FAT were linked, and the remembered
  // free count, which stays, is too high by their number if it was right.
  ghost predicate Wrapped(fs: FatFs, f: seq<nat>, scl: nat, tcl: nat)
    reads fs`fat
  {
    && 2 <= scl < |f| < scl + tcl && fs.fat == Partly(f, scl, tcl, |f| - scl, Eoc(fs))
    && CountFree(fs.fat) + (|f| - scl) == CountFree(f)
  }

  // Links the block and updates the allocation hints.
  method TakeRun(fs: FatFs, scl: nat, tcl: nat) returns (res: FResult)
    requires fs.Valid() && 2 <= scl < |fs.fat| && 0 < tcl <= |fs.fat| - 2 && FreeRun(fs.fat, scl, tcl)
    modifies fs, fs.disk, fs.win
    ensures fs.Valid() && Kept(fs)
    ensures res in {FR_OK, FR_DISK_ERR, FR_INT_ERR}
    ensures res == FR_DISK_ERR ==> fs.disk.faults > old(fs.disk.faults)
    ensures res == FR_DISK_ERR ==> exists m: nat :: TornLinks(old(fs.fat), fs.fat, scl, tcl, m, Eoc(fs))
    ensures res == FR_INT_ERR ==> Wrapped(fs, old(fs.fat), scl, tcl) && fs.freeClst == old(fs.freeClst)
    ensures res == FR_OK ==>
              && scl + tcl <= |fs.fat| && (forall c :: scl <= c < scl + tcl ==> old(fs.fat)[c] == 0)
              && fs.fat == Linked(old(fs.fat), scl, tcl, Eoc(fs)) && fs.lastClst == scl + tcl - 1
    ensures res == FR_OK && old(FreeOk(fs.freeClst, fs.fat)) ==> FreeOk(fs.freeClst, fs.fat)
    ensures forall c :: 0 <= c < |fs.fat| && old(fs.fat)[c] != 0 ==> fs.fat[c] == old(fs.fat)[c]
  {
    hide FatFs.Valid, FreeRun, FreeOk, Linked, Partly, TornLinks, CountFree;
    TableSize(fs);
    RunIsFree(fs.fat, scl, tcl);
    res := LinkRun(fs, scl, tcl);
    if res == FR_INT_ERR {
      CountPartly(old(fs.fat), scl, tcl, Eoc(fs));
    }
    if res == FR_OK {
      CountLinked(old(fs.fat), scl, tcl, Eoc(fs));
      fs.lastClst := scl + tcl - 1;
      CountRun(fs, tcl, old(fs.fat));
    }
  }

  lemma RunHolds(g: Geometry, first: nat, n: nat, size: nat)
    requires g.csize > 0 && first >= 2 && size <= Bcs(g) * n
    ensures size <= SS * |RunSecs(g, first, n)|
  {
  }

  // Changes to entries of free clusters do not disturb the file.
  twostate lemma FreeClustersTaken(fp: Fil)
    requires old(fp.Core()) && Untouched(fp) && fp.fs.Valid() && Kept(fp.fs)
    requires forall c :: 0 <= c < |fp.fs.fat| && old(fp.fs.fat)[c] != 0 ==> fp.fs.fat[c] == old(fp.fs.fat)[c]
    ensures fp.Core()
  {
    hide FatFs.Valid, ImgOk;
    ImageStays(fp);
    ShapeKept(fp.fs.geo, old(fp.fs.fat), fp.fs.fat, fp.sclust, fp.chain, fp.secs);
  }

  lemma ShapeKept(g: Geometry, f: seq<nat>, f': seq<nat>, sclust: nat, chain: seq<nat>, secs: seq<nat>)
    requires g.csize > 0 && Shape(g, f, sclust, chain, secs) && |f'| == |f|
    requires forall c :: 0 <= c < |f| && f[c] != 0 ==> f'[c] == f[c]
    ensures Shape(g, f', sclust, chain, secs)
  {
    if chain != [] {
      forall c | c in chain ensures f[c] != 0 {
        var i :| 0 <= i < |chain| && chain[i] == c;
        AllocatedInChain(f, chain, i);
      }
      ChainKept(f, f', chain);
    }
  }

  // f_expand with opt 1, once the block is found.
  method AllocateRun(fp: Fil, fsz: nat, scl: nat, tcl: nat) returns (res: FResult)
    requires fp.Core() && fp.objsize == 0 && !fp.dirty && fp.fptr == 0
    requires 2 <= scl < |fp.fs.fat| && 0 < tcl <= |fp.fs.fat| - 2 && FreeRun(fp.fs.fat, scl, tcl)
    requires 0 < fsz <= Bcs(fp.fs.geo) * tcl && fsz <= 0xFFFF_FFFF
    modifies fp`sclust, fp`objsize, fp`modified, fp`chain, fp`secs, fp`img, fp.fs, fp.fs.disk, fp.fs.win
    ensures SameBut(fp.fs.geo, old(fp.fs.logical), fp.fs.logical, [])
    ensures Spares(old(fp.fs.fat), fp.fs.fat, [])
    ensures res in {FR_OK, FR_DISK_ERR, FR_INT_ERR}
    ensures res == FR_DISK_ERR ==> fp.fs.disk.faults > old(fp.fs.disk.faults)
    ensures res == FR_DISK_ERR ==> exists m: nat :: TornLinks(old(fp.fs.fat), fp.fs.fat, scl, tcl, m, Eoc(fp.fs))
    ensures res == FR_INT_ERR ==> Wrapped(fp.fs, old(fp.fs.fat), scl, tcl) && fp.fs.freeClst == old(fp.fs.freeClst)
    ensures fp.Core() && fp.Cursor() && |fp.fs.fat| == |old(fp.fs.fat)|
    ensures res == FR_OK ==> fp.objsize == fsz && fp.sclust == scl && Expanded(fp, scl, tcl)
    ensures fp.modified == (old(fp.modified) || res == FR_OK)
    ensures res != FR_OK ==> fp.objsize == 0 && fp.chain == old(fp.chain) && fp.secs == old(fp.secs) && fp.img == old(fp.img)
    ensures res == FR_OK && old(FreeOk(fp.fs.freeClst, fp.fs.fat)) ==> FreeOk(fp.fs.freeClst, fp.fs.fat)
  {
    hide FatFs.Valid, Shape, OwnOk, ImgOk, FreeRun, FreeOk, Linked, Run, RunSecs, SectorsAt, Wrapped, TornLinks;
    res := TakeRun(fp.fs, scl, tcl);
    assert Spares(old(fp.fs.fat), fp.fs.fat, []);
    if res == FR_OK {
      fp.sclust := scl;
      fp.objsize := fsz;
      fp.modified := true;
      RunPlaced(fp.fs, old(fp.fs.fat), old(fp.secs), fp.own, scl, tcl);
      RunHolds(fp.fs.geo, scl, tcl, fsz);
      fp.chain, fp.secs := Run(scl, tcl), RunSecs(fp.fs.geo, scl, tcl);
      fp.img := SectorsAt(fp.fs.logical, fp.secs);
      Adopted(fp);
    } else {
      FreeClustersTaken(fp);
    }
  }

  // The file became the contiguous chain of tcl clusters from scl on, all free before;
  // nothing else in the FAT changed.
  twostate predicate Expanded(fp: Fil, scl: nat, tcl: nat)
    reads fp`chain, fp.fs`fat, fp.fs`lastClst
  {
    && tcl > 0 && scl >= 2 && |fp.fs.fat| == |old(fp.fs.fat)| && scl + tcl <= |fp.fs.fat|
    && (forall c :: scl <= c < scl + tcl ==> old(fp.fs.fat)[c] == 0)
    && fp.chain == Run(scl, tcl) && fp.fs.fat == Linked(old(fp.fs.fat), scl, tcl, Eoc(fp.fs))
    && fp.fs.lastClst == scl + tcl - 1
  }

  // Clusters required for fsz bytes: the quotient, plus one when bytes are left over.
  function ClustersFor(g: Geometry, fsz: nat): (tcl: nat)
    requires g.DataOk()
    ensures fsz <= Bcs(g) * tcl && (fsz > 0 ==> tcl > 0 && Bcs(g) * (tcl - 1) < fsz)
  {
    var n := Bcs(g);
    assert fsz == n * (fsz / n) + fsz % n && n * (fsz / n + 1) == n * (fsz / n) + n && n * (fsz / n - 1) == n * (fsz / n) - n;
    fsz / n + (if fsz % n != 0 then 1 else 0)
  }

  // f_expand. On success with opt the empty file becomes one contiguous chain of
  // clusters that were all free. Unlike the other calls it never latches an error.
  method Expand(fp: Fil, fsz: nat, opt: bool) returns (res: FResult)
    requires fp.Valid() && fsz <= 0xFFFF_FFFF
    modifies fp`sclust, fp`objsize, fp`modified, fp`chain, fp`secs, fp`img, fp.fs, fp.fs.disk, fp.fs.win
    ensures fp.Valid()
    ensures Spares(old(fp.fs.fat), fp.fs.fat, [])
    ensures SameBut(fp.fs.geo, old(fp.fs.logical), fp.fs.logical, [])
    ensures old(fp.err) != FR_OK ==> res == old(fp.err)
    ensures old(fp.err) == FR_OK && !old(fsz != 0 && fp.objsize == 0 && fp.writable) ==>
              res == FR_DENIED && fp.fs.fat == old(fp.fs.fat) && fp.chain == old(fp.chain) && fp.objsize == old(fp.objsize)
    ensures old(fp.err) == FR_OK && old(fsz != 0 && fp.objsize == 0 && fp.writable) ==>
              Searched(fp, ClustersFor(fp.fs.geo, fsz), res, opt)
    ensures res == FR_OK ==> fp.objsize == if opt then fsz else 0
    ensures fp.modified == (old(fp.modified) || (res == FR_OK && opt))
    ensures !(res == FR_OK && opt) ==> fp.chain == old(fp.chain) && fp.secs == old(fp.secs) && fp.img == old(fp.img)
    ensures !(res == FR_OK && opt) ==> fp.objsize == old(fp.objsize)
    ensures res == FR_OK && old(FreeOk(fp.fs.freeClst, fp.fs.fat)) ==> FreeOk(fp.fs.freeClst, fp.fs.fat)
  {
    hide FatFs.Valid, Shape, OwnOk, ImgOk, FreeRun, NoRun, FirstRun, FreeOk, Linked, Run, Wrapped, TornLinks, HasOne, SameBut, Spares;
    SparesSame(fp.fs.fat, []);
    SameButNone(fp.fs.geo, fp.fs.logical, []);
    if fp.err != FR_OK { return fp.err; }
    if fsz == 0 || fp.objsize != 0 || !fp.writable { return FR_DENIED; }
    var tcl := ClustersFor(fp.fs.geo, fsz);
    var stcl := fp.fs.lastClst;
    TableSize(fp.fs);
    if stcl < 2 || stcl >= fp.fs.geo.nFatent { stcl := 2; }
    TableHasClusters(fp.fs);
    var scl;
    res, scl := FindRun(fp.fs, stcl, tcl);
    KeptIsSame(fp.fs);
    ghost var mid := fp.fs.logical;
    FatReadKeepsCore(fp);
    if res == FR_OK {
      if opt {
        res := AllocateRun(fp, fsz, scl, tcl);
        SameButTwice(fp.fs.geo, old(fp.fs.logical), mid, fp.fs.logical, [], []);
      } else {
        fp.fs.lastClst := scl - 1;
      }
    }
  }

  lemma TableHasClusters(fs: FatFs)
    requires fs.Valid()
    ensures |fs.fat| > 2
  {
  }

  // The first run wraps, and was linked up to the end of the FAT.
  ghost predicate FoundWrapped(fs: FatFs, f: seq<nat>, start: nat, tcl: nat)
    requires |f| > 2
    reads fs`fat
  {
    exists scl: nat :: FirstRun(f, start, tcl, scl) && Wrapped(fs, f, scl, tcl)
  }

  // Linking the first run was cut short by a device failure.
  ghost predicate Torn(fs: FatFs, f: seq<nat>, start: nat, tcl: nat)
    requires |f| > 2
    reads fs`fat
  {
    exists scl: nat, m: nat :: FirstRun(f, start, tcl, scl) && TornLinks(f, fs.fat, scl, tcl, m, Eoc(fs))
  }

  // What f_expand's search found and did.
  twostate predicate Searched(fp: Fil, tcl: nat, res: FResult, opt: bool)
    reads fp, fp.fs, fp.fs.disk
  {
    var f := old(fp.fs.fat);
    var start := if 2 <= old(fp.fs.lastClst) < |f| then old(fp.fs.lastClst) else 2;
    && |f| > 2 && res in {FR_OK, FR_DISK_ERR, FR_INT_ERR, FR_DENIED}
    && (res == FR_OK ==> !NoRun(f, start, |f| - 2, tcl))
    && (res == FR_OK && opt ==> Expanded(fp, fp.sclust, tcl) && FirstRun(f, start, tcl, fp.sclust))
    && (res == FR_OK && !opt ==> fp.fs.fat == f && FirstRun(f, start, tcl, fp.fs.lastClst + 1))
    && (res == FR_DENIED ==> fp.fs.fat == f && NoRun(f, start, |f| - 2, tcl))
    && (res == FR_INT_ERR ==> fp.fs.freeClst == old(fp.fs.freeClst)
                              && ((fp.fs.fat == f && HasOne(f)) || (opt && FoundWrapped(fp.fs, f, start, tcl))))
    && (res == FR_DISK_ERR ==> fp.fs.disk.faults > old(fp.fs.disk.faults)
                               && (fp.fs.fat == f || (opt && Torn(fp.fs, f, start, tcl))))
  }

  // A successful allocation is one of the operations on the set of chains.
  lemma ExpandedIsApply(f: seq<nat>, cs: set<seq<nat>>, scl: nat, tcl: nat, eoc: nat)
    requires Chains(f, cs) && 2 <= scl && 0 < tcl && scl + tcl <= |f| && eoc >= |f|
    requires forall c :: scl <= c < scl + tcl ==> f[c] == 0
    ensures Enabled(f, cs, Chain.Expand(scl, tcl)) && Linked(f, scl, tcl, eoc) == Apply(f, cs, Chain.Expand(scl, tcl), eoc)
    ensures Chains(Linked(f, scl, tcl, eoc), cs + {Run(scl, tcl)})
  {
    hide Chains, Linked, Run;
    ApplyKeepsChains(f, cs, Chain.Expand(scl, tcl), eoc);
  }
}
