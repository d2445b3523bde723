/** Two files open on one volume (thirdparty/fatfs/ff.c): whatever a write, a seek, a
    truncation or an allocation of one does, and whether it succeeds or not, the other keeps
    its clusters and its bytes. */
module FileShare {
  import opened Disk
  import opened FatLayout
  import opened Window
  import opened Chain
  import opened ChainOps
  import opened FileMap
  import opened File
  import opened FileWrite
  import opened FileSeek
  import opened FileResize
  import opened FileExpand

  // Two chains of one FAT, not the same unless there are no clusters in them.
  ghost predicate Apart(f: seq<nat>, cs: set<seq<nat>>, s: seq<nat>, t: seq<nat>) {
    Chains(f, cs) && AsSet(s) <= cs && AsSet(t) <= cs && (s != t || t == [])
  }

  // No cluster of the other chain is among those the first one has or gains.
  lemma ClustersApart(g: Geometry, a: Extent, b: Extent, cs: set<seq<nat>>, t: seq<nat>)
    requires Around(g, a, b) && Apart(a.fat, cs, a.chain, t)
    ensures forall c :: c in t ==> c !in b.chain && 2 <= c < |a.fat| && a.fat[c] != 0 && b.fat[c] == a.fat[c]
  {
    forall c | c in t ensures c !in b.chain && 2 <= c < |a.fat| && a.fat[c] != 0 {
      assert t in cs;
      var i :| 0 <= i < |t| && t[i] == c;
      AllocatedInChain(a.fat, t, i);
      assert c !in a.chain by { NotShared(a.fat, cs, a.chain, t, c); }
    }
  }

  lemma NotShared(f: seq<nat>, cs: set<seq<nat>>, s: seq<nat>, t: seq<nat>, c: nat)
    requires Apart(f, cs, s, t) && c in t
    ensures c !in s
  {
    assert t in cs && (s != [] ==> s in cs);
  }

  lemma OtherChainStays(g: Geometry, a: Extent, b: Extent, cs: set<seq<nat>>, t: seq<nat>)
    requires Around(g, a, b) && Apart(a.fat, cs, a.chain, t) && t != []
    ensures IsChain(b.fat, t)
  {
    hide IsChain, Chains;
    ClustersApart(g, a, b, cs, t);
    assert IsChain(a.fat, t) by { ChainInSet(a.fat, cs, t); }
    ChainKept(a.fat, b.fat, t);
  }

  lemma ChainInSet(f: seq<nat>, cs: set<seq<nat>>, t: seq<nat>)
    requires Chains(f, cs) && AsSet(t) <= cs && t != []
    ensures IsChain(f, t)
  {
    assert t in cs;
  }

  // Nor is any of its sectors.
  lemma SectorsApart(g: Geometry, chain: seq<nat>, secs: seq<nat>, t: seq<nat>, tsecs: seq<nat>, k: nat)
    requires g.DataOk() && SecsOf(g, chain, secs) && SecsOf(g, t, tsecs) && k < |tsecs|
    requires forall c :: c in t ==> c !in chain
    ensures tsecs[k] !in secs
  {
    assert tsecs[k] == SectorAt(g, t, k) && t[k / g.csize] in t;
    forall m: nat | m < |secs| ensures secs[m] != tsecs[k] {
      assert secs[m] == SectorAt(g, chain, m) && chain[m / g.csize] in chain;
      SectorsDiffer(g, t[k / g.csize], k % g.csize, chain[m / g.csize], m % g.csize);
    }
  }

  lemma SectorsDiffer(g: Geometry, c: nat, j: nat, d: nat, i: nat)
    requires g.DataOk() && j < g.csize && i < g.csize && c != d
    ensures SectorOf(g, c, j) != SectorOf(g, d, i)
  {
    if SectorOf(g, c, j) == SectorOf(g, d, i) { SectorOfInjective(g, c, j, d, i); }
  }

  // Its sectors are in the data area.
  lemma SectorInData(g: Geometry, f: seq<nat>, t: seq<nat>, tsecs: seq<nat>, k: nat)
    requires g.DataOk() && |f| == g.nFatent && SecsOf(g, t, tsecs) && k < |tsecs|
    requires forall c :: c in t ==> 2 <= c < |f|
    ensures g.database <= tsecs[k] < g.volend
  {
    assert tsecs[k] == SectorAt(g, t, k) && t[k / g.csize] in t;
    SectorOfInData(g, t[k / g.csize], k % g.csize);
  }

  // The other file is where it was, and its sectors hold what they held.
  lemma OtherFileStays(g: Geometry, a: Extent, b: Extent, cs: set<seq<nat>>, sclust: nat, t: seq<nat>, tsecs: seq<nat>)
    requires g.Ok() && g.DataOk() && g.Fits(|a.logical|) && |a.fat| == g.nFatent && SecsOf(g, a.chain, a.secs)
    requires Around(g, a, b) && Apart(a.fat, cs, a.chain, t) && Shape(g, a.fat, sclust, t, tsecs)
    ensures Shape(g, b.fat, sclust, t, tsecs)
    ensures |b.logical| == |a.logical|
    ensures forall k :: 0 <= k < |tsecs| ==> tsecs[k] < |b.logical| && b.logical[tsecs[k]] == a.logical[tsecs[k]]
  {
    hide SecsOf, IsChain, Apart;
    ClustersApart(g, a, b, cs, t);
    if t != [] { OtherChainStays(g, a, b, cs, t); }
    forall k | 0 <= k < |tsecs| ensures tsecs[k] < |b.logical| && b.logical[tsecs[k]] == a.logical[tsecs[k]] {
      SectorsApart(g, b.chain, b.secs, t, tsecs, k);
      SectorInData(g, a.fat, t, tsecs, k);
    }
  }

  // The file's clusters are its own and the disk, with a pending buffer, holds its bytes.
  ghost predicate Intact(fq: Fil)
    requires fq.buf.Length == SS && fq.fs.geo.csize > 0
    reads fq`sclust, fq`sect, fq`dirty, fq`chain, fq`secs, fq`img, fq.buf, fq.fs`logical, fq.fs`fat
  {
    && Shape(fq.fs.geo, fq.fs.fat, fq.sclust, fq.chain, fq.secs)
    && ImgOk(fq.fs.logical, fq.secs, fq.dirty, fq.sect, fq.buf[..], fq.img)
  }

  lemma OtherImageStays(l: seq<Sector>, l': seq<Sector>, secs: seq<nat>, dirty: bool, sect: nat, b: seq<Byte>, img: seq<Sector>)
    requires |b| == SS && ImgOk(l, secs, dirty, sect, b, img)
    requires |l'| == |l| && forall k :: 0 <= k < |secs| ==> secs[k] < |l| ==> l'[secs[k]] == l[secs[k]]
    ensures ImgOk(l', secs, dirty, sect, b, img)
  {
    forall k | 0 <= k < |img| ensures secs[k] < |l'| && img[k] == if dirty && secs[k] == sect then b else l'[secs[k]] {
      var held := img[k];
    }
  }

  // Two open files that share a volume but no buffer.
  ghost predicate Share(fp: Fil, fq: Fil, cs: set<seq<nat>>)
    reads fp`chain, fq`chain, fp.fs`fat
  {
    fq != fp && fq.fs == fp.fs && fq.buf != fp.buf && Apart(fp.fs.fat, cs, fp.chain, fq.chain)
  }

  lemma PlaceOf(fp: Fil)
    requires fp.Core()
    ensures fp.fs.Valid() && fp.fs.geo.Ok() && fp.fs.geo.DataOk()
    ensures fp.fs.geo.Fits(|fp.fs.logical|) && |fp.fs.fat| == fp.fs.geo.nFatent
    ensures SecsOf(fp.fs.geo, fp.chain, fp.secs) && Shape(fp.fs.geo, fp.fs.fat, fp.sclust, fp.chain, fp.secs)
    ensures OwnOk(fp.fs.geo, fp.fs.fat, fp.secs, fp.own) && fp.fs.winsect !in fp.own
    ensures fp.buf.Length == SS && fp.buf != fp.fs.win && |fp.img| == |fp.secs|
    ensures fp.objsize <= SS * |fp.img| && fp.objsize <= 0xFFFF_FFFF
    ensures ImgOk(fp.fs.logical, fp.secs, fp.dirty, fp.sect, fp.buf[..], fp.img)
    ensures fp.dirty ==> fp.sect in fp.secs
    ensures !fp.dirty && fp.sect in fp.secs ==> fp.sect < |fp.fs.logical| && (fp.sect != 0 ==> fp.buf[..] == fp.fs.logical[fp.sect])
  {
  }

  lemma WindowStays(g: Geometry, f: seq<nat>, a: Extent, b: Extent, secs: seq<nat>, own: set<nat>)
    requires g.Ok() && Around(g, a, b) && a.window !in own && OwnOk(g, f, secs, own) && g.volend < NO_SECTOR
    ensures b.window !in own
  {
  }

  lemma StillApart(g: Geometry, a: Extent, b: Extent, cs: set<seq<nat>>, t: seq<nat>)
    requires Around(g, a, b) && Apart(a.fat, cs, a.chain, t) && ChainsStay(a.fat, a.chain, b.fat, b.chain)
    ensures Apart(b.fat, cs - AsSet(a.chain) + AsSet(b.chain), b.chain, t)
  {
    hide Chains;
    ClustersApart(g, a, b, cs, t);
    if t != [] { assert t[0] in t; }
  }

  // Clusters that are free now were free before, so the other file still owns them.
  lemma OwnStays(g: Geometry, n: nat, n': nat, a: Extent, b: Extent, secs: seq<nat>, own: set<nat>)
    requires StretchedTo(a.chain, a.fat, n, b.chain, b.fat, n') && (b.chain != [] ==> IsChain(b.fat, b.chain))
    requires OwnOk(g, a.fat, secs, own)
    ensures OwnOk(g, b.fat, secs, own)
  {
    forall c | 2 <= c < |b.fat| && b.fat[c] == 0 ensures a.fat[c] == 0 {
      forall i | 0 <= i < |b.chain| ensures b.chain[i] != c { AllocatedInChain(b.fat, b.chain, i); }
    }
  }

  lemma SectorStays(secs: seq<nat>, l: seq<Sector>, l': seq<Sector>, sect: nat)
    requires |l'| == |l| && forall k :: 0 <= k < |secs| ==> secs[k] < |l| && l'[secs[k]] == l[secs[k]]
    ensures sect in secs ==> sect < |l| && l'[sect] == l[sect]
  {
  }

  // f_write beside another open file. Whatever its outcome, the other file keeps its
  // clusters and its bytes; after a success it can go on.
  method WriteBeside(fp: Fil, fq: Fil, wbuff: seq<Byte>, ghost cs: set<seq<nat>>) returns (res: FResult, bw: nat)
    requires fp.Valid() && fp.err == FR_OK && fp.writable && |wbuff| <= 0xFFFF_FFFF
    requires fq.Core() && Share(fp, fq, cs) && (fq.sect != 0 ==> fq.sect in fq.secs)
    modifies fp`clust, fp`sclust, fp`chain, fp`secs, fp`img, fp`dirty, fp`sect, fp`fptr, fp`objsize, fp`modified, fp`err
    modifies fp.buf, fp.fs, fp.fs.disk, fp.fs.win
    ensures fp.Valid() && fp.fs.Valid() && Intact(fq) && fq.Data() == old(fq.Data())
    ensures res == FR_OK ==> fq.Core() && Share(fp, fq, cs - AsSet(old(fp.chain)) + AsSet(fp.chain))
  {
    hide FatFs.Valid, OwnOk, ImgOk, Shape, Around, Apart, StretchedTo, TookFree, ChainsStay, NoneFree, FreeOk, Wrote, SecsOf;
    ghost var g, a, n := fp.fs.geo, fp.Place(), fp.fs.freeClst;
    PlaceOf(fp);
    PlaceOf(fq);
    res, bw := Write(fp, wbuff);
    OtherFileStays(g, a, fp.Place(), cs, fq.sclust, fq.chain, fq.secs);
    OtherImageStays(a.logical, fp.fs.logical, fq.secs, fq.dirty, fq.sect, fq.buf[..], fq.img);
    if res == FR_OK {
      OtherGoesOn(fp, fq, g, a, n, cs);
    }
  }

  // The other file after a success.
  lemma OtherGoesOn(fp: Fil, fq: Fil, g: Geometry, a: Extent, n: nat, cs: set<seq<nat>>)
    requires fp.Core() && fq != fp && fq.fs == fp.fs && fq.buf != fp.buf && g == fp.fs.geo
    requires g.Ok() && g.volend < NO_SECTOR && Around(g, a, fp.Place())
    requires StretchedTo(a.chain, a.fat, n, fp.chain, fp.fs.fat, fp.fs.freeClst)
    requires Apart(a.fat, cs, a.chain, fq.chain) && ChainsStay(a.fat, a.chain, fp.fs.fat, fp.chain)
    requires OwnOk(g, a.fat, fq.secs, fq.own) && a.window !in fq.own
    requires fq.buf.Length == SS && fq.buf != fq.fs.win
    requires fq.objsize <= SS * |fq.img| && fq.objsize <= 0xFFFF_FFFF && |fq.img| == |fq.secs|
    requires Intact(fq) && (fq.dirty ==> fq.sect in fq.secs) && (fq.sect != 0 ==> fq.sect in fq.secs)
    requires |a.logical| == |fp.fs.logical|
    requires forall k :: 0 <= k < |fq.secs| ==> fq.secs[k] < |a.logical| && fp.fs.logical[fq.secs[k]] == a.logical[fq.secs[k]]
    requires !fq.dirty && fq.sect != 0 ==> fq.sect < |a.logical| && fq.buf[..] == a.logical[fq.sect]
    ensures fq.Core() && Share(fp, fq, cs - AsSet(a.chain) + AsSet(fp.chain))
  {
    hide FatFs.Valid, ImgOk, Around, Apart, StretchedTo, ChainsStay, IsChain, SecsOf;
    PlaceOf(fp);
    StillApart(g, a, fp.Place(), cs, fq.chain);
    WindowStays(g, a.fat, a, fp.Place(), fq.secs, fq.own);
    OwnStays(g, n, fp.fs.freeClst, a, fp.Place(), fq.secs, fq.own);
    SectorStays(fq.secs, a.logical, fp.fs.logical, fq.sect);
  }

  // f_lseek beside another open file.
  method SeekBeside(fp: Fil, fq: Fil, ofs: nat, ghost cs: set<seq<nat>>) returns (res: FResult)
    requires fp.Valid() && fp.err == FR_OK && ofs <= 0xFFFF_FFFF
    requires fq.Core() && Share(fp, fq, cs) && (fq.sect != 0 ==> fq.sect in fq.secs)
    modifies fp`clust, fp`sclust, fp`chain, fp`secs, fp`img, fp`dirty, fp`sect, fp`fptr, fp`objsize, fp`modified, fp`err
    modifies fp.buf, fp.fs, fp.fs.disk, fp.fs.win
    ensures fp.Valid() && fp.fs.Valid() && Intact(fq) && fq.Data() == old(fq.Data())
    ensures res == FR_OK ==> fq.Core() && Share(fp, fq, cs - AsSet(old(fp.chain)) + AsSet(fp.chain))
  {
    hide FatFs.Valid, OwnOk, ImgOk, Shape, Around, Apart, StretchedTo, TookFree, ChainsStay, NoneFree, FreeOk, Landed, EndsHere, SecsOf;
    ghost var g, a, n := fp.fs.geo, fp.Place(), fp.fs.freeClst;
    PlaceOf(fp);
    PlaceOf(fq);
    res := Lseek(fp, ofs);
    OtherFileStays(g, a, fp.Place(), cs, fq.sclust, fq.chain, fq.secs);
    OtherImageStays(a.logical, fp.fs.logical, fq.secs, fq.dirty, fq.sect, fq.buf[..], fq.img);
    if res == FR_OK {
      OtherGoesOn(fp, fq, g, a, n, cs);
    }
  }

  // -- Calls that shorten the chain or replace it --

  lemma PlaceStays(g: Geometry, l: seq<Sector>, f: seq<nat>, l': seq<Sector>, f': seq<nat>, chain: seq<nat>, secs: seq<nat>,
                   cs: set<seq<nat>>, sclust: nat, t: seq<nat>, tsecs: seq<nat>)
    requires g.Ok() && g.DataOk() && g.Fits(|l|) && |f| == g.nFatent && SecsOf(g, chain, secs)
    requires Apart(f, cs, chain, t) && SameBut(g, l, l', secs) && Spares(f, f', chain) && Shape(g, f, sclust, t, tsecs)
    ensures Shape(g, f', sclust, t, tsecs)
    ensures |l'| == |l| && forall k :: 0 <= k < |tsecs| ==> tsecs[k] < |l| && l'[tsecs[k]] == l[tsecs[k]]
  {
    hide SecsOf, Apart;
    forall c | c in t ensures c !in chain && 2 <= c < |f| && f'[c] == f[c] {
      NotShared(f, cs, chain, t, c);
      var i :| 0 <= i < |t| && t[i] == c;
      AllocatedInChain(f, t, i);
    }
    if t != [] { ChainKept(f, f', t); }
    forall k | 0 <= k < |tsecs| ensures tsecs[k] < |l| && l'[tsecs[k]] == l[tsecs[k]] {
      SectorsApart(g, chain, secs, t, tsecs, k);
      SectorInData(g, f, t, tsecs, k);
    }
  }

  // What the other file needs to be consistent again.
  lemma CoreAgain(fq: Fil, l: seq<Sector>)
    requires fq.fs.Valid() && fq.fs.geo.DataOk() && fq.buf.Length == SS && fq.buf != fq.fs.win
    requires Intact(fq) && OwnOk(fq.fs.geo, fq.fs.fat, fq.secs, fq.own) && fq.fs.winsect !in fq.own
    requires |fq.img| == |fq.secs| && fq.objsize <= SS * |fq.img| && fq.objsize <= 0xFFFF_FFFF
    requires (fq.dirty ==> fq.sect in fq.secs) && (fq.sect != 0 ==> fq.sect in fq.secs)
    requires |fq.fs.logical| == |l| && forall k :: 0 <= k < |fq.secs| ==> fq.secs[k] < |l| && fq.fs.logical[fq.secs[k]] == l[fq.secs[k]]
    requires !fq.dirty && fq.sect != 0 ==> fq.sect < |l| && fq.buf[..] == l[fq.sect]
    ensures fq.Core()
  {
    hide FatFs.Valid, ImgOk, Shape;
    SectorStays(fq.secs, l, fq.fs.logical, fq.sect);
  }

  // Clusters freed from a chain whose sectors the other file owns are its to take.
  lemma OwnAfterCut(g: Geometry, f: seq<nat>, f': seq<nat>, chain: seq<nat>, secs: seq<nat>, tsecs: seq<nat>, own: set<nat>)
    requires g.DataOk() && SecsOf(g, chain, secs) && OwnOk(g, f, tsecs, own) && Spares(f, f', chain)
    requires forall s :: s in secs ==> s in own
    ensures OwnOk(g, f', tsecs, own)
  {
    forall c, j | 2 <= c < |f'| && f'[c] == 0 && 0 <= j < g.csize ensures SectorOf(g, c, j) in own {
      if f[c] != 0 {
        var i :| 0 <= i < |chain| && chain[i] == c;
        SectorInSecs(g, chain, secs, i, j);
      }
    }
  }

  lemma ApartAfterCut(f: seq<nat>, cs: set<seq<nat>>, chain: seq<nat>, n: nat, eoc: nat, t: seq<nat>)
    requires Apart(f, cs, chain, t) && chain != [] && n <= |chain| && eoc >= |f| && forall c :: c in chain ==> c < |f|
    ensures Apart(CutAt(f, chain, n, eoc), cs - AsSet(chain) + AsSet(chain[..n]), chain[..n], t)
  {
    hide Chains, CutAt;
    CutIsApply(f, cs, chain, n, eoc);
    assert n > 0 ==> chain[..n] != [];
    if t != [] {
      NotShared(f, cs, chain, t, t[0]);
      assert chain[..n] != t by { if n > 0 { assert chain[..n][0] == chain[0] && chain[0] in chain; } }
    }
  }

  // f_truncate beside another open file that may take what it frees.
  method TruncateBeside(fp: Fil, fq: Fil, ghost cs: set<seq<nat>>) returns (res: FResult)
    requires fp.Valid() && fp.err == FR_OK && fp.writable
    requires fq.Core() && Share(fp, fq, cs) && (fq.sect != 0 ==> fq.sect in fq.secs)
    requires fq.own <= fp.own && forall s :: s in fp.secs ==> s in fq.own
    modifies fp`sclust, fp`objsize, fp`modified, fp`dirty, fp`chain, fp`secs, fp`img, fp`err, fp.fs, fp.fs.disk, fp.fs.win
    ensures fp.Valid() && fp.fs.Valid() && Intact(fq) && fq.Data() == old(fq.Data())
    ensures res == FR_OK ==> fq.Core() && Share(fp, fq, cs - AsSet(old(fp.chain)) + AsSet(fp.chain))
  {
    hide FatFs.Valid, OwnOk, ImgOk, Shape, Apart, FreeOk, SecsOf, SameBut, Spares, CutAt;
    ghost var g, l, f, chain, secs := fp.fs.geo, fp.fs.logical, fp.fs.fat, fp.chain, fp.secs;
    PlaceOf(fp);
    PlaceOf(fq);
    res := Truncate(fp);
    PlaceStays(g, l, f, fp.fs.logical, fp.fs.fat, chain, secs, cs, fq.sclust, fq.chain, fq.secs);
    OtherImageStays(l, fp.fs.logical, fq.secs, fq.dirty, fq.sect, fq.buf[..], fq.img);
    if res == FR_OK {
      PlaceOf(fp);
      OwnAfterCut(g, f, fp.fs.fat, chain, secs, fq.secs, fq.own);
      CoreAgain(fq, l);
      TrimmedApart(fp, f, cs, chain, Needed(g, old(fp.fptr)), old(fp.fptr >= fp.objsize), fq.chain);
    }
  }

  lemma TrimmedApart(fp: Fil, f: seq<nat>, cs: set<seq<nat>>, chain: seq<nat>, n: nat, same: bool, t: seq<nat>)
    requires fp.Core() && Apart(f, cs, chain, t) && |f| == |fp.fs.fat|
    requires if same then fp.chain == chain && fp.fs.fat == f
             else chain != [] && n <= |chain| && (forall c :: c in chain ==> c < |f|) && fp.chain == chain[..n]
                  && fp.fs.fat == CutAt(f, chain, n, Eoc(fp.fs))
    ensures Apart(fp.fs.fat, cs - AsSet(chain) + AsSet(fp.chain), fp.chain, t)
  {
    hide CutAt, FatFs.Valid;
    if same {
      assert cs - AsSet(chain) + AsSet(chain) == cs by { assert AsSet(chain) <= cs; }
    } else {
      TableSize(fp.fs);
      ApartAfterCut(f, cs, chain, n, Eoc(fp.fs), t);
    }
  }

  // f_expand beside another open file.
  method ExpandBeside(fp: Fil, fq: Fil, fsz: nat, opt: bool, ghost cs: set<seq<nat>>) returns (res: FResult)
    requires fp.Valid() && fp.err == FR_OK && fsz <= 0xFFFF_FFFF
    requires fq.Core() && Share(fp, fq, cs) && (fq.sect != 0 ==> fq.sect in fq.secs) && fq.own <= fp.own
    modifies fp`sclust, fp`objsize, fp`modified, fp`chain, fp`secs, fp`img, fp.fs, fp.fs.disk, fp.fs.win
    ensures fp.Valid() && fq.Core() && fq.Data() == old(fq.Data())
    ensures res == FR_OK ==> Share(fp, fq, if opt then cs + {fp.chain} else cs)
  {
    hide FatFs.Valid, OwnOk, ImgOk, Shape, Apart, FreeOk, SecsOf, SameBut, Spares, Linked, Run, FirstRun, NoRun, FoundWrapped, Torn;
    ghost var g, l, f, chain, secs := fp.fs.geo, fp.fs.logical, fp.fs.fat, fp.chain, fp.secs;
    PlaceOf(fp);
    PlaceOf(fq);
    res := FileExpand.Expand(fp, fsz, opt);
    PlaceOf(fp);
    SameButMore(g, l, fp.fs.logical, secs);
    SparesMore(f, fp.fs.fat, chain);
    PlaceStays(g, l, f, fp.fs.logical, fp.fs.fat, chain, secs, cs, fq.sclust, fq.chain, fq.secs);
    OtherImageStays(l, fp.fs.logical, fq.secs, fq.dirty, fq.sect, fq.buf[..], fq.img);
    OwnAfterCut(g, f, fp.fs.fat, [], [], fq.secs, fq.own);
    CoreAgain(fq, l);
    if res == FR_OK && opt { ExpandedApart(fp.fs, f, cs, chain, fp.sclust, ClustersFor(g, fsz), fq.chain); }
  }

  lemma SparesMore(f: seq<nat>, f': seq<nat>, chain: seq<nat>)
    requires Spares(f, f', [])
    ensures Spares(f, f', chain)
  {
  }

  lemma ExpandedApart(fs: FatFs, f: seq<nat>, cs: set<seq<nat>>, chain: seq<nat>, scl: nat, tcl: nat, t: seq<nat>)
    requires fs.Valid() && Apart(f, cs, chain, t) && 2 <= scl && 0 < tcl && scl + tcl <= |f| == |fs.fat|
    requires (forall c :: scl <= c < scl + tcl ==> f[c] == 0) && fs.fat == Linked(f, scl, tcl, Eoc(fs))
    ensures Apart(fs.fat, cs + {Run(scl, tcl)}, Run(scl, tcl), t)
  {
    hide Chains, Linked, FatFs.Valid, IsChain;
    TableSize(fs);
    ExpandedIsApply(f, cs, scl, tcl, Eoc(fs));
    if t != [] {
      ChainInSet(f, cs, t);
      FirstIsUsed(f, t);
      assert Run(scl, tcl)[0] == scl;
    }
  }

  lemma FirstIsUsed(f: seq<nat>, t: seq<nat>)
    requires IsChain(f, t) && t != []
    ensures t[0] < |f| && f[t[0]] != 0
  {
    AllocatedInChain(f, t, 0);
  }
}
