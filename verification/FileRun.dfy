/** Runs of calls on several files of one volume (thirdparty/fatfs/ff.c: f_read, f_write,
    f_lseek, f_truncate, f_expand in any order, on any of the files): the FAT stays the chains
    of these files beside those of all others, and each file shows what its own calls alone
    make of it. */
module FileRun {
  import opened Disk
  import opened FatLayout
  import opened Window
  import opened Chain
  import opened ChainOps
  import opened FileMap
  import opened File
  import opened FileRead
  import opened FileWrite
  import opened FileSeek
  import opened FileResize
  import opened FileExpand
  import opened FileShare

  // -- The map from files to chains --

  // The chains of the files that have one.
  ghost function Opened(chs: seq<seq<nat>>): set<seq<nat>> {
    set i | 0 <= i < |chs| && chs[i] != [] :: chs[i]
  }

  // The FAT is the set of chains `rest` and, for the i-th file, the chain chs[i], each
  // another one. A file without clusters has none.
  ghost predicate Placed(f: seq<nat>, rest: set<seq<nat>>, chs: seq<seq<nat>>) {
    && Chains(f, rest + Opened(chs))
    && (forall i :: 0 <= i < |chs| ==> chs[i] !in rest)
    && (forall i, j :: 0 <= i < j < |chs| ==> chs[i] != chs[j] || chs[i] == [])
  }

  // A chain that replaces s starts where s does, or with a cluster that was free.
  ghost predicate Follows(f: seq<nat>, s: seq<nat>, t: seq<nat>) {
    t == [] || (s != [] && t[0] == s[0]) || (t[0] < |f| && f[t[0]] == 0)
  }

  lemma OpenedAfter(chs: seq<seq<nat>>, i: nat, t: seq<nat>)
    requires i < |chs| && forall j :: 0 <= j < |chs| && j != i ==> chs[j] != chs[i] || chs[j] == []
    ensures Opened(chs[i := t]) == Opened(chs) - AsSet(chs[i]) + AsSet(t)
  {
    var after := chs[i := t];
    forall u | u in Opened(after) ensures u in Opened(chs) - AsSet(chs[i]) + AsSet(t) {
      var j :| 0 <= j < |after| && after[j] != [] && after[j] == u;
      if j != i { assert chs[j] == u; }
    }
    forall u | u in Opened(chs) - AsSet(chs[i]) + AsSet(t) ensures u in Opened(after) {
      if u in AsSet(t) {
        assert after[i] == u;
      } else {
        var j :| 0 <= j < |chs| && chs[j] != [] && chs[j] == u;
        assert after[j] == u;
      }
    }
  }

  lemma FollowsIsNew(f: seq<nat>, cs: set<seq<nat>>, s: seq<nat>, t: seq<nat>, u: seq<nat>)
    requires Chains(f, cs) && AsSet(s) <= cs && Follows(f, s, t) && t != [] && u in cs && u != s
    ensures u != t
  {
    assert u != [] && u[0] in u;
    AllocatedInChain(f, u, 0);
    if s != [] { assert s[0] in s && s in cs; }
  }

  // One file's chain is replaced: the map follows.
  lemma PlacedAfter(f: seq<nat>, f': seq<nat>, rest: set<seq<nat>>, chs: seq<seq<nat>>, i: nat, t: seq<nat>)
    requires Placed(f, rest, chs) && i < |chs| && Follows(f, chs[i], t)
    requires Chains(f', rest + Opened(chs) - AsSet(chs[i]) + AsSet(t))
    ensures Placed(f', rest, chs[i := t])
  {
    hide Chains;
    var cs, after := rest + Opened(chs), chs[i := t];
    OpenedAfter(chs, i, t);
    assert cs - AsSet(chs[i]) + AsSet(t) == rest + Opened(after) by {
      assert chs[i] !in rest;
    }
    assert AsSet(chs[i]) <= cs;
    if t != [] {
      forall u | u in cs && u != chs[i] ensures u != t { FollowsIsNew(f, cs, chs[i], t, u); }
      forall j | 0 <= j < |chs| && j != i ensures chs[j] != t { if chs[j] != [] { assert chs[j] in cs; } }
    } else {
      NoEmptyChain(f', rest + Opened(after));
    }
  }

  lemma NoEmptyChain(f: seq<nat>, cs: set<seq<nat>>)
    requires Chains(f, cs)
    ensures [] !in cs
  {
  }

  // The i-th file's chain and any other.
  lemma PlacedApart(f: seq<nat>, rest: set<seq<nat>>, chs: seq<seq<nat>>, i: nat, j: nat)
    requires Placed(f, rest, chs) && i < |chs| && j < |chs| && i != j
    ensures Apart(f, rest + Opened(chs), chs[i], chs[j])
  {
    hide Chains;
  }

  lemma RestApart(f: seq<nat>, rest: set<seq<nat>>, chs: seq<seq<nat>>, i: nat, t: seq<nat>)
    requires Placed(f, rest, chs) && i < |chs| && t in rest
    ensures Apart(f, rest + Opened(chs), chs[i], t) && t != [] && IsChain(f, t)
  {
    hide IsChain;
    assert t in rest + Opened(chs);
    NoEmptyChain(f, rest + Opened(chs));
  }

  // -- The files a call leaves alone --

  // A file's place, buffer and bytes as values.
  datatype Shot = Shot(sclust: nat, objsize: nat, sect: nat, dirty: bool, chain: seq<nat>, secs: seq<nat>,
                       img: seq<Sector>, own: set<nat>, buf: seq<Byte>)

  ghost function Snap(fp: Fil): Shot
    reads fp, fp.buf
  {
    Shot(fp.sclust, fp.objsize, fp.sect, fp.dirty, fp.chain, fp.secs, fp.img, fp.own, fp.buf[..])
  }

  // It is consistent with the volume, and its buffer shows one of its own sectors.
  ghost predicate Sound(g: Geometry, e: Extent, s: Shot)
    requires g.csize > 0
  {
    && |s.buf| == SS && Shape(g, e.fat, s.sclust, s.chain, s.secs) && OwnOk(g, e.fat, s.secs, s.own)
    && e.window !in s.own
    && |s.img| == |s.secs| && s.objsize <= SS * |s.img| && s.objsize <= 0xFFFF_FFFF
    && (s.dirty ==> s.sect in s.secs) && (s.sect != 0 ==> s.sect in s.secs)
    && (!s.dirty && s.sect != 0 ==> s.sect < |e.logical| && s.buf == e.logical[s.sect])
    && ImgOk(e.logical, s.secs, s.dirty, s.sect, s.buf, s.img)
  }

  lemma CoreIsSound(fp: Fil)
    requires fp.Core() && fp.Shown()
    ensures Sound(fp.fs.geo, fp.Place(), Snap(fp))
  {
    PlaceOf(fp);
    hide Shape, OwnOk, ImgOk, FatFs.Valid, SecsOf;
  }

  lemma SoundIsCore(fp: Fil)
    requires fp.fs.Valid() && fp.fs.geo.DataOk() && fp.buf.Length == SS && fp.buf != fp.fs.win
    requires Sound(fp.fs.geo, fp.Place(), Snap(fp))
    ensures fp.Core() && fp.Shown()
  {
    hide FatFs.Valid, Shape, ImgOk;
  }

  // From a to b the file stays where it is and its sectors hold what they held.
  ghost predicate Stays(g: Geometry, a: Extent, b: Extent, s: Shot)
    requires g.csize > 0
  {
    && Shape(g, b.fat, s.sclust, s.chain, s.secs) && |b.logical| == |a.logical|
    && forall k :: 0 <= k < |s.secs| ==> s.secs[k] < |a.logical| && b.logical[s.secs[k]] == a.logical[s.secs[k]]
  }

  // So do the files that are not open: the sectors of the chains `rest`.
  ghost predicate RestStays(g: Geometry, l: seq<Sector>, l': seq<Sector>, rest: set<seq<nat>>)
    requires g.csize > 0
  {
    && |l'| == |l|
    && forall t, secs {:trigger SecsOf(g, t, secs)} :: t in rest && SecsOf(g, t, secs) ==>
         forall k :: 0 <= k < |secs| ==> secs[k] < |l| && l'[secs[k]] == l[secs[k]]
  }

  lemma RestStaysTwice(g: Geometry, l: seq<Sector>, l': seq<Sector>, l'': seq<Sector>, rest: set<seq<nat>>)
    requires g.csize > 0 && RestStays(g, l, l', rest) && RestStays(g, l', l'', rest)
    ensures RestStays(g, l, l'', rest)
  {
    hide SecsOf;
    forall t, secs | t in rest && SecsOf(g, t, secs)
      ensures forall k :: 0 <= k < |secs| ==> secs[k] < |l| && l''[secs[k]] == l[secs[k]]
    {
      forall k | 0 <= k < |secs| ensures secs[k] < |l| && l''[secs[k]] == l[secs[k]] {
        assert l'[secs[k]] == l[secs[k]];
      }
    }
  }

  ghost function ChainsOf(shots: seq<Shot>): (chs: seq<seq<nat>>)
    ensures |chs| == |shots| && forall i :: 0 <= i < |shots| ==> chs[i] == shots[i].chain
  {
    seq(|shots|, i requires 0 <= i < |shots| => shots[i].chain)
  }

  // Files that share a volume, the i-th of which is about to be called; a is its place.
  ghost predicate Sharing(g: Geometry, a: Extent, shots: seq<Shot>, i: nat, rest: set<seq<nat>>) {
    && g.Ok() && g.DataOk() && g.Fits(|a.logical|) && |a.fat| == g.nFatent
    && i < |shots| && shots[i].chain == a.chain && SecsOf(g, a.chain, a.secs)
    && (forall j :: 0 <= j < |shots| ==> Sound(g, a, shots[j]) && shots[j].own == shots[i].own)
    && Placed(a.fat, rest, ChainsOf(shots))
  }

  ghost predicate AllStay(g: Geometry, a: Extent, b: Extent, shots: seq<Shot>, i: nat, rest: set<seq<nat>>)
    requires g.csize > 0
  {
    && (forall j :: 0 <= j < |shots| && j != i ==> Stays(g, a, b, shots[j]))
    && RestStays(g, a.logical, b.logical, rest)
  }

  // A call that only lets the file grow.
  lemma AllStayAround(g: Geometry, a: Extent, b: Extent, shots: seq<Shot>, i: nat, rest: set<seq<nat>>)
    requires Sharing(g, a, shots, i, rest) && Around(g, a, b)
    ensures AllStay(g, a, b, shots, i, rest)
  {
    hide Around, Placed, Shape, SecsOf, OwnOk, ImgOk, Apart;
    var chs := ChainsOf(shots);
    var cs := rest + Opened(chs);
    forall j | 0 <= j < |shots| && j != i ensures Stays(g, a, b, shots[j]) {
      PlacedApart(a.fat, rest, chs, i, j);
      OtherFileStays(g, a, b, cs, shots[j].sclust, shots[j].chain, shots[j].secs);
    }
    assert |b.logical| == |a.logical| by { AroundSizes(g, a, b); }
    forall t, secs | t in rest && SecsOf(g, t, secs)
      ensures forall k :: 0 <= k < |secs| ==> secs[k] < |a.logical| && b.logical[secs[k]] == a.logical[secs[k]]
    {
      RestApart(a.fat, rest, chs, i, t);
      ClosedShape(g, a.fat, t, secs);
      OtherFileStays(g, a, b, cs, t[0], t, secs);
    }
  }

  lemma AroundSizes(g: Geometry, a: Extent, b: Extent)
    requires Around(g, a, b)
    ensures |b.logical| == |a.logical| && |b.fat| == |a.fat|
  {
  }

  lemma ClosedShape(g: Geometry, f: seq<nat>, t: seq<nat>, secs: seq<nat>)
    requires g.csize > 0 && t != [] && IsChain(f, t) && SecsOf(g, t, secs)
    ensures Shape(g, f, t[0], t, secs)
  {
    AllocatedInChain(f, t, 0);
  }

  // A call that cuts the chain, or replaces it where there was none.
  lemma AllStaySpared(g: Geometry, a: Extent, b: Extent, shots: seq<Shot>, i: nat, rest: set<seq<nat>>)
    requires Sharing(g, a, shots, i, rest) && SameBut(g, a.logical, b.logical, a.secs) && Spares(a.fat, b.fat, a.chain)
    ensures AllStay(g, a, b, shots, i, rest)
  {
    hide Placed, Shape, SecsOf, OwnOk, ImgOk, Apart, Spares;
    var chs := ChainsOf(shots);
    var cs := rest + Opened(chs);
    forall j | 0 <= j < |shots| && j != i ensures Stays(g, a, b, shots[j]) {
      var s := shots[j];
      PlacedApart(a.fat, rest, chs, i, j);
      PlaceStays(g, a.logical, a.fat, b.logical, b.fat, a.chain, a.secs, cs, s.sclust, s.chain, s.secs);
    }
    forall t, secs | t in rest && SecsOf(g, t, secs)
      ensures forall k :: 0 <= k < |secs| ==> secs[k] < |a.logical| && b.logical[secs[k]] == a.logical[secs[k]]
    {
      RestApart(a.fat, rest, chs, i, t);
      ClosedShape(g, a.fat, t, secs);
      PlaceStays(g, a.logical, a.fat, b.logical, b.fat, a.chain, a.secs, cs, t[0], t, secs);
    }
  }

  // A file that stayed is as consistent as before: what it may come to have is what the
  // called file may come to have.
  lemma SoundStays(g: Geometry, a: Extent, b: Extent, s: Shot)
    requires g.csize > 0 && Sound(g, a, s) && Stays(g, a, b, s)
    requires OwnOk(g, b.fat, b.secs, s.own) && b.window !in s.own
    ensures Sound(g, b, s)
  {
    hide Shape;
    OtherImageStays(a.logical, b.logical, s.secs, s.dirty, s.sect, s.buf, s.img);
    SectorStays(s.secs, a.logical, b.logical, s.sect);
  }

  // -- The files together --

  // No call on the file has failed, and its cursor is set. Without bytes it has no clusters.
  ghost predicate Poised(fs: FatFs, fp: Fil)
    reads fp
  {
    && fp.fs == fs && fs.geo.csize > 0 && fp.buf != fs.win && fp.err == FR_OK && fp.Cursor()
    && (fp.objsize == 0 ==> fp.chain == [])
  }

  ghost predicate Going(fs: FatFs, fp: Fil)
    reads fp, fp.buf, fs, fs.disk, fs.win
  {
    Poised(fs, fp) && fp.Core() && fp.Shown()
  }

  ghost predicate Distinct(files: seq<Fil>) {
    forall i, j :: 0 <= i < j < |files| ==> files[i] != files[j] && files[i].buf != files[j].buf
  }

  ghost function Shots(files: seq<Fil>): (shots: seq<Shot>)
    reads files, set fp | fp in files :: fp.buf
    ensures |shots| == |files| && forall i :: 0 <= i < |files| ==> shots[i] == Snap(files[i])
  {
    seq(|files|, i requires 0 <= i < |files| reads files, set fp | fp in files :: fp.buf => Snap(files[i]))
  }

  // Open files and the chains `rest` of all others make up the volume.
  ghost predicate Together(fs: FatFs, files: seq<Fil>, rest: set<seq<nat>>)
    reads fs, fs.disk, fs.win, files, set fp | fp in files :: fp.buf
  {
    && Distinct(files)
    && (forall i :: 0 <= i < |files| ==> Going(fs, files[i]) && files[i].own == files[0].own)
    && Placed(fs.fat, rest, ChainsOf(Shots(files)))
  }

  lemma Before(fs: FatFs, files: seq<Fil>, i: nat, rest: set<seq<nat>>)
    requires Together(fs, files, rest) && i < |files|
    ensures Sharing(fs.geo, files[i].Place(), Shots(files), i, rest)
    ensures forall j :: 0 <= j < |files| ==> Poised(fs, files[j])
  {
    hide Placed, Sound, OwnOk, FatFs.Valid, Shape, ImgOk, Fil.Core, SecsOf;
    var a, shots := files[i].Place(), Shots(files);
    PlaceOf(files[i]);
    forall j | 0 <= j < |shots| ensures Sound(fs.geo, a, shots[j]) && shots[j].own == shots[i].own {
      assert Going(fs, files[j]);
      CoreIsSound(files[j]);
      SoundElsewhere(fs.geo, files[j].Place(), a, shots[j]);
    }
  }

  lemma SoundElsewhere(g: Geometry, a: Extent, b: Extent, s: Shot)
    requires g.csize > 0 && Sound(g, a, s) && b.fat == a.fat && b.logical == a.logical && b.window == a.window
    ensures Sound(g, b, s)
  {
  }

  // After a call that succeeded the files are together again.
  lemma Regroup(fs: FatFs, files: seq<Fil>, i: nat, rest: set<seq<nat>>, a: Extent, shots: seq<Shot>)
    requires i < |files| == |shots| && Distinct(files) && Going(fs, files[i]) && files[i].own == shots[i].own
    requires Sharing(fs.geo, a, shots, i, rest) && AllStay(fs.geo, a, files[i].Place(), shots, i, rest)
    requires forall j :: 0 <= j < |files| && j != i ==> Poised(fs, files[j]) && Snap(files[j]) == shots[j]
    requires Placed(fs.fat, rest, ChainsOf(shots)[i := files[i].chain])
    ensures Together(fs, files, rest)
  {
    hide Placed, Sound, OwnOk, FatFs.Valid, Shape, ImgOk, Fil.Core, SecsOf, Stays, Fil.Cursor;
    var b := files[i].Place();
    PlaceOf(files[i]);
    forall j | 0 <= j < |files| && j != i ensures Going(fs, files[j]) {
      SoundStays(fs.geo, a, b, shots[j]);
      SoundElsewhere(fs.geo, b, files[j].Place(), shots[j]);
      SoundIsCore(files[j]);
    }
    assert ChainsOf(Shots(files)) == ChainsOf(shots)[i := files[i].chain];
  }

  // A call that grows a chain moves the map on.
  lemma PlacedGrown(f: seq<nat>, f': seq<nat>, rest: set<seq<nat>>, chs: seq<seq<nat>>, i: nat, t: seq<nat>)
    requires Placed(f, rest, chs) && i < |chs| && chs[i] <= t
    requires ChainsStay(f, chs[i], f', t) && TookFree(f, chs[i], t)
    ensures Placed(f', rest, chs[i := t])
  {
    hide Chains;
    PlacedAfter(f, f', rest, chs, i, t);
  }

  // A refused call, or one that reads, leaves it as it is.
  lemma PlacedSame(f: seq<nat>, rest: set<seq<nat>>, chs: seq<seq<nat>>, i: nat)
    requires Placed(f, rest, chs) && i < |chs|
    ensures Placed(f, rest, chs[i := chs[i]])
  {
    assert chs[i := chs[i]] == chs;
  }

  // What the called file's place says of its buffer and its chain.
  lemma AroundShown(g: Geometry, a: Extent, b: Extent)
    requires Around(g, a, b)
    ensures (a.shown ==> b.shown) && a.chain <= b.chain
  {
  }

  // -- What the user of a file sees --

  datatype View = View(data: seq<Byte>, pos: nat)

  datatype Call =
    ReadCall(count: nat) | WriteCall(bytes: seq<Byte>) | SeekCall(ofs: nat) | TruncateCall | ExpandCall(size: nat, opt: bool)

  // What a successful call does to the view, and the bytes it returns. How much of a write
  // fits, how far a seek stretches and what a stretched part holds is left open.
  ghost predicate Does(v: View, c: Call, got: seq<Byte>, v': View) {
    && v.pos <= |v.data|
    && match c
       case ReadCall(n) =>
         && v'.data == v.data && v'.pos == v.pos + FileRead.Min(n, |v.data| - v.pos)
         && got == v.data[v.pos..v'.pos]
       case WriteCall(w) =>
         && v.pos <= v'.pos <= v.pos + |w| && got == []
         && v'.data == Splice(v.data, v.pos, w[..v'.pos - v.pos])
       case SeekCall(ofs) =>
         && v'.pos <= ofs && v.data <= v'.data && |v'.data| == Max(|v.data|, v'.pos) && got == []
         && (ofs <= |v.data| ==> v'.pos == ofs)
       case TruncateCall =>
         v' == View(v.data[..v.pos], v.pos) && got == []
       case ExpandCall(size, opt) =>
         v'.pos == v.pos && got == [] && if opt then v.data == [] && |v'.data| == size else v'.data == v.data
  }

  // 32-bit sizes and offsets.
  predicate InWord(c: Call) {
    match c
    case ReadCall(n) => n <= 0xFFFF_FFFF
    case WriteCall(w) => |w| <= 0xFFFF_FFFF
    case SeekCall(ofs) => ofs <= 0xFFFF_FFFF
    case TruncateCall => true
    case ExpandCall(size, _) => size <= 0xFFFF_FFFF
  }

  ghost function ViewOf(fp: Fil): View
    reads fp`objsize, fp`img, fp`fptr
  {
    View(if fp.objsize <= SS * |fp.img| then fp.Data() else [], fp.fptr)
  }

  // A truncation that cannot give up the sector the file's buffer shows.
  predicate CutInside(fp: Fil)
    reads fp`fptr, fp`objsize, fp`sect
  {
    fp.fptr >= fp.objsize || fp.fptr % SS != 0 || fp.sect == 0
  }

  // The file is where it was, and the disk with a pending buffer holds its bytes.
  ghost predicate Holds(g: Geometry, f: seq<nat>, l: seq<Sector>, s: Shot)
    requires g.csize > 0
  {
    Shape(g, f, s.sclust, s.chain, s.secs) && |s.buf| == SS && ImgOk(l, s.secs, s.dirty, s.sect, s.buf, s.img)
  }

  lemma AllHold(g: Geometry, a: Extent, b: Extent, shots: seq<Shot>, i: nat, rest: set<seq<nat>>)
    requires Sharing(g, a, shots, i, rest) && AllStay(g, a, b, shots, i, rest)
    ensures RestStays(g, a.logical, b.logical, rest)
    ensures forall j :: 0 <= j < |shots| && j != i ==> Holds(g, b.fat, b.logical, shots[j])
  {
    hide Placed, Shape, ImgOk, OwnOk;
    forall j | 0 <= j < |shots| && j != i ensures Holds(g, b.fat, b.logical, shots[j]) {
      var s := shots[j];
      OtherImageStays(a.logical, b.logical, s.secs, s.dirty, s.sect, s.buf, s.img);
    }
  }

  // What a call on the i-th file does to the others, whatever its outcome: nothing.
  twostate predicate LeftAlone(fs: FatFs, files: seq<Fil>, i: nat, rest: set<seq<nat>>)
    reads fs, files, set fp | fp in files :: fp.buf
  {
    && fs.geo.csize > 0 && RestStays(fs.geo, old(fs.logical), fs.logical, rest)
    && forall j :: 0 <= j < |files| && j != i ==>
         && Snap(files[j]) == old(Snap(files[j])) && files[j].fptr == old(files[j].fptr)
         && Holds(fs.geo, fs.fat, fs.logical, Snap(files[j]))
  }

  // -- The calls --

  // What the calls below need of the file they are made on.
  lemma GoingIsValid(fs: FatFs, fp: Fil)
    requires Going(fs, fp)
    ensures fp.fs == fs && fs.Valid() && fs.geo.csize > 0 && fp.Valid() && fp.err == FR_OK && fp.buf != fs.win
    ensures fp.objsize <= SS * |fp.img| && fp.fptr <= fp.objsize <= 0xFFFF_FFFF && fp.Shown() && fp.Place().shown
    ensures (fp.objsize == 0 <==> fp.chain == []) && (fp.chain == [] ==> fp.secs == []) && fs.geo.DataOk()
  {
    PlaceOf(fp);
  }

  // The other files share no buffer with it.
  lemma Others(fs: FatFs, files: seq<Fil>, i: nat)
    requires Distinct(files) && i < |files| && forall j :: 0 <= j < |files| ==> Poised(fs, files[j])
    ensures forall j :: 0 <= j < |files| && j != i ==>
              files[j] != files[i] && files[j].buf != files[i].buf && files[j].buf != fs.win
  {
  }

  // What a call on the i-th file does: nothing to the others, whatever its outcome; after
  // a success the files are together again, and a refusal changes nothing.
  twostate predicate Outcome(fs: FatFs, files: seq<Fil>, i: nat, rest: set<seq<nat>>, res: FResult)
    requires i < |files|
    reads fs, fs.disk, fs.win, files, set fp | fp in files :: fp.buf
  {
    && LeftAlone(fs, files, i, rest)
    && (res == FR_OK || res == FR_DENIED ==> Together(fs, files, rest))
    && (res == FR_DENIED ==> ViewOf(files[i]) == old(ViewOf(files[i])))
  }

  // The called file goes on, and so do all of them together: its chain grew, or nothing
  // in the FAT changed.
  lemma GoOn(fs: FatFs, files: seq<Fil>, i: nat, rest: set<seq<nat>>, a: Extent, shots: seq<Shot>)
    requires i < |files| == |shots| && Distinct(files) && a.shown && files[i].own == shots[i].own
    requires files[i].fs == fs && files[i].Valid() && files[i].err == FR_OK && files[i].buf != fs.win
    requires files[i].objsize == 0 ==> files[i].chain == []
    requires Sharing(fs.geo, a, shots, i, rest) && Around(fs.geo, a, files[i].Place())
    requires forall j :: 0 <= j < |files| && j != i ==> Poised(fs, files[j]) && Snap(files[j]) == shots[j]
    requires (ChainsStay(a.fat, a.chain, fs.fat, files[i].chain) && TookFree(a.fat, a.chain, files[i].chain))
             || (fs.fat == a.fat && files[i].chain == a.chain)
    ensures Together(fs, files, rest) && files[i].objsize <= SS * |files[i].img|
  {
    hide FatFs.Valid, Placed, Sound, Shape, OwnOk, ImgOk, SecsOf, Fil.Core, Around, AllStay, ChainsStay, TookFree;
    AllStayAround(fs.geo, a, files[i].Place(), shots, i, rest);
    AroundShown(fs.geo, a, files[i].Place());
    IsGoing(fs, files[i]);
    if fs.fat == a.fat && files[i].chain == a.chain {
      PlacedSame(a.fat, rest, ChainsOf(shots), i);
    } else {
      PlacedGrown(a.fat, fs.fat, rest, ChainsOf(shots), i, files[i].chain);
    }
    Regroup(fs, files, i, rest, a, shots);
  }

  lemma IsGoing(fs: FatFs, fp: Fil)
    requires fp.fs == fs && fp.Valid() && fp.err == FR_OK && fp.buf != fs.win && fp.Place().shown
    requires fp.objsize == 0 ==> fp.chain == []
    ensures Going(fs, fp) && fp.objsize <= SS * |fp.img|
  {
  }

  // Before a call: what it needs of its file, and what the proofs after it need.
  lemma Ahead(fs: FatFs, files: seq<Fil>, i: nat, rest: set<seq<nat>>)
    requires Together(fs, files, rest) && i < |files|
    ensures Distinct(files) && Sharing(fs.geo, files[i].Place(), Shots(files), i, rest)
    ensures Shots(files)[i].own == files[i].own
    ensures files[i].fs == fs && files[i].Valid() && files[i].err == FR_OK && files[i].buf != fs.win
    ensures fs.Valid() && fs.geo.csize > 0 && files[i].Place().shown
    ensures files[i].objsize <= SS * |files[i].img| && files[i].fptr <= files[i].objsize <= 0xFFFF_FFFF
    ensures files[i].objsize == 0 <==> files[i].chain == []
    ensures fs.geo.DataOk() && (files[i].chain == [] ==> files[i].secs == [])
    ensures forall j :: 0 <= j < |files| ==> Poised(fs, files[j]) && Snap(files[j]) == Shots(files)[j]
    ensures forall j :: 0 <= j < |files| && j != i ==>
              files[j] != files[i] && files[j].buf != files[i].buf && files[j].buf != fs.win
  {
    hide FatFs.Valid, Placed, Sharing, Fil.Core;
    Before(fs, files, i, rest);
    GoingIsValid(fs, files[i]);
    Others(fs, files, i);
  }

  // After a call, whatever its outcome.
  lemma Behind(g: Geometry, a: Extent, b: Extent, shots: seq<Shot>, i: nat, rest: set<seq<nat>>)
    requires Sharing(g, a, shots, i, rest) && Around(g, a, b)
    ensures g.csize > 0 && RestStays(g, a.logical, b.logical, rest)
    ensures forall j :: 0 <= j < |shots| && j != i ==> Holds(g, b.fat, b.logical, shots[j])
  {
    hide Around, AllStay, Holds, RestStays, Sound, Placed, SecsOf;
    AllStayAround(g, a, b, shots, i, rest);
    AllHold(g, a, b, shots, i, rest);
  }

  method DoWrite(fs: FatFs, files: seq<Fil>, i: nat, w: seq<Byte>, ghost rest: set<seq<nat>>) returns (res: FResult)
    requires Together(fs, files, rest) && i < |files| && |w| <= 0xFFFF_FFFF
    modifies files[i], files[i].buf, fs, fs.disk, fs.win
    ensures Outcome(fs, files, i, rest, res)
    ensures res == FR_OK ==> Does(old(ViewOf(files[i])), WriteCall(w), [], ViewOf(files[i]))
  {
    hide FatFs.Valid, Sharing, Fil.Core, Fil.Cursor, Around, Holds, ChainsStay, TookFree, RestStays, Poised, Splice, Together, Distinct;
    hide Snap, Shots, Fil.Data, Content;
    var fp := files[i];
    ghost var a, shots := fp.Place(), Shots(files);
    Ahead(fs, files, i, rest);
    var bw;
    res, bw := Write(fp, w);
    Behind(fs.geo, a, fp.Place(), shots, i, rest);
    if res == FR_OK || res == FR_DENIED { GoOn(fs, files, i, rest, a, shots); }
  }

  // A place inside the file is always reached.
  lemma LandsInside(fp: Fil, target: nat)
    requires fp.Core() && Landed(fp, target)
    ensures target <= fp.objsize ==> fp.fptr == target
  {
    var g, n := fp.fs.geo, |fp.chain|;
    assert |fp.img| == g.csize * n;
    assert Bcs(g) * n == SS * (g.csize * n) by { MulAssoc(SS, g.csize, n); }
  }

  lemma MulAssoc(a: nat, b: nat, c: nat)
    ensures a * b * c == a * (b * c)
  {
  }

  method DoSeek(fs: FatFs, files: seq<Fil>, i: nat, ofs: nat, ghost rest: set<seq<nat>>) returns (res: FResult)
    requires Together(fs, files, rest) && i < |files| && ofs <= 0xFFFF_FFFF
    modifies files[i], files[i].buf, fs, fs.disk, fs.win
    ensures Outcome(fs, files, i, rest, res) && res != FR_DENIED
    ensures res == FR_OK ==> Does(old(ViewOf(files[i])), SeekCall(ofs), [], ViewOf(files[i]))
  {
    hide FatFs.Valid, Sharing, Fil.Core, Fil.Cursor, Around, Holds, ChainsStay, TookFree, RestStays, Poised, Together, Distinct;
    hide Snap, Shots, Fil.Data, Content;
    var fp := files[i];
    ghost var a, shots := fp.Place(), Shots(files);
    Ahead(fs, files, i, rest);
    res := Lseek(fp, ofs);
    Behind(fs.geo, a, fp.Place(), shots, i, rest);
    if res == FR_OK {
      GoOn(fs, files, i, rest, a, shots);
      LandsInside(fp, Target(old(fp.objsize), fp.writable, ofs));
    }
  }

  method DoRead(fs: FatFs, files: seq<Fil>, i: nat, n: nat, ghost rest: set<seq<nat>>) returns (res: FResult, got: seq<Byte>)
    requires Together(fs, files, rest) && i < |files|
    modifies files[i], files[i].buf, fs, fs.disk, fs.win
    ensures Outcome(fs, files, i, rest, res)
    ensures res == FR_OK ==> Does(old(ViewOf(files[i])), ReadCall(n), got, ViewOf(files[i]))
    ensures res == FR_DENIED ==> got == []
  {
    hide FatFs.Valid, Sharing, Fil.Core, Fil.Cursor, Around, Holds, RestStays, Poised, Together, Distinct;
    hide Snap, Shots, Fil.Data, Content;
    var fp := files[i];
    ghost var a, shots := fp.Place(), Shots(files);
    Ahead(fs, files, i, rest);
    var buff := new Byte[n];
    var br;
    res, br := Read(fp, buff, n);
    got := if br <= n then buff[..br] else [];
    Behind(fs.geo, a, fp.Place(), shots, i, rest);
    if res == FR_OK || res == FR_DENIED { GoOn(fs, files, i, rest, a, shots); }
  }

  // -- Truncation and allocation --

  lemma PlacedCut(fs: FatFs, f: seq<nat>, rest: set<seq<nat>>, chs: seq<seq<nat>>, i: nat, n: nat)
    requires fs.Valid() && Placed(f, rest, chs) && |f| == |fs.fat| && i < |chs| && chs[i] != [] && n <= |chs[i]|
    requires (forall c :: c in chs[i] ==> c < |f|) && fs.fat == CutAt(f, chs[i], n, Eoc(fs))
    ensures Placed(fs.fat, rest, chs[i := chs[i][..n]])
  {
    hide Chains, CutAt, FatFs.Valid;
    TableSize(fs);
    assert chs[i] in rest + Opened(chs);
    CutIsApply(f, rest + Opened(chs), chs[i], n, Eoc(fs));
    PlacedAfter(f, fs.fat, rest, chs, i, chs[i][..n]);
  }

  lemma PlacedRun(fs: FatFs, f: seq<nat>, rest: set<seq<nat>>, chs: seq<seq<nat>>, i: nat, scl: nat, tcl: nat)
    requires fs.Valid() && Placed(f, rest, chs) && i < |chs| && chs[i] == []
    requires 2 <= scl && 0 < tcl && scl + tcl <= |f| == |fs.fat| && forall c :: scl <= c < scl + tcl ==> f[c] == 0
    requires fs.fat == Linked(f, scl, tcl, Eoc(fs))
    ensures Placed(fs.fat, rest, chs[i := Run(scl, tcl)])
  {
    hide Chains, Linked, FatFs.Valid;
    TableSize(fs);
    ExpandedIsApply(f, rest + Opened(chs), scl, tcl, Eoc(fs));
    var cs := rest + Opened(chs);
    assert cs - {} + {Run(scl, tcl)} == cs + {Run(scl, tcl)};
    PlacedAfter(f, fs.fat, rest, chs, i, Run(scl, tcl));
  }

  // After such a call, whatever its outcome.
  lemma BehindCut(g: Geometry, a: Extent, b: Extent, shots: seq<Shot>, i: nat, rest: set<seq<nat>>)
    requires Sharing(g, a, shots, i, rest) && SameBut(g, a.logical, b.logical, a.secs) && Spares(a.fat, b.fat, a.chain)
    ensures g.csize > 0 && RestStays(g, a.logical, b.logical, rest) && AllStay(g, a, b, shots, i, rest)
    ensures forall j :: 0 <= j < |shots| && j != i ==> Holds(g, b.fat, b.logical, shots[j])
  {
    hide AllStay, Holds, RestStays, Sound, Placed, SecsOf, SameBut, Spares;
    AllStaySpared(g, a, b, shots, i, rest);
    AllHold(g, a, b, shots, i, rest);
  }

  // The files together again, once the map is known.
  lemma GoOnAt(fs: FatFs, files: seq<Fil>, i: nat, rest: set<seq<nat>>, a: Extent, shots: seq<Shot>)
    requires i < |files| == |shots| && Distinct(files) && files[i].own == shots[i].own
    requires files[i].fs == fs && files[i].Valid() && files[i].err == FR_OK && files[i].buf != fs.win
    requires files[i].Shown() && (files[i].objsize == 0 ==> files[i].chain == [])
    requires Sharing(fs.geo, a, shots, i, rest) && AllStay(fs.geo, a, files[i].Place(), shots, i, rest)
    requires forall j :: 0 <= j < |files| && j != i ==> Poised(fs, files[j]) && Snap(files[j]) == shots[j]
    requires Placed(fs.fat, rest, ChainsOf(shots)[i := files[i].chain])
    ensures Together(fs, files, rest) && files[i].objsize <= SS * |files[i].img|
  {
    hide FatFs.Valid, Placed, Sound, Shape, OwnOk, ImgOk, SecsOf, Fil.Core, AllStay;
    IsGoing(fs, files[i]);
    Regroup(fs, files, i, rest, a, shots);
  }

  method DoTruncate(fs: FatFs, files: seq<Fil>, i: nat, ghost rest: set<seq<nat>>) returns (res: FResult)
    requires Together(fs, files, rest) && i < |files| && CutInside(files[i])
    modifies files[i], files[i].buf, fs, fs.disk, fs.win
    ensures Outcome(fs, files, i, rest, res)
    ensures res == FR_OK ==> Does(old(ViewOf(files[i])), TruncateCall, [], ViewOf(files[i]))
  {
    hide FatFs.Valid, Sharing, Fil.Core, Holds, RestStays, Poised, Together, Distinct, AllStay, SameBut, Spares, Placed, CutAt;
    hide Snap, Shots, Fil.Data, Content;
    var fp := files[i];
    ghost var a, shots := fp.Place(), Shots(files);
    Ahead(fs, files, i, rest);
    SharingKnown(fs.geo, a, shots, i, rest);
    res := Truncate(fp);
    BehindCut(fs.geo, a, fp.Place(), shots, i, rest);
    if res == FR_OK || res == FR_DENIED {
      SpareSize(a.fat, fs.fat, a.chain);
      if fp.chain == a.chain && fs.fat == a.fat {
        PlacedSame(a.fat, rest, ChainsOf(shots), i);
      } else {
        PlacedCut(fs, a.fat, rest, ChainsOf(shots), i, Needed(fs.geo, fp.fptr));
      }
      GoOnAt(fs, files, i, rest, a, shots);
    }
  }

  lemma SpareSize(f: seq<nat>, f': seq<nat>, chain: seq<nat>)
    requires Spares(f, f', chain)
    ensures |f'| == |f|
  {
  }

  lemma SharingKnown(g: Geometry, a: Extent, shots: seq<Shot>, i: nat, rest: set<seq<nat>>)
    requires Sharing(g, a, shots, i, rest)
    ensures i < |shots| && shots[i].chain == a.chain && Placed(a.fat, rest, ChainsOf(shots))
  {
  }

  method DoExpand(fs: FatFs, files: seq<Fil>, i: nat, size: nat, opt: bool, ghost rest: set<seq<nat>>) returns (res: FResult)
    requires Together(fs, files, rest) && i < |files| && size <= 0xFFFF_FFFF
    modifies files[i], files[i].buf, fs, fs.disk, fs.win
    ensures Outcome(fs, files, i, rest, res)
    ensures res == FR_OK ==> Does(old(ViewOf(files[i])), ExpandCall(size, opt), [], ViewOf(files[i]))
  {
    hide FatFs.Valid, Sharing, Fil.Core, Holds, RestStays, Poised, Together, Distinct, AllStay, SameBut, Spares, Placed;
    hide Linked, Run, FirstRun, NoRun, FoundWrapped, Torn, Fil.Cursor;
    hide Snap, Shots, Fil.Data, Content;
    var fp := files[i];
    ghost var a, shots := fp.Place(), Shots(files);
    Ahead(fs, files, i, rest);
    SharingKnown(fs.geo, a, shots, i, rest);
    res := FileExpand.Expand(fp, size, opt);
    SameButMore(fs.geo, a.logical, fs.logical, a.secs);
    SparesMore(a.fat, fs.fat, a.chain);
    BehindCut(fs.geo, a, fp.Place(), shots, i, rest);
    if res == FR_OK || res == FR_DENIED {
      SpareSize(a.fat, fs.fat, a.chain);
      SizeFits(fp);
      if res == FR_OK && opt {
        PlacedRun(fs, a.fat, rest, ChainsOf(shots), i, fp.sclust, ClustersFor(fs.geo, size));
      } else {
        PlacedSame(a.fat, rest, ChainsOf(shots), i);
      }
      GoOnAt(fs, files, i, rest, a, shots);
    }
  }

  ghost function Views(files: seq<Fil>): (vs: seq<View>)
    reads files
    ensures |vs| == |files| && forall i :: 0 <= i < |files| ==> vs[i] == ViewOf(files[i])
  {
    seq(|files|, i requires 0 <= i < |files| reads files => ViewOf(files[i]))
  }

  // Only the called file's user sees a change.
  twostate lemma OthersSee(call: (FatFs, seq<Fil>, nat, set<seq<nat>>))
    requires call.2 < |call.1| && LeftAlone(call.0, call.1, call.2, call.3)
    ensures Views(call.1) == old(Views(call.1))[call.2 := ViewOf(call.1[call.2])]
  {
    hide Holds, RestStays;
    var files, i := call.1, call.2;
    forall j | 0 <= j < |files| && j != i ensures ViewOf(files[j]) == old(ViewOf(files[j])) {
      assert Snap(files[j]).img == old(Snap(files[j])).img && Snap(files[j]).objsize == old(Snap(files[j])).objsize;
    }
  }

  method Perform(fs: FatFs, files: seq<Fil>, i: nat, c: Call, ghost rest: set<seq<nat>>) returns (res: FResult, got: seq<Byte>)
    requires Together(fs, files, rest) && i < |files| && InWord(c) && (c.TruncateCall? ==> CutInside(files[i]))
    modifies files[i], files[i].buf, fs, fs.disk, fs.win
    ensures Outcome(fs, files, i, rest, res)
    ensures res == FR_OK ==> Does(old(ViewOf(files[i])), c, got, ViewOf(files[i]))
    ensures res == FR_DENIED ==> got == []
    ensures Views(files) == old(Views(files))[i := ViewOf(files[i])]
  {
    hide Together, LeftAlone, Does;
    got := [];
    match c {
      case ReadCall(n) => res, got := DoRead(fs, files, i, n, rest);
      case WriteCall(w) => res := DoWrite(fs, files, i, w, rest);
      case SeekCall(ofs) => res := DoSeek(fs, files, i, ofs, rest);
      case TruncateCall => res := DoTruncate(fs, files, i, rest);
      case ExpandCall(size, opt) => res := DoExpand(fs, files, i, size, opt, rest);
    }
    OthersSee((fs, files, i, rest));
  }

  // -- Runs --

  // A call that was made: on which file, whether it was carried out, the bytes it
  // returned, and what the file's user saw after it.
  datatype Event = Event(file: nat, call: Call, done: bool, got: seq<Byte>, after: View)

  // The views after the calls es.
  function After(vs: seq<View>, es: seq<Event>): (vs': seq<View>)
    ensures |vs'| == |vs|
  {
    if es == [] then vs else
      var e := es[|es| - 1];
      var mid := After(vs, es[..|es| - 1]);
      if e.file < |vs| then mid[e.file := e.after] else mid
  }

  // Each call does to its file's view what such a call does.
  ghost predicate Legal(vs: seq<View>, es: seq<Event>) {
    es == [] ||
    var e := es[|es| - 1];
    Legal(vs, es[..|es| - 1]) && LegalStep(After(vs, es[..|es| - 1]), e)
  }

  ghost predicate LegalStep(vs: seq<View>, e: Event) {
    && e.file < |vs|
    && if e.done then Does(vs[e.file], e.call, e.got, e.after) else e.after == vs[e.file] && e.got == []
  }

  // The calls on the i-th file, as calls on the only one.
  function Own(es: seq<Event>, i: nat): (own: seq<Event>) {
    if es == [] then [] else
      var e := es[|es| - 1];
      var own := Own(es[..|es| - 1], i);
      if e.file == i then own + [e.(file := 0)] else own
  }

  lemma Extended(vs: seq<View>, es: seq<Event>, e: Event)
    requires Legal(vs, es) && LegalStep(After(vs, es), e)
    ensures Legal(vs, es + [e]) && After(vs, es + [e]) == After(vs, es)[e.file := e.after]
  {
    hide Does;
    assert (es + [e])[..|es + [e]| - 1] == es;
  }

  lemma NoCalls(vs: seq<View>, i: nat)
    ensures Legal(vs, []) && After(vs, []) == vs && Own([], i) == []
  {
  }

  lemma LastCall(vs: seq<View>, es: seq<Event>, i: nat)
    requires Legal(vs, es) && es != []
    ensures var pre, e := es[..|es| - 1], es[|es| - 1];
            && Legal(vs, pre) && LegalStep(After(vs, pre), e)
            && e.file < |vs| && After(vs, es) == After(vs, pre)[e.file := e.after]
            && Own(es, i) == if e.file == i then Own(pre, i) + [e.(file := 0)] else Own(pre, i)
  {
    hide Does;
  }

  // In any run over several files each file shows what its own calls alone make of it,
  // and they alone explain every byte it returned.
  lemma {:induction false} Alone(vs: seq<View>, es: seq<Event>, i: nat)
    requires Legal(vs, es) && i < |vs|
    ensures Legal([vs[i]], Own(es, i)) && After([vs[i]], Own(es, i)) == [After(vs, es)[i]]
    decreases |es|
  {
    hide Does, Legal, After, Own;
    if es == [] {
      NoCalls(vs, i);
      NoCalls([vs[i]], i);
    } else {
      var pre, e := es[..|es| - 1], es[|es| - 1];
      LastCall(vs, es, i);
      Alone(vs, pre, i);
      if e.file == i { Extended([vs[i]], Own(pre, i), e.(file := 0)); }
    }
  }

  // How a run ends: after the last call, in front of a truncation that may give up the
  // sector its file's buffer shows, or with a call that failed.
  datatype Ending = Done | AtCut | Failed(file: nat)

  // What the run keeps: the views are those the calls so far lead to from vs, and the
  // files that are not open hold what they held in l.
  ghost predicate OnTrack(fs: FatFs, files: seq<Fil>, rest: set<seq<nat>>, vs: seq<View>, l: seq<Sector>, es: seq<Event>)
    reads fs, fs.disk, fs.win, files, set fp | fp in files :: fp.buf
  {
    && Together(fs, files, rest) && Legal(vs, es) && Views(files) == After(vs, es)
    && fs.geo.csize > 0 && RestStays(fs.geo, l, fs.logical, rest)
  }

  // What is left when a call on the i-th file failed.
  ghost predicate Spared(fs: FatFs, files: seq<Fil>, i: nat, rest: set<seq<nat>>, vs: seq<View>, l: seq<Sector>, es: seq<Event>)
    reads fs, files, set fp | fp in files :: fp.buf
  {
    && Legal(vs, es) && |vs| == |files| && fs.geo.csize > 0 && RestStays(fs.geo, l, fs.logical, rest)
    && forall j :: 0 <= j < |files| && j != i ==>
         ViewOf(files[j]) == After(vs, es)[j] && Holds(fs.geo, fs.fat, fs.logical, Snap(files[j]))
  }

  method CallOne(fs: FatFs, files: seq<Fil>, i: nat, c: Call, ghost rest: set<seq<nat>>,
                 ghost vs: seq<View>, ghost l: seq<Sector>, ghost es: seq<Event>)
    returns (ok: bool, ghost e: Event)
    requires OnTrack(fs, files, rest, vs, l, es) && i < |files| && InWord(c) && (c.TruncateCall? ==> CutInside(files[i]))
    modifies files[i], files[i].buf, fs, fs.disk, fs.win
    ensures e.file == i && e.call == c
    ensures ok ==> OnTrack(fs, files, rest, vs, l, es + [e])
    ensures !ok ==> Spared(fs, files, i, rest, vs, l, es)
  {
    hide Together, Does, Holds, RestStays, Legal, After, CutInside, InWord;
    ghost var mid := fs.logical;
    var res, got := Perform(fs, files, i, c, rest);
    RestStaysTwice(fs.geo, l, mid, fs.logical, rest);
    e := Event(i, c, res == FR_OK, got, ViewOf(files[i]));
    ok := res == FR_OK || res == FR_DENIED;
    if ok { Extended(vs, es, e); }
  }

  // Makes the calls one after the other. Up to the end of the run the FAT is the chains of
  // these files and `rest`, and each file shows what the calls made of it; a failing call
  // ends the run, and the other files still hold what they showed. The files that are not
  // open keep their contents throughout.
  method CallAll(fs: FatFs, files: seq<Fil>, todo: seq<(nat, Call)>, ghost rest: set<seq<nat>>)
    returns (ending: Ending, ghost es: seq<Event>)
    requires Together(fs, files, rest) && files != []
    requires forall k :: 0 <= k < |todo| ==> todo[k].0 < |files| && InWord(todo[k].1)
    modifies files, set fp | fp in files :: fp.buf, fs, fs.disk, fs.win
    ensures |es| <= |todo| && forall k :: 0 <= k < |es| ==> es[k].file == todo[k].0 && es[k].call == todo[k].1
    ensures !ending.Failed? ==> OnTrack(fs, files, rest, old(Views(files)), old(fs.logical), es)
    ensures ending.Done? ==> |es| == |todo|
    ensures ending.Failed? ==>
              && |es| < |todo| && ending.file == todo[|es|].0
              && Spared(fs, files, ending.file, rest, old(Views(files)), old(fs.logical), es)
  {
    hide OnTrack, Spared, Together, CutInside, InWord;
    es := [];
    ghost var vs, l := Views(files), fs.logical;
    NothingYet(fs, files, rest);
    for k := 0 to |todo|
      invariant |es| == k && forall m :: 0 <= m < k ==> es[m].file == todo[m].0 && es[m].call == todo[m].1
      invariant OnTrack(fs, files, rest, vs, l, es)
    {
      var (i, c) := todo[k];
      if c.TruncateCall? && !CutInside(files[i]) { return AtCut, es; }
      ghost var e;
      var ok;
      ok, e := CallOne(fs, files, i, c, rest, vs, l, es);
      if !ok { return Failed(i), es; }
      es := es + [e];
    }
    ending := Done;
  }

  lemma NothingYet(fs: FatFs, files: seq<Fil>, rest: set<seq<nat>>)
    requires Together(fs, files, rest) && files != []
    ensures OnTrack(fs, files, rest, Views(files), fs.logical, [])
  {
    hide Together, RestStays, Sound, FatFs.Valid;
    var a := files[0].Place();
    Before(fs, files, 0, rest);
    AllStayAround(fs.geo, a, a, Shots(files), 0, rest);
  }

  // -- Opening --

  lemma PlacedOpen(f: seq<nat>, rest: set<seq<nat>>, chs: seq<seq<nat>>, c: seq<nat>)
    requires Placed(f, rest, chs) && (c == [] || c in rest)
    ensures Placed(f, rest - AsSet(c), chs + [c])
  {
    hide Chains;
    var after := chs + [c];
    NoEmptyChain(f, rest + Opened(chs));
    assert Opened(after) == Opened(chs) + AsSet(c) by {
      forall u | u in Opened(chs) + AsSet(c) ensures u in Opened(after) {
        if u in AsSet(c) {
          assert after[|chs|] == u;
        } else {
          var j :| 0 <= j < |chs| && chs[j] != [] && chs[j] == u;
          assert after[j] == u;
        }
      }
    }
    assert rest - AsSet(c) + Opened(after) == rest + Opened(chs);
  }

  // Opens one more file, which starts at cluster `first`; c is its chain and s its sectors.
  // So any number of files of a volume can be together.
  method OpenAnother(fs: FatFs, files: seq<Fil>, first: nat, size: nat, readable: bool, writable: bool,
                     ghost c: seq<nat>, ghost s: seq<nat>, ghost own: set<nat>, ghost rest: set<seq<nat>>) returns (fp: Fil)
    requires fs.Valid() && fs.geo.DataOk() && Together(fs, files, rest) && (c == [] || c in rest)
    requires Shape(fs.geo, fs.fat, first, c, s) && OwnOk(fs.geo, fs.fat, s, own) && fs.winsect !in own
    requires forall i :: 0 <= i < |files| ==> files[i].own == own
    requires size <= SS * |s| && size <= 0xFFFF_FFFF && (size == 0 ==> c == [])
    ensures fresh(fp) && Together(fs, files + [fp], rest - AsSet(c))
    ensures fp.chain == c && ViewOf(fp).pos == 0 && |ViewOf(fp).data| == size
  {
    hide FatFs.Valid, Placed, Shape, OwnOk, ImgOk, Fil.Core, Sound;
    ghost var chs := ChainsOf(Shots(files));
    fp := new Fil(fs, first, size, readable, writable, c, s, own);
    ghost var all := files + [fp];
    IsGoing(fs, fp);
    PlacedOpen(fs.fat, rest, chs, c);
    assert ChainsOf(Shots(all)) == chs + [c];
  }
}
