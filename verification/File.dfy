/** The open file object: its cluster chain, its one-sector buffer and its cursor
    (thirdparty/fatfs/ff.h, FIL), with the byte sequence it stands for. */
module File {
  import opened Disk
  import opened FatLayout
  import opened Window
  import opened Chain
  import opened FileMap

  // The chain starts at sclust (0: no chain yet) and secs lists its sectors.
  ghost predicate Shape(g: Geometry, f: seq<nat>, sclust: nat, chain: seq<nat>, secs: seq<nat>)
    requires g.csize > 0
  {
    && (sclust == 0 <==> chain == [])
    && (chain != [] ==> IsChain(f, chain) && chain[0] == sclust)
    && SecsOf(g, chain, secs)
  }

  // `own` holds the file's sectors and those of all free clusters: what the file has and
  // may come to have. Its calls change no other sector of the data area (Elsewhere).
  ghost predicate OwnOk(g: Geometry, f: seq<nat>, secs: seq<nat>, own: set<nat>) {
    && (forall k :: 0 <= k < |secs| ==> secs[k] in own)
    && (forall c, j {:trigger SectorOf(g, c, j)} ::
          2 <= c < |f| && f[c] == 0 && 0 <= j < g.csize ==> SectorOf(g, c, j) in own)
    && (forall s :: s in own ==> g.database <= s < g.volend)
  }

  // img lists what the file's sectors hold once a dirty buffer is written back.
  ghost predicate ImgOk(l: seq<Sector>, secs: seq<nat>, dirty: bool, sect: nat, b: seq<Byte>, img: seq<Sector>)
    requires |b| == SS
  {
    |img| == |secs| &&
    forall k {:trigger img[k]} :: 0 <= k < |img| ==>
      secs[k] < |l| && img[k] == if dirty && secs[k] == sect then b else l[secs[k]]
  }

  // The contents of the listed sectors.
  ghost function SectorsAt(l: seq<Sector>, secs: seq<nat>): (img: seq<Sector>)
    requires forall k :: 0 <= k < |secs| ==> secs[k] < |l|
    ensures |img| == |secs| && forall k :: 0 <= k < |secs| ==> img[k] == l[secs[k]]
  {
    seq(|secs|, k requires 0 <= k < |secs| => l[secs[k]])
  }

  // A file's place on its volume: the logical disk, the FAT, the sector in the window, the
  // file's clusters and their sectors, and whether its buffer shows one of them or nothing.
  datatype Extent =
    Extent(logical: seq<Sector>, fat: seq<nat>, window: nat, chain: seq<nat>, secs: seq<nat>, shown: bool)

  // From a to b the file only grew, by clusters that were free; outside the FATs nothing
  // changed but its own sectors, and no entry of a cluster in use but those of its own
  // clusters. The window shows what it showed, or a FAT sector, or nothing; the buffer does
  // not come to show a sector that is not the file's.
  ghost predicate Around(g: Geometry, a: Extent, b: Extent) {
    && (b.window == a.window || g.InFat(b.window) || b.window == NO_SECTOR)
    && (a.shown ==> b.shown)
    && (g.csize > 0 && SecsOf(g, a.chain, a.secs) ==> SecsOf(g, b.chain, b.secs))
    && a.chain <= b.chain && a.secs <= b.secs && |b.logical| == |a.logical| && |b.fat| == |a.fat|
    && (forall c {:trigger c in b.chain} :: c in b.chain ==> c in a.chain || (2 <= c < |a.fat| && a.fat[c] == 0))
    && (forall s {:trigger b.logical[s]} :: 0 <= s < |b.logical| && !g.InFat(s) && !g.InMirror(s) && s !in b.secs ==>
          b.logical[s] == a.logical[s])
    && (forall c {:trigger b.fat[c]} :: 2 <= c < |b.fat| && a.fat[c] != 0 && c !in b.chain ==> b.fat[c] == a.fat[c])
  }

  lemma AroundTwice(g: Geometry, a: Extent, b: Extent, c: Extent)
    requires Around(g, a, b) && Around(g, b, c)
    ensures Around(g, a, c)
  {
    PrefixMember(b.chain, c.chain);
    PrefixMember(b.secs, c.secs);
  }

  lemma PrefixMember(s: seq<nat>, t: seq<nat>)
    requires s <= t
    ensures forall x :: x in s ==> x in t
  {
    forall x | x in s ensures x in t {
      var i :| 0 <= i < |s| && s[i] == x;
      assert t[i] == x;
    }
  }

  // What a call leaves alone, whatever its outcome.
  twostate predicate Elsewhere(fp: Fil)
    reads fp`chain, fp`secs, fp`sect, fp.fs`logical, fp.fs`fat, fp.fs`winsect
  {
    Around(fp.fs.geo, old(fp.Place()), fp.Place())
  }

  twostate lemma SameExtent(fp: Fil)
    requires fp.Place() == old(fp.Place())
    ensures Elsewhere(fp)
  {
  }

  // Nor does turning the buffer to one of the file's sectors.
  twostate lemma BufferElsewhere(fp: Fil)
    requires fp.fs.logical == old(fp.fs.logical) && fp.fs.fat == old(fp.fs.fat) && fp.fs.winsect == old(fp.fs.winsect)
    requires fp.chain == old(fp.chain) && fp.secs == old(fp.secs) && (fp.sect == old(fp.sect) || fp.sect in fp.secs)
    ensures Elsewhere(fp)
  {
  }

  // Reading the FAT touches only the FATs.
  twostate lemma FatReadElsewhere(fp: Fil)
    requires Kept(fp.fs) && fp.fs.fat == old(fp.fs.fat) && fp.chain == old(fp.chain) && fp.secs == old(fp.secs)
    requires fp.sect == old(fp.sect)
    ensures Elsewhere(fp)
  {
  }

  // So does writing the file's own sectors.
  twostate lemma OwnWriteElsewhere(fp: Fil)
    requires fp.fs.fat == old(fp.fs.fat) && fp.fs.winsect == old(fp.fs.winsect)
    requires fp.chain == old(fp.chain) && fp.secs == old(fp.secs) && fp.sect == old(fp.sect)
    requires |fp.fs.logical| == |old(fp.fs.logical)|
    requires forall s {:trigger fp.fs.logical[s]} :: 0 <= s < |fp.fs.logical| && s !in fp.secs ==>
               fp.fs.logical[s] == old(fp.fs.logical)[s]
    ensures Elsewhere(fp)
  {
  }

  class Fil {
    const fs: FatFs
    const buf: array<Byte>
    var sclust: nat
    var objsize: nat
    var fptr: nat
    var clust: nat
    var sect: nat
    var readable: bool   // FA_READ
    var writable: bool   // FA_WRITE
    var modified: bool   // FA_MODIFIED
    var dirty: bool      // FA_DIRTY
    var err: FResult
    ghost var chain: seq<nat>    // the clusters
    ghost var secs: seq<nat>     // their sectors
    ghost var img: seq<Sector>   // what those sectors hold, pending buffer included
    ghost var own: set<nat>

    // The bytes of the file.
    ghost function Data(): (d: seq<Byte>)
      requires objsize <= SS * |img|
      reads `objsize, `img
      ensures |d| == objsize
    {
      Content(img, objsize)
    }

    ghost function Place(): Extent
      reads `chain, `secs, `sect, fs`logical, fs`fat, fs`winsect
    {
      Extent(fs.logical, fs.fat, fs.winsect, chain, secs, Shown())
    }

    // The buffer is empty or shows one of the file's sectors.
    ghost predicate Shown()
      reads `secs, `sect
    {
      sect != 0 ==> sect in secs
    }

    // The file's place on the volume.
    ghost predicate Base()
      reads `sclust, `objsize, `chain, `secs, `img, `own
      reads fs`winsect, fs`wflag, fs`logical, fs`fat, fs`mirrored, fs.disk`sectors, fs.win
    {
      && fs.Valid() && fs.geo.DataOk()
      && buf.Length == SS && buf != fs.win
      && Shape(fs.geo, fs.fat, sclust, chain, secs)
      && OwnOk(fs.geo, fs.fat, secs, own)
      && fs.winsect !in own
      && |img| == |secs| && objsize <= SS * |img| && objsize <= 0xFFFF_FFFF
    }

    // The buffer and the disk together hold img.
    ghost predicate Core()
      reads `sclust, `objsize, `sect, `dirty, `chain, `secs, `img, `own, buf
      reads fs`winsect, fs`wflag, fs`logical, fs`fat, fs`mirrored, fs.disk`sectors, fs.win
    {
      && Base()
      && (sect != 0 ==> sect in own)
      && (dirty ==> sect in secs)
      && (!dirty && sect != 0 ==> buf[..] == fs.logical[sect])
      && ImgOk(fs.logical, secs, dirty, sect, buf[..], img)
    }

    // clust is the cluster of the file's k-th sector.
    ghost predicate At(k: nat)
      requires fs.geo.csize > 0
      reads `clust, `chain
    {
      k / fs.geo.csize < |chain| && clust == chain[k / fs.geo.csize]
    }

    // clust remembers the cluster of the last byte passed; inside a sector, buf shows it.
    // An empty file has nothing to write back.
    ghost predicate Cursor()
      requires fs.geo.csize > 0
      reads `fptr, `objsize, `clust, `chain, `secs, `sect, `dirty
    {
      && fptr <= objsize && (objsize == 0 ==> !dirty)
      && (fptr > 0 ==> At((fptr - 1) / SS))
      && (fptr % SS != 0 ==> fptr / SS < |secs| && sect == secs[fptr / SS])
    }

    ghost predicate Valid()
      reads `sclust, `objsize, `sect, `dirty, `chain, `secs, `img, `own, `fptr, `clust, `err, buf
      reads fs`winsect, fs`wflag, fs`logical, fs`fat, fs`mirrored, fs.disk`sectors, fs.win
    {
      buf.Length == SS && buf != fs.win && (err == FR_OK ==> Core() && Cursor())
    }

    // A freshly opened file: cursor at the start, buffer empty.
    constructor (fs: FatFs, first: nat, size: nat, read: bool, write: bool,
                 ghost c: seq<nat>, ghost s: seq<nat>, ghost owned: set<nat>)
      requires fs.Valid() && fs.geo.DataOk()
      requires Shape(fs.geo, fs.fat, first, c, s) && OwnOk(fs.geo, fs.fat, s, owned)
      requires fs.winsect !in owned && size <= SS * |s| && size <= 0xFFFF_FFFF
      ensures Valid() && err == FR_OK && this.fs == fs && fresh(buf)
      ensures objsize == size && fptr == 0 && chain == c && readable == read && writable == write
      ensures sect == 0 && secs == s && own == owned
      ensures |img| == |s| && forall k :: 0 <= k < |s| ==> s[k] < |fs.logical| && img[k] == fs.logical[s[k]]
    {
      this.fs := fs;
      buf := new Byte[SS](_ => 0);
      sclust, objsize, fptr, clust, sect := first, size, 0, 0, 0;
      readable, writable, modified, dirty, err := read, write, false, false, FR_OK;
      chain, secs, own := c, s, owned;
      img := SectorsAt(fs.logical, s);
    }
  }

  // Everything but the volume's FAT window is as before.
  twostate predicate Untouched(fp: Fil)
    reads fp, fp.buf
  {
    && fp.buf[..] == old(fp.buf[..])
    && fp.sclust == old(fp.sclust) && fp.objsize == old(fp.objsize) && fp.fptr == old(fp.fptr)
    && fp.sect == old(fp.sect) && fp.dirty == old(fp.dirty)
    && fp.chain == old(fp.chain) && fp.secs == old(fp.secs) && fp.img == old(fp.img) && fp.own == old(fp.own)
  }

  // Reading the FAT does not disturb the file.
  twostate lemma FatReadKeepsCore(fp: Fil)
    requires old(fp.Core()) && Untouched(fp)
    requires fp.fs.Valid() && Kept(fp.fs) && fp.fs.fat == old(fp.fs.fat)
    ensures fp.Core()
  {
    forall s | s in fp.own ensures fp.fs.logical[s] == old(fp.fs.logical)[s] {
    }
  }
}
