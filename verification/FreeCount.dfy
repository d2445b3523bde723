/** A volume that mounts and whose free clusters f_getfree counts wrongly
    (thirdparty/fatfs/ff.c, find_volume and f_getfree): its reserved FAT entries are zero. */
module FreeCount {
  import opened Disk
  import opened FatLayout
  import opened Window
  import opened Chain
  import ChainOps
  import Mount

  // The boot sector of a FAT16 volume of 4104 sectors with one FAT of 16 sectors.
  function BootSector(): Sector {
    seq(SS, i requires 0 <= i < SS =>
      if i == 12 then 2
      else if i == 13 || i == 14 || i == 16 then 1
      else if i == 17 || i == 20 || i == 22 then 16
      else if i == 19 then 8
      else 0)
  }

  const BPB := Mount.Bpb(SS, 1, 1, 1, 16, 4104, 16, 0, 0)
  const LAYOUT := Geometry(Fat16, 1, 16, 1, 4088, 0, 1, 18, 4104)

  function Zeros(): Sector {
    seq(SS, _ => 0)
  }

  function Sectors(n: nat): (l: seq<Sector>)
    ensures |l| == n && forall k :: 0 <= k < n ==> l[k] == Zeros()
  {
    if n == 0 then [] else Sectors(n - 1) + [Zeros()]
  }

  // All zero but for the boot sector.
  function Image(): (l: seq<Sector>)
    ensures |l| == 4104 && l[0] == BootSector()
    ensures forall k :: 0 < k < |l| ==> l[k] == Zeros()
  {
    [BootSector()] + Sectors(4103)
  }

  lemma BootBytes()
    ensures BootSector()[13] == 1 && BootSector()[16] == 1
  {
  }

  lemma BootWord(p: nat, b0: Byte, b1: Byte)
    requires p in {11, 14, 17, 19, 22, 42, 44, 46}
    requires b0 == (match p case 14 => 1 case 17 => 16 case 19 => 8 case 22 => 16 case _ => 0)
    requires b1 == (match p case 11 => 2 case 19 => 16 case _ => 0)
    ensures Mount.LdWord(BootSector(), p) == b0 + 0x100 * b1
  {
  }

  lemma BootFields()
    ensures Mount.ReadBpb(BootSector()) == BPB
  {
    hide BootSector, Mount.LdWord;
    BootWord(11, 0, 2);
    BootWord(14, 1, 0);
    BootWord(17, 16, 0);
    BootWord(19, 8, 16);
    BootWord(22, 16, 0);
    BootWord(42, 0, 0);
    BootWord(44, 0, 0);
    BootWord(46, 0, 0);
    assert BootSector()[13] == 1 && BootSector()[16] == 1 by { BootBytes(); }
  }

  lemma BootSupported()
    ensures BPB.Sizes() && BPB.NoWrap(0) && BPB.Supported() && BPB.Clusters() == 4086
  {
  }

  lemma BootLayout(v: Mount.Volume)
    requires Mount.Describes(v, BPB, 0)
    ensures v.g == LAYOUT
  {
    BootSupported();
  }

  // The entries of the two reserved clusters are zero.
  lemma ReservedAreZero(f: seq<nat>)
    requires LAYOUT.Ok() && LAYOUT.Fits(|Image()|) && IsTable(LAYOUT, Image(), f)
    ensures |f| == 4088 && CountZeros(f, 0, 2) == 2
  {
    hide Image, CountZeros, IsTable, Geometry.Ok, Geometry.Fits;
    assert |f| == 4088 by { TableLength(f); }
    TableAt(LAYOUT, Image(), f, 0);
    TableAt(LAYOUT, Image(), f, 1);
    TwoZeros(f);
  }

  lemma TableLength(f: seq<nat>)
    requires LAYOUT.Ok() && LAYOUT.Fits(|Image()|) && IsTable(LAYOUT, Image(), f)
    ensures |f| == 4088
  {
  }

  lemma TwoZeros(f: seq<nat>)
    requires |f| >= 2 && f[0] == 0 && f[1] == 0
    ensures CountZeros(f, 0, 2) == 2
  {
    assert CountZeros(f, 0, 0) == 0;
    assert CountZeros(f, 0, 1) == 1;
  }

  // Mounts the volume: its boot sector is accepted.
  method MountIt() returns (fs: FatFs)
    ensures fs.Valid() && fresh(fs) && fresh(fs.disk) && fresh(fs.win)
    ensures fs.geo == LAYOUT && fs.freeClst == NO_SECTOR && |fs.fat| == 4088 && CountZeros(fs.fat, 0, 2) == 2
  {
    hide Image, IsTable, CountZeros, Mount.ReadBpb, Mount.Accepts, Mount.Bpb.Supported, Mount.Bpb.NoWrap, Mount.Describes,
         Geometry.Ok, Geometry.Fits, Geometry.DataOk, BootSector;
    var dev := new Device(Image());
    var win := dev.sectors[0];
    BootFields();
    BootSupported();
    var vol := Mount.ReadBootSector(win, 0);
    BootLayout(vol.value);
    LayoutFits();
    fs := new FatFs(vol.value.g, dev);
    ReservedAreZero(fs.fat);
  }

  lemma LayoutFits()
    ensures LAYOUT.Ok() && LAYOUT.Fits(4104)
  {
  }

  // Unless a device call fails f_getfree then counts two clusters more than are free.
  method CountIt() returns (res: FResult, nclst: nat, fs: FatFs)
    ensures fs.Valid() && fs.geo == LAYOUT && |fs.fat| == 4088
    ensures res == FR_OK ==> nclst == CountFree(fs.fat) + 2 && fs.freeClst == nclst
  {
    hide CountZeros, CountFree, Geometry.Ok, Geometry.Fits;
    fs := MountIt();
    res, nclst := ChainOps.GetFree(fs);
  }
}
