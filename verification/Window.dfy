/** The volume object and its one-sector write-back window
    (thirdparty/fatfs/ff.c, sync_window and move_window). */
module Window {
  import opened Disk
  import opened FatLayout

  const NO_SECTOR: nat := 0xFFFF_FFFF

  datatype FResult = FR_OK | FR_DISK_ERR | FR_INT_ERR | FR_DENIED | FR_INVALID_NAME | FR_NO_FILESYSTEM

  // The disk as the driver sees it: the device overlaid by a dirty window.
  function Overlay(sectors: seq<Sector>, wflag: bool, winsect: nat, win: seq<Byte>): (l: seq<Sector>)
    requires wflag ==> winsect < |sectors| && |win| == SS
    ensures |l| == |sectors|
  {
    if wflag then sectors[winsect := win] else sectors
  }

  class FatFs {
    const geo: Geometry
    const disk: Device
    const win: array<Byte>
    var winsect: nat
    var wflag: bool
    var lastClst: nat
    var freeClst: nat
    var fsiFlag: bool
    // The abstract view, tied to the fields above by Valid.
    ghost var logical: seq<Sector>  // the disk with the window's pending changes
    ghost var fat: seq<nat>         // the FAT as one number per cluster
    ghost var mirrored: bool        // when true, the second FAT follows the first

    ghost predicate Valid()
      reads `winsect, `wflag, `logical, `fat, `mirrored, disk`sectors, win
    {
      && geo.Ok()
      && geo.Fits(|disk.sectors|)
      && win.Length == SS
      && (winsect < |disk.sectors| || (winsect == NO_SECTOR && !wflag))
      && (winsect < |disk.sectors| && !wflag ==> disk.sectors[winsect] == win[..])
      && logical == Overlay(disk.sectors, wflag, winsect, win[..])
      && IsTable(geo, logical, fat)
      && (mirrored ==> !geo.InMirror(winsect) && geo.Mirrored(disk.sectors, if wflag then winsect else NO_SECTOR))
    }

    // A freshly mounted volume: an empty window over the device.
    constructor (g: Geometry, d: Device)
      requires g.Ok() && g.Fits(|d.sectors|)
      ensures Valid() && geo == g && disk == d && fresh(win)
      ensures !wflag && winsect == NO_SECTOR && logical == d.sectors
      ensures mirrored <==> g.Mirrored(d.sectors, NO_SECTOR)
      ensures lastClst == NO_SECTOR && freeClst == NO_SECTOR
    {
      geo, disk := g, d;
      win := new Byte[SS];
      winsect, wflag := NO_SECTOR, false;
      lastClst, freeClst, fsiFlag := NO_SECTOR, NO_SECTOR, false;
      logical := d.sectors;
      fat := Table(g, d.sectors);
      mirrored := g.Mirrored(d.sectors, NO_SECTOR);
    }
  }

  // What every access to the FAT keeps: the logical disk outside the two FATs, and the
  // mirror while no device call fails. The window stays where it was, moves to a FAT
  // sector, or becomes invalid.
  twostate predicate Kept(fs: FatFs)
    reads fs, fs.disk
  {
    && |fs.logical| == |old(fs.logical)|
    && |fs.fat| == |old(fs.fat)|
    && fs.disk.faults >= old(fs.disk.faults)
    && (forall k :: 0 <= k < |fs.logical| && !fs.geo.InFat(k) && !fs.geo.InMirror(k) ==>
          fs.logical[k] == old(fs.logical)[k])
    && (fs.disk.faults == old(fs.disk.faults) && old(fs.mirrored) ==> fs.mirrored)
    && (fs.winsect == old(fs.winsect) || fs.geo.InFat(fs.winsect) || fs.winsect == NO_SECTOR)
    && (fs.wflag && !fs.geo.InFat(fs.winsect) ==> old(fs.wflag) && fs.winsect == old(fs.winsect))
  }

  // Writing the dirty sector to the device and, when it belongs to the first FAT, to
  // the second FAT too leaves no sector out of step.
  lemma FlushMirrors(g: Geometry, before: seq<Sector>, after: seq<Sector>, dirty: nat, data: Sector)
    requires g.Ok() && g.Fits(|before|) && |after| == |before|
    requires dirty < |before| && !g.InMirror(dirty)
    requires g.Mirrored(before, dirty)
    requires after[dirty] == data
    requires g.nFats == 2 && g.InFat(dirty) ==> after[dirty + g.fsize] == data
    requires forall k :: 0 <= k < |before| && k != dirty && !(g.InFat(dirty) && k == dirty + g.fsize) ==>
               after[k] == before[k]
    ensures g.Mirrored(after, NO_SECTOR)
  {
    if g.nFats == 2 {
      forall k | g.InFat(k) && k != NO_SECTOR ensures after[g.fsize + k] == after[k] {
        assert k != dirty ==> before[g.fsize + k] == before[k];
      }
    }
  }

  // Sectors of the second FAT do not carry FAT entries.
  lemma MirrorCarriesNoEntry(g: Geometry, l: seq<Sector>, l': seq<Sector>, f: seq<nat>)
    requires g.Ok() && g.Fits(|l|) && |l'| == |l| && IsTable(g, l, f)
    requires forall k :: 0 <= k < |l| && !g.InMirror(k) ==> l'[k] == l[k]
    ensures IsTable(g, l', f)
  {
    SectorsSameFat(g, l, l');
    TableKept(g, l, l', f);
  }

  // The copy of a first-FAT sector into the second FAT; its result is ignored.
  method Reflect(fs: FatFs) returns (ghost ok: bool)
    requires fs.geo.Ok() && fs.geo.Fits(|fs.disk.sectors|) && fs.win.Length == SS
    requires fs.geo.nFats == 2 && fs.geo.InFat(fs.winsect)
    modifies fs.disk
    ensures |fs.disk.sectors| == |old(fs.disk.sectors)|
    ensures forall k :: 0 <= k < |fs.disk.sectors| && k != fs.winsect + fs.geo.fsize ==>
              fs.disk.sectors[k] == old(fs.disk.sectors)[k]
    ensures fs.disk.faults == old(fs.disk.faults) + (if ok then 0 else 1)
    ensures ok ==> fs.disk.sectors[fs.winsect + fs.geo.fsize] == fs.win[..]
  {
    var done := fs.disk.Write(fs.winsect + fs.geo.fsize, 1, fs.win[..], 0);
    ok := done;
    assert fs.win[..][0..SS] == fs.win[..];
  }

  method SyncWindow(fs: FatFs) returns (res: FResult)
    requires fs.Valid()
    modifies fs.disk, fs`wflag, fs`logical, fs`mirrored
    ensures fs.Valid() && Kept(fs) && fs.fat == old(fs.fat)
    ensures forall k :: 0 <= k < |fs.logical| && !fs.geo.InMirror(k) ==> fs.logical[k] == old(fs.logical)[k]
    ensures res == FR_OK || res == FR_DISK_ERR
    ensures res == FR_OK <==> !fs.wflag
    ensures fs.wflag ==> old(fs.wflag)
    ensures fs.disk.faults == old(fs.disk.faults) ==> res == FR_OK
    ensures res == FR_OK ==> fs.disk.sectors == fs.logical
    ensures res == FR_OK && fs.mirrored ==> fs.geo.Mirrored(fs.disk.sectors, NO_SECTOR)
  {
    hide IsTable, Geometry.Mirrored, Table;
    res := FR_OK;
    if fs.wflag {
      var ok := fs.disk.Write(fs.winsect, 1, fs.win[..], 0);
      if ok {
        assert fs.win[..][0..SS] == fs.win[..];
        assert fs.disk.sectors == fs.logical;
        fs.wflag := false;
        ghost var copied := true;
        if fs.geo.InFat(fs.winsect) {
          if fs.geo.nFats == 2 {
            assert fs.geo.fsize > 0;
            copied := Reflect(fs);
          }
        }
        fs.logical := fs.disk.sectors;
        MirrorCarriesNoEntry(fs.geo, old(fs.logical), fs.logical, fs.fat);
        if copied && fs.mirrored {
          FlushMirrors(fs.geo, old(fs.disk.sectors), fs.disk.sectors, fs.winsect, fs.win[..]);
        } else {
          fs.mirrored := false;
        }
      } else {
        fs.mirrored := false;
        res := FR_DISK_ERR;
      }
    }
  }

  method MoveWindow(fs: FatFs, sector: nat) returns (res: FResult)
    requires fs.Valid()
    modifies fs.disk, fs.win, fs`wflag, fs`winsect, fs`logical, fs`mirrored
    ensures fs.Valid() && fs.fat == old(fs.fat)
    ensures fs.geo.InFat(sector) ==> Kept(fs)
    ensures |fs.logical| == |old(fs.logical)|
    ensures forall k :: 0 <= k < |fs.logical| && !fs.geo.InMirror(k) ==> fs.logical[k] == old(fs.logical)[k]
    ensures fs.winsect in {old(fs.winsect), sector, NO_SECTOR}
    ensures fs.wflag ==> old(fs.wflag) && fs.winsect == old(fs.winsect)
    ensures res == FR_OK || res == FR_DISK_ERR
    ensures res == FR_OK ==> fs.winsect == sector
    ensures res == FR_OK && sector < |fs.logical| ==> fs.win[..] == fs.logical[sector]
    ensures sector >= |fs.logical| && sector != NO_SECTOR ==> res == FR_DISK_ERR
    ensures fs.disk.faults >= old(fs.disk.faults)
    ensures fs.disk.faults == old(fs.disk.faults) ==> res == FR_OK
    ensures fs.disk.faults == old(fs.disk.faults) && !fs.geo.InMirror(sector) && old(fs.mirrored) ==> fs.mirrored
  {
    res := FR_OK;
    if sector != fs.winsect {
      res := SyncWindow(fs);
      if res == FR_OK {
        var target := sector;
        var ok := fs.disk.Read(sector, 1, fs.win, 0);
        if ok {
          assert fs.win[..] == fs.disk.sectors[sector];
        } else {
          target := NO_SECTOR;
          res := FR_DISK_ERR;
        }
        fs.winsect := target;
        fs.mirrored := fs.mirrored && !fs.geo.InMirror(target);
      }
    }
  }
}
