/** NAND write protection (source/arm9/fs.c): the table of protected regions and the
    write loop that skips them. */
module NandProt {
  import opened Disk

  const WORD: nat := 0x1_0000_0000
  const MAX_PARTITIONS: nat := 8
  // Sectors and counts are 32-bit byte offsets and sizes divided by the sector size.
  const SECTORS: nat := 0x80_0000

  // The sum of two words, in 32 bits.
  function Sum(a: nat, b: nat): (r: nat)
    ensures a < WORD && b < WORD ==> r == (a + b) % WORD
  {
    if a + b < WORD then a + b else a + b - WORD
  }

  datatype Region = Region(sector: nat, count: nat) {
    // Where the region ends, in 32-bit arithmetic; one that wraps has no sectors.
    function End(): nat { Sum(sector, count) }
    predicate Has(x: nat) { sector <= x < End() }
  }

  datatype Option<T> = None | Some(value: T)

  datatype Partition = Partition(type_: nat, sector: nat, count: nat)

  predicate Protected(t: seq<Region>, x: nat) {
    exists i :: 0 <= i < |t| && t[i].Has(x)
  }

  predicate Meets(r: Region, start: nat, size: nat) {
    start < r.End() && start + size > r.sector
  }

  // The first region in table order that a write would meet; -1: none.
  function FirstMeeting(t: seq<Region>, start: nat, size: nat): (i: int)
    ensures -1 <= i < |t|
    ensures i >= 0 ==> Meets(t[i], start, size)
    ensures forall j :: 0 <= j < (if i < 0 then |t| else i) ==> !Meets(t[j], start, size)
  {
    if t == [] then -1
    else if Meets(t[0], start, size) then 0
    else var i := FirstMeeting(t[1..], start, size); if i < 0 then -1 else i + 1
  }

  predicate Sorted(t: seq<Region>) {
    forall i, j :: 0 <= i < j < |t| ==> t[i].sector <= t[j].sector
  }

  predicate NoneWraps(t: seq<Region>) {
    forall i :: 0 <= i < |t| ==> t[i].sector <= t[i].End()
  }

  predicate Words(t: seq<Region>) {
    forall i :: 0 <= i < |t| ==> t[i].sector < WORD && t[i].count < WORD
  }

  // The write loop, at sector s with n left, is inside the first region it meets.
  predicate Inside(t: seq<Region>, s: nat, n: nat) {
    var i := FirstMeeting(t, s, n);
    n > 0 && i >= 0 && t[i].sector <= s
  }

  // Where the loop goes on: at the end of that region, at the start of a region that lies
  // ahead, or at the end of the write.
  function Next(t: seq<Region>, s: nat, n: nat): (e: nat)
    ensures s <= e <= s + n && (n > 0 ==> s < e)
  {
    var i := FirstMeeting(t, s, n);
    if n == 0 || i < 0 then s + n
    else if t[i].sector <= s then Min(t[i].End(), s + n)
    else t[i].sector
  }

  // What the loop writes: sector x, or not. Inside a region it skips, else it writes.
  ghost predicate Writes(t: seq<Region>, s: nat, n: nat, x: nat)
    decreases n
  {
    var e := Next(t, s, n);
    n > 0 && if x < e then s <= x && !Inside(t, s, n) else Writes(t, e, s + n - e, x)
  }

  // One write can reach both sector x and a sector `start` ahead of it.
  predicate InReach(x: nat, start: nat) {
    start + 1 < SECTORS + Min(x, SECTORS - 1)
  }

  // No region that comes first in the table hides a protected sector in front of it, as
  // far as one write reaches.
  ghost predicate Guarded(t: seq<Region>) {
    forall i, j, x: nat {:trigger t[i], t[j].Has(x)} ::
      0 <= i < j < |t| && t[j].Has(x) && x < t[i].sector && InReach(x, t[i].sector) ==> exists k :: 0 <= k < i && t[k].Has(x)
  }

  class Protection {
    const regions: array<Region>
    var num: nat

    ghost predicate Valid()
      reads this, regions
    {
      regions.Length == MAX_PARTITIONS + 2 && num <= regions.Length && Words(regions[..num])
    }

    ghost function Table(): seq<Region>
      requires num <= regions.Length
      reads this, regions
    {
      regions[..num]
    }

    constructor ()
      ensures Valid() && num == 0 && fresh(regions)
    {
      regions := new Region[MAX_PARTITIONS + 2](_ => Region(0, 0));
      num := 0;
    }

    // The index stands for the pointer; -1: NULL.
    method GetNandProtRegion(startSector: nat, writeSize: nat) returns (region: int)
      requires Valid() && startSector < WORD && writeSize < WORD
      ensures region == if startSector + writeSize >= WORD || writeSize == 0 then -1
                        else FirstMeeting(Table(), startSector, writeSize)
    {
      if startSector > WORD - 1 - writeSize { return -1; }
      if writeSize <= 0 { return -1; }
      var writeEnd := startSector + writeSize;
      ghost var t := Table();
      for i := 0 to num
        invariant forall j :: 0 <= j < i ==> !Meets(t[j], startSector, writeSize)
      {
        assert t[i] == regions[i];
        var regionEnd := Sum(regions[i].sector, regions[i].count);
        if startSector < regionEnd && writeEnd > regions[i].sector { return i; }
      }
      region := -1;
    }

    // The device branch of fsWriteFromDeviceBuffer. Sectors come from a 32-bit byte
    // offset and size, so their sum cannot wrap. For any table: the sectors the loop does
    // not write stay; on success the others hold their parts of the buffer. With a guarded
    // table those it writes are the unprotected ones.
    method WriteFromBuffer(dev: Device, destOffset: nat, destSize: nat, data: seq<Byte>) returns (ok: bool)
      requires Valid()
      requires destOffset < WORD && destSize < WORD && destOffset % SS == 0 && destSize % SS == 0 && destSize <= |data|
      modifies dev
      ensures |dev.sectors| == |old(dev.sectors)|
      ensures ok <==> dev.faults == old(dev.faults)
      ensures Written(Table(), destOffset / SS, destSize / SS, data, old(dev.sectors), dev.sectors, ok)
      ensures NoneWraps(Table()) && Guarded(Table()) ==>
                Protects(Table(), destOffset / SS, destSize / SS, data, old(dev.sectors), dev.sectors, ok)
    {
      var sector, count := destOffset / SS, destSize / SS;
      if num != 0 {
        ok := WriteAround(dev, sector, count, data);
      } else {
        ok := dev.Write(sector, count, data, 0);
        forall x: nat ensures Writes(Table(), sector, count, x) <==> sector <= x < sector + count {
          WritesRange([], sector, count, x);
        }
      }
      WrittenProtects(Table(), sector, count, data, old(dev.sectors), dev.sectors, ok);
    }

    method WriteAround(dev: Device, start: nat, total: nat, data: seq<Byte>) returns (ok: bool)
      requires Valid() && start + total < WORD && SS * total <= |data|
      modifies dev
      ensures |dev.sectors| == |old(dev.sectors)|
      ensures ok <==> dev.faults == old(dev.faults)
      ensures Written(Table(), start, total, data, old(dev.sectors), dev.sectors, ok)
    {
      hide Writes, Next, Inside;
      ghost var t := Table();
      var sector: nat, toWrite: nat, devBufPtr: nat := start, total, 0;
      while true
        invariant sector + toWrite == start + total && start <= sector && devBufPtr == SS * (sector - start)
        invariant dev.faults == old(dev.faults) && |dev.sectors| == |old(dev.sectors)|
        invariant forall x: nat :: x >= sector ==> (Writes(t, start, total, x) <==> Writes(t, sector, toWrite, x))
        invariant forall x :: 0 <= x < |dev.sectors| && (x >= sector || !Writes(t, start, total, x)) ==>
                    dev.sectors[x] == old(dev.sectors)[x]
        invariant forall x :: 0 <= x < |dev.sectors| && start <= x < sector && Writes(t, start, total, x) ==>
                    dev.sectors[x] == data[SS * (x - start)..SS * (x - start) + SS]
        decreases toWrite
      {
        WritesStep(t, sector, toWrite);
        var count;
        ok, count := WritePiece(dev, sector, toWrite, data, devBufPtr);
        if !ok { return; }
        devBufPtr := devBufPtr + SS * count;
        sector := sector + count;
        toWrite := toWrite - count;
        if toWrite == 0 { break; }
      }
      forall x: nat ensures Writes(t, start, total, x) ==> x < start + total { WritesRange(t, start, total, x); }
    }

    // One pass of the loop: skips to the end of the region it is inside of, or writes up
    // to the next region.
    method WritePiece(dev: Device, sector: nat, toWrite: nat, data: seq<Byte>, devBufPtr: nat) returns (ok: bool, count: nat)
      requires Valid() && sector + toWrite < WORD && devBufPtr + SS * toWrite <= |data|
      modifies dev
      ensures |dev.sectors| == |old(dev.sectors)| && sector + count == Next(Table(), sector, toWrite)
      ensures ok <==> dev.faults == old(dev.faults)
      ensures forall x :: 0 <= x < |dev.sectors| && (Inside(Table(), sector, toWrite) || !(sector <= x < sector + count)) ==>
                dev.sectors[x] == old(dev.sectors)[x]
      ensures ok && !Inside(Table(), sector, toWrite) ==> forall x :: 0 <= x < |dev.sectors| && sector <= x < sector + count ==>
                dev.sectors[x] == data[devBufPtr + SS * (x - sector)..devBufPtr + SS * (x - sector) + SS]
    {
      ok := true;
      var region := GetNandProtRegion(sector, toWrite);
      if region >= 0 {
        var r := regions[region];
        assert r == Table()[region];
        if r.sector <= sector {
          count := Min(Sum(r.sector, r.count), sector + toWrite) - sector;
        } else {
          count := Min(toWrite, r.sector - sector);
          ok := dev.Write(sector, count, data, devBufPtr);
        }
      } else {
        count := toWrite;
        ok := dev.Write(sector, count, data, devBufPtr);
      }
    }

    // fSetNandProtection, given what partitionGetInfo reports for the eight slots.
    method SetNandProtection(protect: bool, parts: seq<Option<Partition>>)
      requires Valid() && |parts| == MAX_PARTITIONS && InWords(parts)
      modifies this, regions
      ensures Valid() && (num != 0 <==> protect)
      ensures protect == old(num != 0) ==> Table() == old(Table())
      ensures protect && old(num) == 0 ==> Table() == Built(Firmware(parts, MAX_PARTITIONS))
    {
      hide Built, Firmware, Joined;
      if protect == (num != 0) { return; }
      if protect {
        regions[0], regions[1] := DEFAULTS[0], DEFAULTS[1];
        num := |DEFAULTS|;
        assert Table() == DEFAULTS;
        StartOfTable(parts);
        for i := 0 to MAX_PARTITIONS
          invariant num <= 2 + i && num >= 2
          invariant Valid() && Table() == Built(Firmware(parts, i))
        {
          NextPartition(parts, i);
          if parts[i].Some? && parts[i].value.type_ == 3 {
            Register(parts[i].value.sector, parts[i].value.count);
          }
        }
      } else {
        num := 0;
      }
    }

    // Adds one firmware partition to the table.
    method Register(sector: nat, count: nat)
      requires Valid() && num < regions.Length && sector < WORD && count < WORD
      modifies `num, regions
      ensures Valid() && Table() == Joined(old(Table()), Region(sector, count))
    {
      var region := -1;
      if sector != 0 {
        region := GetNandProtRegion(sector - 1, 1);
      }
      if region >= 0 {
        regions[region] := Region(regions[region].sector, Sum(regions[region].count, count));
      } else {
        regions[num] := Region(sector, count);
        num := num + 1;
      }
      assert Table() == Joined(old(Table()), Region(sector, count));
    }
  }

  // What n sectors from s on do to a device: those the loop does not write stay, and on
  // success the others hold their parts of the buffer.
  ghost predicate Written(t: seq<Region>, s: nat, n: nat, data: seq<Byte>, was: seq<Sector>, now: seq<Sector>, ok: bool)
    requires |now| == |was| && SS * n <= |data|
  {
    && (forall x {:trigger now[x]} :: 0 <= x < |now| && !Writes(t, s, n, x) ==> now[x] == was[x])
    && (ok ==> forall x {:trigger now[x]} :: 0 <= x < |now| && s <= x < s + n && Writes(t, s, n, x) ==>
          now[x] == data[SS * (x - s)..SS * (x - s) + SS])
  }

  // What they are meant to do.
  ghost predicate Protects(t: seq<Region>, s: nat, n: nat, data: seq<Byte>, was: seq<Sector>, now: seq<Sector>, ok: bool)
    requires |now| == |was| && SS * n <= |data|
  {
    && (forall x {:trigger now[x]} :: 0 <= x < |now| && (Protected(t, x) || !(s <= x < s + n)) ==> now[x] == was[x])
    && (ok ==> forall x {:trigger now[x]} :: 0 <= x < |now| && s <= x < s + n && !Protected(t, x) ==>
          now[x] == data[SS * (x - s)..SS * (x - s) + SS])
  }

  // -- What the loop writes --

  // It writes nothing outside the range and every unprotected sector inside.
  lemma {:induction false} WritesRange(t: seq<Region>, s: nat, n: nat, x: nat)
    ensures Writes(t, s, n, x) ==> s <= x < s + n
    ensures s <= x < s + n && !Protected(t, x) ==> Writes(t, s, n, x)
    decreases n
  {
    var e := Next(t, s, n);
    if n > 0 && x >= e {
      WritesRange(t, e, s + n - e, x);
    } else if n > 0 && Inside(t, s, n) && s <= x {
      assert t[FirstMeeting(t, s, n)].Has(x);
    }
  }

  lemma WritesStep(t: seq<Region>, s: nat, n: nat)
    ensures var e := Next(t, s, n);
            forall x: nat :: Writes(t, s, n, x) <==>
              (if x < e then n > 0 && s <= x && !Inside(t, s, n) else Writes(t, e, s + n - e, x))
  {
  }

  // A write of n sectors from s on goes over both.
  predicate Reaches(s: nat, n: nat, x: nat, start: nat) {
    s < SECTORS && n < SECTORS && s <= x && start < s + n
  }

  lemma InReachIff(x: nat, start: nat)
    requires x < start
    ensures InReach(x, start) <==> exists s: nat, n: nat :: Reaches(s, n, x, start)
  {
    var s := Min(x, SECTORS - 1);
    if InReach(x, start) { assert Reaches(s, start - s + 1, x, start); }
  }

  // In front of a region that lies ahead a guarded table protects nothing. The write
  // started at `start`.
  lemma AheadClear(t: seq<Region>, start: nat, s: nat, n: nat, x: nat)
    requires NoneWraps(t) && Guarded(t) && start < SECTORS && start <= s && s + n < start + SECTORS
    requires n > 0 && !Inside(t, s, n) && s <= x < Next(t, s, n)
    ensures !Protected(t, x)
  {
    var i := FirstMeeting(t, s, n);
    forall j | 0 <= j < |t| ensures !t[j].Has(x) {
      if i < 0 || j < i {
        assert !Meets(t[j], s, n);
      } else {
        assert InReach(x, t[i].sector);
        forall k | 0 <= k < i ensures !t[k].Has(x) { assert !Meets(t[k], s, n); }
      }
    }
  }

  lemma {:induction false} GuardedFrom(t: seq<Region>, start: nat, s: nat, n: nat, x: nat)
    requires NoneWraps(t) && Guarded(t) && start < SECTORS && start <= s && s + n < start + SECTORS
    ensures Writes(t, s, n, x) <==> s <= x < s + n && !Protected(t, x)
    decreases n
  {
    hide Guarded, Protected, Inside, Next;
    WritesRange(t, s, n, x);
    var e := Next(t, s, n);
    if n > 0 && x >= e {
      GuardedFrom(t, start, e, s + n - e, x);
    } else if n > 0 && s <= x && !Inside(t, s, n) {
      AheadClear(t, start, s, n, x);
    }
  }

  // A guarded table protects: what is written is what is not protected.
  lemma GuardedWrites(t: seq<Region>, s: nat, n: nat, x: nat)
    requires NoneWraps(t) && Guarded(t) && s < SECTORS && n < SECTORS
    ensures Writes(t, s, n, x) <==> s <= x < s + n && !Protected(t, x)
  {
    GuardedFrom(t, s, s, n, x);
  }

  // And only a guarded table does: in any other, region i hides a sector x that only a
  // later region covers, and every write over both x and the start of region i takes x.
  lemma {:induction false} Unguarded(t: seq<Region>, i: nat, j: nat, s: nat, n: nat, x: nat)
    requires NoneWraps(t) && i < j < |t| && t[j].Has(x) && s <= x < t[i].sector < s + n
    requires forall k :: 0 <= k < i ==> !t[k].Has(x)
    ensures Protected(t, x) && Writes(t, s, n, x)
    decreases n
  {
    assert Meets(t[i], s, n);
    var m := FirstMeeting(t, s, n);
    assert m <= i && !t[m].Has(x);
    var e := Next(t, s, n);
    if e <= x { Unguarded(t, i, j, e, s + n - e, x); }
  }

  // A write of n sectors from s on alters the protected sector x.
  ghost predicate Alters(t: seq<Region>, s: nat, n: nat, x: nat) {
    s < SECTORS && n < SECTORS && Writes(t, s, n, x) && Protected(t, x)
  }

  // No write alters a protected sector exactly when the table is guarded.
  lemma GuardedIffSafe(t: seq<Region>)
    requires NoneWraps(t)
    ensures Guarded(t) <==> forall s: nat, n: nat, x: nat :: !Alters(t, s, n, x)
  {
    hide Writes, Protected, InReach;
    if Guarded(t) {
      forall s: nat, n: nat, x: nat ensures !Alters(t, s, n, x) {
        if s < SECTORS && n < SECTORS { GuardedWrites(t, s, n, x); }
      }
    } else {
      var i, j, x: nat :| 0 <= i < j < |t| && t[j].Has(x) && x < t[i].sector && InReach(x, t[i].sector)
                          && forall k :: 0 <= k < i ==> !t[k].Has(x);
      InReachIff(x, t[i].sector);
      var s: nat, n: nat :| Reaches(s, n, x, t[i].sector);
      Unguarded(t, i, j, s, n, x);
      assert Alters(t, s, n, x);
    }
  }

  lemma WrittenProtects(t: seq<Region>, s: nat, n: nat, data: seq<Byte>, was: seq<Sector>, now: seq<Sector>, ok: bool)
    requires |now| == |was| && SS * n <= |data| && s < SECTORS && n < SECTORS && Written(t, s, n, data, was, now, ok)
    ensures NoneWraps(t) && Guarded(t) ==> Protects(t, s, n, data, was, now, ok)
  {
    if NoneWraps(t) && Guarded(t) {
      forall x: nat ensures Writes(t, s, n, x) <==> s <= x < s + n && !Protected(t, x) { GuardedWrites(t, s, n, x); }
    }
  }

  // -- Building the table --

  const DEFAULTS: seq<Region> := [Region(0, 1), Region(0x96, 1)]

  // The firmware partitions among the first n.
  function Firmware(parts: seq<Option<Partition>>, n: nat): (fs: seq<Region>)
    requires n <= |parts|
  {
    if n == 0 then []
    else if parts[n - 1].Some? && parts[n - 1].value.type_ == 3
    then Firmware(parts, n - 1) + [Region(parts[n - 1].value.sector, parts[n - 1].value.count)]
    else Firmware(parts, n - 1)
  }

  predicate InWords(parts: seq<Option<Partition>>) {
    forall i :: 0 <= i < |parts| && parts[i].Some? ==> parts[i].value.sector < WORD && parts[i].value.count < WORD
  }

  lemma StartOfTable(parts: seq<Option<Partition>>)
    ensures Built(Firmware(parts, 0)) == DEFAULTS
  {
  }

  lemma NextPartition(parts: seq<Option<Partition>>, i: nat)
    requires i < |parts|
    ensures var t, p := Built(Firmware(parts, i)), parts[i];
            Built(Firmware(parts, i + 1)) ==
            if p.Some? && p.value.type_ == 3 then Joined(t, Region(p.value.sector, p.value.count)) else t
  {
    var fs := Firmware(parts, i + 1);
    assert fs != Firmware(parts, i) ==> fs[..|fs| - 1] == Firmware(parts, i);
  }

  // The region in front of a partition, which it is merged into; -1: none.
  function Front(t: seq<Region>, f: Region): (i: int)
    ensures -1 <= i < |t|
    ensures i >= 0 ==> f.sector > 0 && t[i].Has(f.sector - 1)
  {
    if f.sector == 0 then -1 else FirstMeeting(t, f.sector - 1, 1)
  }

  // One partition joins the table: merged into the region in front of it, if there is
  // one, else as a new region.
  function Joined(t: seq<Region>, f: Region): (r: seq<Region>)
    ensures |t| <= |r| <= |t| + 1
  {
    var i := Front(t, f);
    if i >= 0 then t[i := Region(t[i].sector, Sum(t[i].count, f.count))] else t + [f]
  }

  function Built(fs: seq<Region>): (t: seq<Region>)
    ensures 2 <= |t| <= 2 + |fs|
  {
    if fs == [] then DEFAULTS else Joined(Built(fs[..|fs| - 1]), fs[|fs| - 1])
  }

  // No region of the table exceeds 32 bits while it is built.
  predicate Unwrapped(fs: seq<Region>) {
    fs == [] ||
    var pre, f := fs[..|fs| - 1], fs[|fs| - 1];
    Unwrapped(pre) && JoinFits(Built(pre), f)
  }

  predicate JoinFits(t: seq<Region>, f: Region) {
    var i := Front(t, f);
    (if i >= 0 then t[i].sector + t[i].count + f.count else f.sector + f.count) < WORD
  }

  lemma JoinedCovers(t: seq<Region>, f: Region, x: nat)
    requires JoinFits(t, f) && (Protected(t, x) || f.Has(x))
    ensures Protected(Joined(t, f), x)
  {
    var r, i := Joined(t, f), Front(t, f);
    if Protected(t, x) {
      var j :| 0 <= j < |t| && t[j].Has(x);
      assert r[j].Has(x);
    } else {
      assert r[if i >= 0 then i else |t|].Has(x);
    }
  }

  // Sector 0, sector 0x96 and every firmware partition are protected, merged or not.
  lemma {:induction false} BuiltCovers(fs: seq<Region>, x: nat)
    requires Unwrapped(fs) && Protected(DEFAULTS + fs, x)
    ensures Protected(Built(fs), x)
    decreases |fs|
  {
    if fs == [] {
      assert DEFAULTS + fs == DEFAULTS;
    } else {
      var pre, f := fs[..|fs| - 1], fs[|fs| - 1];
      if !f.Has(x) {
        var j :| 0 <= j < |DEFAULTS + fs| && (DEFAULTS + fs)[j].Has(x);
        assert (DEFAULTS + pre)[j].Has(x);
        BuiltCovers(pre, x);
      }
      JoinedCovers(Built(pre), f, x);
    }
  }

  // Regions that are not empty, end within 32 bits and share no sector.
  predicate Separate(t: seq<Region>) {
    && (forall i :: 0 <= i < |t| ==> 0 < t[i].count && t[i].sector + t[i].count < WORD)
    && (forall i, j :: 0 <= i < j < |t| ==> Beside(t[i], t[j]))
  }

  predicate Beside(a: Region, b: Region) {
    a.sector + a.count <= b.sector || b.sector + b.count <= a.sector
  }

  lemma BesideAll(t: seq<Region>, f: Region)
    requires Separate(t) && 0 < f.count && f.sector + f.count < WORD && forall x: nat :: f.Has(x) ==> !Protected(t, x)
    ensures forall i :: 0 <= i < |t| ==> Beside(t[i], f)
  {
    forall i | 0 <= i < |t| ensures Beside(t[i], f) {
      if !Beside(t[i], f) {
        var x := if t[i].sector <= f.sector then f.sector else t[i].sector;
        assert t[i].Has(x) && f.Has(x);
      }
    }
  }

  lemma JoinedSeparate(t: seq<Region>, f: Region)
    requires Separate(t) && 0 < f.count && f.sector + f.count < WORD && forall i :: 0 <= i < |t| ==> Beside(t[i], f)
    ensures JoinFits(t, f) && Separate(Joined(t, f))
    ensures forall x: nat :: Protected(Joined(t, f), x) <==> Protected(t, x) || f.Has(x)
  {
    var r, i := Joined(t, f), Front(t, f);
    forall x: nat ensures Protected(r, x) <==> Protected(t, x) || f.Has(x) {
      if Protected(t, x) || f.Has(x) { JoinedCovers(t, f, x); }
      if Protected(r, x) {
        var j :| 0 <= j < |r| && r[j].Has(x);
        if j < |t| && !f.Has(x) { assert t[j].Has(x); }
      }
    }
  }

  // Partitions that share no sector with each other, sector 0 or sector 0x96 are
  // protected, in whatever order they come, and nothing else is.
  lemma {:induction false} BuiltIsExact(fs: seq<Region>)
    requires Separate(DEFAULTS + fs)
    ensures Unwrapped(fs) && Separate(Built(fs))
    ensures forall x: nat :: Protected(Built(fs), x) <==> Protected(DEFAULTS + fs, x)
    decreases |fs|
  {
    if fs == [] {
      assert DEFAULTS + fs == DEFAULTS;
    } else {
      var pre, f := fs[..|fs| - 1], fs[|fs| - 1];
      var all, some := DEFAULTS + fs, DEFAULTS + pre;
      assert all == some + [f];
      assert Separate(some) by {
        forall i | 0 <= i < |some| ensures some[i] == all[i] {}
      }
      BuiltIsExact(pre);
      forall x: nat ensures Protected(all, x) <==> Protected(some, x) || f.Has(x) { ProtectedByMore(some, f, x); }
      forall x: nat | f.Has(x) ensures !Protected(some, x) {
        forall j | 0 <= j < |some| ensures !some[j].Has(x) { assert Beside(all[j], all[|some|]); }
      }
      BesideAll(Built(pre), f);
      JoinedSeparate(Built(pre), f);
    }
  }

  lemma ProtectedByMore(t: seq<Region>, f: Region, x: nat)
    ensures Protected(t + [f], x) <==> Protected(t, x) || f.Has(x)
  {
    if j :| 0 <= j < |t| && t[j].Has(x) { assert (t + [f])[j].Has(x); }
    if f.Has(x) { assert (t + [f])[|t|].Has(x); }
  }

  // -- Which tables are guarded --

  lemma SortedGuards(t: seq<Region>)
    requires Sorted(t)
    ensures Guarded(t)
  {
  }

  // Sorted, but for pairs too far apart for one write.
  predicate SortedInReach(t: seq<Region>) {
    forall i, j :: 0 <= i < j < |t| && t[j].sector < t[j].End() && t[j].sector < t[i].sector ==>
      !InReach(t[j].End() - 1, t[i].sector)
  }

  // Regions that share no sector hide each other unless they are sorted in that sense.
  lemma SeparateGuards(t: seq<Region>)
    requires Separate(t)
    ensures NoneWraps(t) && (Guarded(t) <==> SortedInReach(t))
  {
    if Guarded(t) {
      forall i, j | 0 <= i < j < |t| && t[j].sector < t[i].sector ensures !InReach(t[j].End() - 1, t[i].sector) {
        var x := t[j].End() - 1;
        assert t[j].Has(x) && Beside(t[i], t[j]);
        forall k | 0 <= k < i ensures !t[k].Has(x) { assert Beside(t[k], t[j]); }
      }
    } else {
      var i, j, x: nat :| 0 <= i < j < |t| && t[j].Has(x) && x < t[i].sector && InReach(x, t[i].sector)
                          && forall k :: 0 <= k < i ==> !t[k].Has(x);
      assert InReach(t[j].End() - 1, t[i].sector);
    }
  }

  // For such partitions: the table protects them against every write exactly when it is
  // sorted as far as one write reaches.
  lemma PartitionsSafeIffSorted(fs: seq<Region>)
    requires Separate(DEFAULTS + fs)
    ensures SortedInReach(Built(fs)) <==>
            forall s: nat, n: nat, x: nat :: Protected(DEFAULTS + fs, x) ==> !Alters(Built(fs), s, n, x)
  {
    hide Writes, Protected, Built, SortedInReach;
    BuiltIsExact(fs);
    SeparateGuards(Built(fs));
    GuardedIffSafe(Built(fs));
  }

  // Regions that start below the last sector a write can start at are all in reach.
  lemma NearIsSorted(t: seq<Region>)
    requires forall i :: 0 <= i < |t| ==> 0 < t[i].count && t[i].sector + t[i].count < WORD && t[i].sector < SECTORS - 1
    ensures SortedInReach(t) <==> Sorted(t)
  {
    if SortedInReach(t) {
      forall i, j | 0 <= i < j < |t| ensures t[i].sector <= t[j].sector {
        if t[j].sector < t[i].sector { assert false; }
      }
    }
  }

  // Firmware partitions in ascending order from sector 0x96 on give a sorted table.
  predicate Ascending(fs: seq<Region>) {
    forall i :: 0 <= i < |fs| ==> 0x96 <= fs[i].sector && (i > 0 ==> fs[i - 1].sector <= fs[i].sector)
  }

  lemma {:induction false} BuiltIsSorted(fs: seq<Region>)
    requires Ascending(fs)
    ensures Sorted(Built(fs))
    ensures forall j :: 0 <= j < |Built(fs)| ==> Built(fs)[j].sector <= if fs == [] then 0x96 else fs[|fs| - 1].sector
    decreases |fs|
  {
    if fs != [] {
      BuiltIsSorted(fs[..|fs| - 1]);
    }
  }

  // A firmware partition in front of sector 0x96 is not protected: a write from sector 1
  // on meets sector 0x96 first, as that comes first in the table, and writes up to it.
  lemma LowPartition(c: nat)
    requires 0 < c <= 0x86
    ensures var t := Built([Region(0x10, c)]);
            && t == [Region(0, 1), Region(0x96, 1), Region(0x10, c)] && Separate(t)
            && Alters(t, 1, 0x200, 0x10)
  {
    var f := Region(0x10, c);
    var t := DEFAULTS + [f];
    assert Built([]) == DEFAULTS && [f][..0] == [];
    assert DEFAULTS[1..] == [Region(0x96, 1)] && DEFAULTS[1..][1..] == [];
    assert Built([f]) == t;
    assert t[2].Has(0x10);
    assert !Meets(t[0], 1, 0x200) && Meets(t[1], 1, 0x200);
    assert FirstMeeting(t, 1, 0x200) == 1;
  }

  lemma {:induction false} OnlyFirst(parts: seq<Option<Partition>>, n: nat)
    requires 0 < n <= |parts| && parts[0].Some? && parts[0].value.type_ == 3 && forall i :: 0 < i < |parts| ==> parts[i].None?
    ensures Firmware(parts, n) == [Region(parts[0].value.sector, parts[0].value.count)]
  {
    if n > 1 { OnlyFirst(parts, n - 1); } else { assert Firmware(parts, 0) == []; }
  }

  // The same through the calls: protection is switched on for that partition and a write
  // that succeeds replaces its first sector.
  method OverwriteLow(p: Protection, dev: Device, c: nat, data: seq<Byte>) returns (ok: bool)
    requires p.Valid() && p.num == 0 && 0 < c <= 0x86 && |data| == 0x4_0000 && |dev.sectors| > 0x10
    modifies p, p.regions, dev
    ensures p.Valid()
    ensures |dev.sectors| == |old(dev.sectors)| && Protected(p.Table(), 0x10)
    ensures ok ==> dev.sectors[0x10] == data[0x1E00..0x2000]
  {
    hide Built;
    var none: Option<Partition> := None;
    var parts := [Some(Partition(3, 0x10, c)), none, none, none, none, none, none, none];
    p.SetNandProtection(true, parts);
    OnlyFirst(parts, 8);
    LowPartition(c);
    ok := p.WriteFromBuffer(dev, 0x200, 0x4_0000, data);
  }

  function Min(a: nat, b: nat): nat {
    if a <= b then a else b
  }
}
