/** The block device under the FAT driver: an array of 512-byte sectors whose
    calls may fail at any time. A failed write leaves arbitrary bytes in the
    sectors it addressed, and every failure is counted in a ghost field so that
    callers can state what holds while all calls succeed. */
module Disk {
  type Byte = x: int | 0 <= x < 256
  const SS: nat := 512
  type Sector = s: seq<Byte> | |s| == SS witness seq(SS, _ => 0)

  class Device {
    var sectors: seq<Sector>
    ghost var faults: nat

    constructor (image: seq<Sector>)
      ensures sectors == image && faults == 0
    {
      sectors := image;
      faults := 0;
    }

    // Reads `count` sectors into buf[ofs..]. On failure the addressed part of the
    // buffer is unspecified.
    method Read(sector: nat, count: nat, buf: array<Byte>, ofs: nat) returns (ok: bool)
      requires ofs + SS * count <= buf.Length
      modifies buf, this`faults
      ensures faults == old(faults) + (if ok then 0 else 1)
      ensures sector + count > |sectors| ==> !ok
      ensures forall i :: 0 <= i < buf.Length && !(ofs <= i < ofs + SS * count) ==> buf[i] == old(buf[i])
      ensures ok ==> forall i :: ofs <= i < ofs + SS * count ==>
                buf[i] == sectors[sector + (i - ofs) / SS][(i - ofs) % SS]
    {
      var good: bool := *;
      ok := good && sector + count <= |sectors|;
      for i := 0 to SS * count
        invariant faults == old(faults)
        invariant forall k :: 0 <= k < buf.Length && !(ofs <= k < ofs + i) ==> buf[k] == old(buf[k])
        invariant ok ==> forall k :: ofs <= k < ofs + i ==>
                    buf[k] == sectors[sector + (k - ofs) / SS][(k - ofs) % SS]
      {
        if ok {
          buf[ofs + i] := sectors[sector + i / SS][i % SS];
        } else {
          buf[ofs + i] := *;
        }
      }
      if !ok {
        faults := faults + 1;
      }
    }

    // Writes `count` sectors taken from data[ofs..]. On failure the addressed
    // sectors are unspecified and all others are unchanged.
    method Write(sector: nat, count: nat, data: seq<Byte>, ofs: nat) returns (ok: bool)
      requires ofs + SS * count <= |data|
      modifies this
      ensures faults == old(faults) + (if ok then 0 else 1)
      ensures sector + count > |sectors| ==> !ok
      ensures |sectors| == |old(sectors)|
      ensures forall k :: 0 <= k < |sectors| && !(sector <= k < sector + count) ==> sectors[k] == old(sectors[k])
      ensures ok ==> forall k :: sector <= k < sector + count ==>
                sectors[k] == data[ofs + SS * (k - sector)..ofs + SS * (k - sector) + SS]
    {
      var good: bool := *;
      ok := good && sector + count <= |sectors|;
      var before := sectors;
      for k := 0 to count
        invariant faults == old(faults) && |sectors| == |before|
        invariant forall j :: 0 <= j < |sectors| && !(sector <= j < sector + k) ==> sectors[j] == before[j]
        invariant ok ==> forall j :: sector <= j < sector + k ==>
                    sectors[j] == data[ofs + SS * (j - sector)..ofs + SS * (j - sector) + SS]
      {
        if ok {
          sectors := sectors[sector + k := data[ofs + SS * k..ofs + SS * k + SS]];
        } else if sector + k < |sectors| {
          var junk: Sector := *;
          sectors := sectors[sector + k := junk];
        }
      }
      if !ok {
        faults := faults + 1;
      }
    }
  }
}
