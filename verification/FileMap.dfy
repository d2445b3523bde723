/** Where the bytes of a file lie: cluster chains as lists of sectors, and lists of
    sectors as byte sequences (thirdparty/fatfs/ff.c, clst2sect and the position
    arithmetic of f_read, f_write and f_lseek). */
module FileMap {
  import opened Disk
  import opened FatLayout
  import opened Chain

  // Sector j of a cluster: clst2sect(clst) + j.
  function SectorOf(g: Geometry, clst: nat, j: nat): int {
    g.database + g.csize * (clst - 2) + j
  }

  // The k-th sector of a chain.
  function SectorAt(g: Geometry, chain: seq<nat>, k: nat): int
    requires g.csize > 0 && k / g.csize < |chain|
  {
    SectorOf(g, chain[k / g.csize], k % g.csize)
  }

  // secs lists the sectors of a chain in file order.
  ghost predicate SecsOf(g: Geometry, chain: seq<nat>, secs: seq<nat>)
    requires g.csize > 0
  {
    && |secs| == g.csize * |chain|
    && forall k: nat {:trigger SectorAt(g, chain, k)} :: k < |secs| ==>
         k / g.csize < |chain| && secs[k] == SectorAt(g, chain, k)
  }

  lemma DivMod(a: int, b: nat, q: int, r: nat)
    requires b in {1, 2, 4, 8, 16, 32, 64, 128} && r < b && a == b * q + r
    ensures a / b == q && a % b == r
  {
    if b <= 8 {
      if b == 1 {} else if b == 2 {} else if b == 4 {} else {}
    } else {
      if b == 16 {} else if b == 32 {} else if b == 64 {} else {}
    }
  }

  // Distinct clusters own disjoint sector ranges, all inside the data area.
  lemma SectorOfInjective(g: Geometry, c: nat, j: nat, d: nat, i: nat)
    requires g.DataOk() && j < g.csize && i < g.csize
    requires SectorOf(g, c, j) == SectorOf(g, d, i)
    ensures c == d && j == i
  {
    DivMod(SectorOf(g, c, j) - g.database, g.csize, c - 2, j);
    DivMod(SectorOf(g, d, i) - g.database, g.csize, d - 2, i);
  }

  lemma SectorOfInData(g: Geometry, c: nat, j: nat)
    requires g.DataOk() && 2 <= c < g.nFatent && j < g.csize
    ensures g.database <= SectorOf(g, c, j) < g.volend
  {
    var m := c - 2;
    assert g.csize * m >= 0;
    assert g.csize * (m + 1) <= g.csize * (g.nFatent - 2);
  }

  // A file position by cluster and by sector within the cluster.
  lemma Position(g: Geometry, k: nat)
    requires g.DataOk()
    ensures k == g.csize * (k / g.csize) + k % g.csize
    ensures k % g.csize < g.csize
  {
  }

  // The sector before a cluster boundary lies in the previous cluster, every other
  // sector's predecessor in the same one.
  lemma PreviousSector(g: Geometry, k: nat)
    requires g.DataOk() && k > 0
    ensures (k - 1) / g.csize == if k % g.csize == 0 then k / g.csize - 1 else k / g.csize
  {
    var q, r := k / g.csize, k % g.csize;
    Position(g, k);
    if r == 0 {
      assert g.csize * q - 1 == g.csize * (q - 1) + (g.csize - 1);
      DivMod(k - 1, g.csize, q - 1, g.csize - 1);
    } else {
      DivMod(k - 1, g.csize, q, r - 1);
    }
  }

  lemma SameCluster(g: Geometry, k: nat, j: nat)
    requires g.DataOk() && k % g.csize + j < g.csize
    ensures (k + j) / g.csize == k / g.csize && (k + j) % g.csize == k % g.csize + j
  {
    Position(g, k);
    DivMod(k + j, g.csize, k / g.csize, k % g.csize + j);
  }

  lemma MulMonotone(b: nat, x: int, y: int)
    ensures x <= y ==> b * x <= b * y
  {
  }

  // clst2sect: the first sector of a cluster, 0 for an invalid number. (Its 32-bit form is
  // in module Mount.)
  function Clst2Sect(g: Geometry, clst: nat): nat
    requires g.Ok()
  {
    if clst < 2 || clst >= g.nFatent then 0 else
      MulMonotone(g.csize, 0, clst - 2);
      g.database + g.csize * (clst - 2)
  }

  lemma ClusterIndexInChain(g: Geometry, n: nat, k: nat)
    requires g.DataOk() && k < g.csize * n
    ensures k / g.csize < n
  {
    Position(g, k);
    MulMonotone(g.csize, n, k / g.csize);
  }

  lemma SecsDistinct(g: Geometry, f: seq<nat>, chain: seq<nat>, secs: seq<nat>, a: nat, b: nat)
    requires g.DataOk() && SecsOf(g, chain, secs) && IsChain(f, chain)
    requires a < |secs| && b < |secs| && secs[a] == secs[b]
    ensures a == b
  {
    hide IsChain;
    var qa, qb := a / g.csize, b / g.csize;
    assert secs[a] == SectorAt(g, chain, a) && secs[b] == SectorAt(g, chain, b);
    ChainFromTwo(f, chain, qa);
    ChainFromTwo(f, chain, qb);
    SectorOfInjective(g, chain[qa], a % g.csize, chain[qb], b % g.csize);
    SameIndex(f, chain, qa, qb);
    Position(g, a);
    Position(g, b);
  }

  lemma ChainFromTwo(f: seq<nat>, chain: seq<nat>, q: nat)
    requires IsChain(f, chain) && q < |chain|
    ensures chain[q] >= 2
  {
  }

  lemma SameIndex(f: seq<nat>, chain: seq<nat>, i: nat, j: nat)
    requires IsChain(f, chain) && i < |chain| && j < |chain| && chain[i] == chain[j]
    ensures i == j
  {
    if i < j { ChainDistinct(f, chain, i, j); }
    if j < i { ChainDistinct(f, chain, j, i); }
  }

  // Within a cluster file order is disk order.
  lemma SecsContiguous(g: Geometry, chain: seq<nat>, secs: seq<nat>, k: nat, j: nat)
    requires g.DataOk() && SecsOf(g, chain, secs) && k < |secs| && k % g.csize + j < g.csize
    ensures k + j < |secs| && secs[k + j] == secs[k] + j
  {
    assert secs[k] == SectorAt(g, chain, k);
    SameCluster(g, k, j);
    InChainIndex(g, |chain|, k + j);
    assert secs[k + j] == SectorAt(g, chain, k + j);
  }

  lemma InChainIndex(g: Geometry, n: nat, k: nat)
    requires g.DataOk() && k / g.csize < n
    ensures k < g.csize * n
  {
    Position(g, k);
    MulMonotone(g.csize, k / g.csize + 1, n);
    MulNext(g.csize, k / g.csize);
  }

  lemma MulNext(b: nat, x: int)
    ensures b * (x + 1) == b * x + b
  {
  }

  // cc sectors in file order from k on are also in disk order.
  ghost predicate InOrder(secs: seq<nat>, k: nat, cc: nat) {
    k + cc <= |secs| && forall m {:trigger secs[m]} :: k <= m < k + cc ==> secs[m] == secs[k] + (m - k)
  }

  lemma ClusterInOrder(g: Geometry, chain: seq<nat>, secs: seq<nat>, k: nat, cc: nat)
    requires g.DataOk() && SecsOf(g, chain, secs) && k < |secs| && cc > 0 && k % g.csize + cc <= g.csize
    ensures InOrder(secs, k, cc)
  {
    SecsContiguous(g, chain, secs, k, cc - 1);
    forall m | k <= m < k + cc ensures secs[m] == secs[k] + (m - k) {
      SecsContiguous(g, chain, secs, k, m - k);
    }
  }

  // The sectors one more cluster adds.
  function Block(g: Geometry, clst: nat): (b: seq<nat>)
    requires clst >= 2
    ensures |b| == g.csize
    ensures forall j :: 0 <= j < g.csize ==> b[j] == SectorOf(g, clst, j)
  {
    seq(g.csize, j requires 0 <= j < g.csize => BlockSector(g, clst, j))
  }

  function BlockSector(g: Geometry, clst: nat, j: nat): (s: nat)
    requires clst >= 2
    ensures s == SectorOf(g, clst, j)
  {
    assert g.csize * (clst - 2) >= 0;
    SectorOf(g, clst, j)
  }

  lemma SecsExtend(g: Geometry, chain: seq<nat>, secs: seq<nat>, c: nat)
    requires g.DataOk() && SecsOf(g, chain, secs) && c >= 2
    ensures SecsOf(g, chain + [c], secs + Block(g, c))
  {
    MulNext(g.csize, |chain|);
    forall k: nat | k < |secs| + g.csize
      ensures k / g.csize < |chain| + 1 && (secs + Block(g, c))[k] == SectorAt(g, chain + [c], k)
    {
      ExtendedSector(g, chain, secs, c, k);
    }
  }

  lemma ExtendedSector(g: Geometry, chain: seq<nat>, secs: seq<nat>, c: nat, k: nat)
    requires g.DataOk() && SecsOf(g, chain, secs) && c >= 2 && k < |secs| + g.csize
    ensures k / g.csize < |chain| + 1 && (secs + Block(g, c))[k] == SectorAt(g, chain + [c], k)
  {
    if k < |secs| {
      assert secs[k] == SectorAt(g, chain, k);
    } else {
      DivMod(k, g.csize, |chain|, k - |secs|);
    }
  }

  lemma SecsShorten(g: Geometry, chain: seq<nat>, secs: seq<nat>, n: nat)
    requires g.DataOk() && SecsOf(g, chain, secs) && n <= |chain|
    ensures g.csize * n <= |secs| && SecsOf(g, chain[..n], secs[..g.csize * n])
  {
    assert g.csize * n <= g.csize * |chain|;
    forall k: nat | k < g.csize * n ensures k / g.csize < n && secs[k] == SectorAt(g, chain[..n], k) {
      ClusterIndexInChain(g, n, k);
      assert secs[k] == SectorAt(g, chain, k);
    }
  }

  // -- Sectors as bytes --

  // The first n bytes held by a list of sectors.
  function Content(img: seq<Sector>, n: nat): (d: seq<Byte>)
    requires n <= SS * |img|
    ensures |d| == n
    ensures forall i :: 0 <= i < n ==> d[i] == img[i / SS][i % SS]
  {
    seq(n, i requires 0 <= i < n => img[i / SS][i % SS])
  }

  // d with w laid over it from p on, extending it if needed.
  function Splice(d: seq<Byte>, p: nat, w: seq<Byte>): (d': seq<Byte>)
    requires p <= |d|
    ensures |d'| == if p + |w| <= |d| then |d| else p + |w|
    ensures forall i :: 0 <= i < |d'| ==> d'[i] == if p <= i < p + |w| then w[i - p] else d[i]
  {
    if p + |w| <= |d| then d[..p] + w + d[p + |w|..] else d[..p] + w
  }

  lemma SpliceTwice(d: seq<Byte>, p: nat, v: seq<Byte>, w: seq<Byte>)
    requires p <= |d|
    ensures Splice(Splice(d, p, v), p + |v|, w) == Splice(d, p, v + w)
  {
  }

  // A buffer that takes the file's bytes from sector k on, or from within one sector,
  // and keeps its own elsewhere, is the old buffer with that slice laid over it.
  lemma SectorsSpliced(b: seq<Byte>, b': seq<Byte>, ofs: nat, n: nat, img: seq<Sector>, k: nat, size: nat)
    requires |b'| == |b| && ofs + n <= |b| && SS * k + n <= size <= SS * |img|
    requires forall i :: 0 <= i < |b| ==>
               b'[i] == if ofs <= i < ofs + n then img[k + (i - ofs) / SS][(i - ofs) % SS] else b[i]
    ensures b' == Splice(b, ofs, Content(img, size)[SS * k..SS * k + n])
  {
    var w := Content(img, size)[SS * k..SS * k + n];
    forall i | 0 <= i < |b| ensures b'[i] == Splice(b, ofs, w)[i] {
      if ofs <= i < ofs + n {
        var j := i - ofs;
        assert (SS * k + j) / SS == k + j / SS && (SS * k + j) % SS == j % SS;
        assert w[j] == Content(img, size)[SS * k + j];
      }
    }
  }

  lemma PartSpliced(b: seq<Byte>, b': seq<Byte>, ofs: nat, n: nat, img: seq<Sector>, p: nat, size: nat)
    requires |b'| == |b| && ofs + n <= |b| && p + n <= size <= SS * |img|
    requires p % SS + n <= SS && p / SS < |img|
    requires forall i :: 0 <= i < |b| ==>
               b'[i] == if ofs <= i < ofs + n then img[p / SS][p % SS + (i - ofs)] else b[i]
    ensures b' == Splice(b, ofs, Content(img, size)[p..p + n])
  {
    var w := Content(img, size)[p..p + n];
    forall i | 0 <= i < |b| ensures b'[i] == Splice(b, ofs, w)[i] {
      if ofs <= i < ofs + n {
        var j := i - ofs;
        assert (p + j) / SS == p / SS && (p + j) % SS == p % SS + j;
        assert w[j] == Content(img, size)[p + j];
      }
    }
  }

  // Two adjacent slices laid side by side are one slice.
  lemma SliceSpliced(b: seq<Byte>, ofs: nat, d: seq<Byte>, p: nat, n: nat, m: nat)
    requires ofs + n + m <= |b| && p + n + m <= |d|
    ensures Splice(Splice(b, ofs, d[p..p + n]), ofs + n, d[p + n..p + n + m]) == Splice(b, ofs, d[p..p + n + m])
  {
    hide Splice;
    SpliceTwice(b, ofs, d[p..p + n], d[p + n..p + n + m]);
    assert d[p..p + n] + d[p + n..p + n + m] == d[p..p + n + m];
  }

  // What the file's bytes become when sectors change only at p..p+|w|.
  lemma ContentSpliced(img: seq<Sector>, img': seq<Sector>, n: nat, n': nat, p: nat, w: seq<Byte>)
    requires |img'| == |img| && p <= n <= SS * |img| && p + |w| <= SS * |img|
    requires n' == if p + |w| <= n then n else p + |w|
    requires forall i: nat {:trigger img'[i / SS][i % SS]} :: i < n' ==>
               img'[i / SS][i % SS] == if p <= i < p + |w| then w[i - p] else img[i / SS][i % SS]
    ensures Content(img', n') == Splice(Content(img, n), p, w)
  {
    forall i: nat | i < n' ensures Content(img', n')[i] == Splice(Content(img, n), p, w)[i] {
      assert Content(img', n')[i] == img'[i / SS][i % SS];
    }
  }

  // Whole sectors k.. replaced by w.
  function WithSectors(img: seq<Sector>, k: nat, w: seq<Byte>): (img': seq<Sector>)
    requires |w| % SS == 0 && k + |w| / SS <= |img|
    ensures |img'| == |img|
    ensures forall j :: 0 <= j < |img| ==>
              img'[j] == if k <= j < k + |w| / SS then w[SS * (j - k)..SS * (j - k) + SS] else img[j]
  {
    seq(|img|, j requires 0 <= j < |img| =>
      if k <= j < k + |w| / SS then w[SS * (j - k)..SS * (j - k) + SS] else img[j])
  }

  lemma WholeSpliced(img: seq<Sector>, k: nat, w: seq<Byte>, n: nat, n': nat)
    requires |w| % SS == 0 && k + |w| / SS <= |img| && SS * k <= n <= SS * |img|
    requires n' == if SS * k + |w| <= n then n else SS * k + |w|
    ensures n' <= SS * |img|
    ensures Content(WithSectors(img, k, w), n') == Splice(Content(img, n), SS * k, w)
  {
    var img' := WithSectors(img, k, w);
    forall i: nat | i < n'
      ensures img'[i / SS][i % SS] == if SS * k <= i < SS * k + |w| then w[i - SS * k] else img[i / SS][i % SS]
    {
      var j := i / SS;
      if k <= j < k + |w| / SS {
        assert img'[j] == w[SS * (j - k)..SS * (j - k) + SS];
      } else {
        assert img'[j] == img[j];
      }
    }
    ContentSpliced(img, img', n, n', SS * k, w);
  }

  // One sector replaced by b, which differs from it at p % SS.. only (or lies past the end).
  lemma PartialSpliced(img: seq<Sector>, b: Sector, p: nat, w: seq<Byte>, n: nat, n': nat)
    requires p / SS < |img| && p % SS + |w| <= SS && p <= n <= SS * |img| && |w| > 0
    requires n' == if p + |w| <= n then n else p + |w|
    requires forall i :: 0 <= i < |w| ==> b[p % SS + i] == w[i]
    requires forall i: nat {:trigger b[i]} :: i < SS && !(p % SS <= i < p % SS + |w|) && SS * (p / SS) + i < n' ==> b[i] == img[p / SS][i]
    ensures n' <= SS * |img|
    ensures Content(img[p / SS := b], n') == Splice(Content(img, n), p, w)
  {
    var k := p / SS;
    var img' := img[k := b];
    forall i: nat | i < n'
      ensures img'[i / SS][i % SS] == if p <= i < p + |w| then w[i - p] else img[i / SS][i % SS]
    {
      if i / SS == k {
        assert i == SS * k + i % SS && p == SS * k + p % SS;
        assert img'[i / SS] == b;
        if p <= i < p + |w| {
          assert b[p % SS + (i - p)] == w[i - p];
        }
      }
    }
    ContentSpliced(img, img', n, n', p, w);
  }
}
