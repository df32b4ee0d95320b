// Where the bytes of a file lie: clusters to sectors (clust2sect), sectors to bytes.
module FatSectors {
  import opened Arith
  import opened Bytes
  import opened FatVolume

  // clust2sect: the first sector of a cluster, 0 for an invalid one.
  function Clust2Sect(g: Geometry, clst: nat): nat {
    if 2 <= clst < g.nFatent then (clst - 2) * g.csize + g.database else 0
  }

  // Clusters and sectors inside them are told apart by their sector numbers,
  // all of them behind the FAT area and on the drive.
  lemma ClusterSectors(g: Geometry, sectors: nat, a: nat, i: nat, b: nat, j: nat)
    requires g.Valid(sectors) && 2 <= a < g.nFatent && 2 <= b < g.nFatent && i < g.csize && j < g.csize
    ensures g.database <= Clust2Sect(g, a) && Clust2Sect(g, a) + i < sectors
    ensures !g.InFatArea(Clust2Sect(g, a) + i) && 0 < Clust2Sect(g, a)
    ensures Clust2Sect(g, a) + i == Clust2Sect(g, b) + j ==> a == b && i == j
  {
    var p, q := a - 2, b - 2;
    assert g.fatbase + g.FatSectors() <= g.database && 0 < g.fatbase;
    assert g.database + (g.nFatent - 2) * g.csize <= sectors;
    hide Geometry.Valid;
    MulStep(p, g.nFatent - 2, g.csize);
    if p < q { MulStep(p, q, g.csize); }
    if q < p { MulStep(q, p, g.csize); }
  }

  // The data area from its first sector on: cluster 2, then the others in order, csize
  // sectors each. What is no cluster has no sector.
  lemma {:induction false} ClusterLayout(g: Geometry, c: nat)
    requires 2 < g.nFatent
    ensures Clust2Sect(g, 2) == g.database
    ensures 2 <= c && c + 1 < g.nFatent ==> Clust2Sect(g, c + 1) == Clust2Sect(g, c) + g.csize
    ensures !(2 <= c < g.nFatent) ==> Clust2Sect(g, c) == 0
  {
    if 2 <= c { assert (c - 2 + 1) * g.csize == (c - 2) * g.csize + g.csize; }
  }

  // The cluster a sector of the data area belongs to.
  lemma SectorHome(g: Geometry, s: nat)
    requires 0 < g.csize && 2 < g.nFatent && g.database <= s < g.database + (g.nFatent - 2) * g.csize
    ensures var c, m := 2 + (s - g.database) / g.csize, (s - g.database) % g.csize;
            2 <= c < g.nFatent && 0 <= m < g.csize && Clust2Sect(g, c) + m == s
  {
    DivBelow(s - g.database, g.nFatent - 2, g.csize);
  }

  // The chain is made of clusters of the volume, each once.
  ghost predicate Clusters(g: Geometry, chain: seq<nat>) {
    && (forall k :: 0 <= k < |chain| ==> 2 <= chain[k] < g.nFatent)
    && (forall a, b :: 0 <= a < b < |chain| ==> chain[a] != chain[b])
  }

  // Sectors a chain has room for.
  function Room(g: Geometry, chain: seq<nat>): nat {
    |chain| * g.csize
  }

  // Sector number of the j-th sector of a chain.
  function SectAt(g: Geometry, chain: seq<nat>, j: nat): nat {
    if 0 < g.csize && j / g.csize < |chain| then Clust2Sect(g, chain[j / g.csize]) + j % g.csize else 0
  }

  // Sector m of the k-th cluster.
  lemma SectOfCluster(g: Geometry, chain: seq<nat>, k: nat, m: nat)
    requires k < |chain| && m < g.csize
    ensures k * g.csize + m < Room(g, chain)
    ensures SectAt(g, chain, k * g.csize + m) == Clust2Sect(g, chain[k]) + m
  {
    DivModUnique(k, g.csize, m);
    MulStep(k, |chain|, g.csize);
  }

  lemma SectPlace(g: Geometry, chain: seq<nat>, j: nat)
    requires j < Room(g, chain)
    ensures 0 < g.csize && 0 <= j / g.csize < |chain| && 0 <= j % g.csize < g.csize
    ensures j == j / g.csize * g.csize + j % g.csize
    ensures SectAt(g, chain, j) == Clust2Sect(g, chain[j / g.csize]) + j % g.csize
  {
    DivBelow(j, |chain|, g.csize);
  }

  lemma SectInside(g: Geometry, sectors: nat, chain: seq<nat>, j: nat)
    requires g.Valid(sectors) && Clusters(g, chain) && j < Room(g, chain)
    ensures 0 < SectAt(g, chain, j) < sectors && g.database <= SectAt(g, chain, j)
    ensures !g.InFatArea(SectAt(g, chain, j))
  {
    SectPlace(g, chain, j);
    var c := chain[j / g.csize];
    ClusterSectors(g, sectors, c, j % g.csize, c, 0);
  }

  lemma SectInjective(g: Geometry, sectors: nat, chain: seq<nat>, i: nat, j: nat)
    requires g.Valid(sectors) && Clusters(g, chain) && i < Room(g, chain) && j < Room(g, chain)
    ensures SectAt(g, chain, i) == SectAt(g, chain, j) ==> i == j
  {
    SectPlace(g, chain, i);
    SectPlace(g, chain, j);
    ClusterSectors(g, sectors, chain[i / g.csize], i % g.csize, chain[j / g.csize], j % g.csize);
  }

  // A cluster outside the chain shares no sector with it.
  lemma SectForeign(g: Geometry, sectors: nat, chain: seq<nat>, j: nat, c: nat, m: nat)
    requires g.Valid(sectors) && Clusters(g, chain) && j < Room(g, chain)
    requires 2 <= c < g.nFatent && c !in chain && m < g.csize
    ensures SectAt(g, chain, j) != Clust2Sect(g, c) + m
  {
    SectPlace(g, chain, j);
    assert chain[j / g.csize] in chain;
    ClusterSectors(g, sectors, chain[j / g.csize], j % g.csize, c, m);
  }

  // A longer chain keeps its sectors.
  lemma SectPrefix(g: Geometry, chain: seq<nat>, longer: seq<nat>, j: nat)
    requires chain <= longer && j < Room(g, chain)
    ensures j < Room(g, longer) && SectAt(g, longer, j) == SectAt(g, chain, j)
  {
    SectPlace(g, chain, j);
    SectOfCluster(g, longer, j / g.csize, j % g.csize);
  }

  // Sectors of one cluster follow one another.
  lemma SectNext(g: Geometry, chain: seq<nat>, j: nat, i: nat)
    requires j < Room(g, chain) && j % g.csize + i < g.csize
    ensures j + i < Room(g, chain) && SectAt(g, chain, j + i) == SectAt(g, chain, j) + i
  {
    SectPlace(g, chain, j);
    SectOfCluster(g, chain, j / g.csize, j % g.csize + i);
  }

  // ---- Sectors to bytes ----

  ghost predicate Sized(ss: nat, secs: seq<Sector>) {
    0 < ss && forall j :: 0 <= j < |secs| ==> |secs[j]| == ss
  }

  function Flat(ss: nat, secs: seq<Sector>): (r: seq<byte>)
    requires Sized(ss, secs)
    ensures |r| == |secs| * ss
  {
    seq(|secs| * ss, i requires 0 <= i < |secs| * ss => (DivBelow(i, |secs|, ss); secs[i / ss][i % ss]))
  }

  lemma FlatAt(ss: nat, secs: seq<Sector>, j: nat, o: nat)
    requires Sized(ss, secs) && j < |secs| && o < ss
    ensures j * ss + o < |secs| * ss
    ensures Flat(ss, secs)[j * ss + o] == secs[j][o]
  {
    MulStep(j, |secs|, ss);
    DivModUnique(j, ss, o);
  }

  // s with d put over its bytes from p on.
  ghost predicate Patched(s: seq<byte>, p: nat, d: seq<byte>, r: seq<byte>) {
    && p + |d| <= |s| == |r|
    && (forall i :: 0 <= i < |s| ==> r[i] == if p <= i < p + |d| then d[i - p] else s[i])
  }

  // Putting bytes into one sector puts them into the file.
  lemma PatchSector(ss: nat, secs: seq<Sector>, next: seq<Sector>, j: nat, o: nat, d: seq<byte>)
    requires Sized(ss, secs) && |next| == |secs| && j < |secs|
    requires forall i :: 0 <= i < |secs| && i != j ==> next[i] == secs[i]
    requires Patched(secs[j], o, d, next[j])
    ensures Sized(ss, next) && Patched(Flat(ss, secs), j * ss + o, d, Flat(ss, next))
  {
    MulStep(j, |secs|, ss);
    var f, r := Flat(ss, secs), Flat(ss, next);
    forall i | 0 <= i < |f|
      ensures r[i] == if j * ss + o <= i < j * ss + o + |d| then d[i - (j * ss + o)] else f[i]
    {
      DivBelow(i, |secs|, ss);
      var q := i / ss;
      if q < j { MulStep(q, j, ss); }
      if j < q { MulStep(j, q, ss); }
    }
  }

  // The m-th sector of a buffer.
  function Part(ss: nat, d: seq<byte>, m: nat): Sector {
    if m * ss + ss <= |d| then d[m * ss..m * ss + ss] else []
  }

  lemma PartAt(ss: nat, d: seq<byte>, n: nat, m: nat)
    requires |d| == n * ss && m < n
    ensures m * ss + ss <= |d| && |Part(ss, d, m)| == ss
    ensures forall o :: 0 <= o < ss ==> Part(ss, d, m)[o] == d[m * ss + o]
  {
    MulStep(m, n, ss);
  }

  // Replacing whole sectors.
  lemma PatchSectors(ss: nat, secs: seq<Sector>, next: seq<Sector>, j: nat, n: nat, d: seq<byte>)
    requires Sized(ss, secs) && Sized(ss, next) && |next| == |secs| && j + n <= |secs| && |d| == n * ss
    requires forall q :: 0 <= q < |secs| ==> next[q] == if j <= q < j + n then Part(ss, d, q - j) else secs[q]
    ensures Patched(Flat(ss, secs), j * ss, d, Flat(ss, next))
  {
    var f, r := Flat(ss, secs), Flat(ss, next);
    assert j * ss + |d| == (j + n) * ss;
    if j + n < |secs| { MulStep(j + n, |secs|, ss); }
    forall i | 0 <= i < |f|
      ensures r[i] == if j * ss <= i < j * ss + |d| then d[i - j * ss] else f[i]
    {
      DivBelow(i, |secs|, ss);
      PatchOne(ss, secs, next, j, n, d, i / ss, i % ss);
    }
  }

  lemma PatchOne(ss: nat, secs: seq<Sector>, next: seq<Sector>, j: nat, n: nat, d: seq<byte>, q: nat, o: nat)
    requires Sized(ss, secs) && |next| == |secs| && j + n <= |secs| && |d| == n * ss
    requires q < |secs| && o < ss && |next[q]| == ss
    requires next[q] == if j <= q < j + n then Part(ss, d, q - j) else secs[q]
    ensures j * ss <= q * ss + o < j * ss + |d| <==> j <= q < j + n
    ensures next[q][o] == if j <= q < j + n then d[q * ss + o - j * ss] else secs[q][o]
  {
    assert j * ss + |d| == (j + n) * ss;
    if q < j {
      MulStep(q, j, ss);
    } else {
      assert (q - j) * ss == q * ss - j * ss;
      if q < j + n {
        MulStep(q, j + n, ss);
        PartAt(ss, d, n, q - j);
      } else {
        assert (q - (j + n)) * ss == q * ss - (j + n) * ss;
      }
    }
  }

  // More sectors behind leave the bytes in front alone.
  lemma FlatPrefix(ss: nat, secs: seq<Sector>, more: seq<Sector>)
    requires Sized(ss, secs) && Sized(ss, more) && secs <= more
    ensures |secs| * ss <= |more| * ss && Flat(ss, secs) == Flat(ss, more)[..|secs| * ss]
  {
    if |secs| < |more| { MulStep(|secs|, |more|, ss); }
    forall i | 0 <= i < |secs| * ss
      ensures Flat(ss, secs)[i] == Flat(ss, more)[i]
    {
      DivBelow(i, |secs|, ss);
    }
  }
}
