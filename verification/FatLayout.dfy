/** Where the bytes of a FAT32 file are: clusters, sectors, chains, and the byte sequence they hold. */
module FatLayout {
  import opened Basics

  type byte = b: int | 0 <= b < 256

  // A cluster the code can follow: only the first FAT sector is loaded, 128 entries.
  type Cluster = c: nat | 2 <= c < 128 witness 2

  const SECTOR: nat := 512
  const END_OF_CHAIN: nat := 0x0fff_fff8

  type Disk = seq<seq<byte>>

  datatype Volume = Volume(firstFatSec: nat, firstDataSec: nat, secPerCluster: nat)

  // Sectors are 512 bytes; the FAT lies before the data area.
  ghost predicate GoodDisk(disk: Disk, vol: Volume) {
    && vol.firstFatSec < vol.firstDataSec <= |disk| && vol.secPerCluster >= 1
    && forall t :: 0 <= t < |disk| ==> |disk[t]| == SECTOR
  }

  // cluster_to_sector
  function ClusterToSector(vol: Volume, cluster: Cluster): nat {
    (cluster - 2) * vol.secPerCluster + vol.firstDataSec
  }

  // Clusters occupy disjoint sector ranges, all behind the FAT.
  lemma ClustersAreDisjoint(vol: Volume, c: Cluster, d: Cluster)
    requires c < d
    ensures ClusterToSector(vol, c) + vol.secPerCluster <= ClusterToSector(vol, d)
  {
    assert (d - 2 - (c - 2) - 1) * vol.secPerCluster >= 0;
  }

  // Little-endian 32-bit value at a byte offset.
  function U32(b: seq<byte>, off: nat): (r: nat)
    requires off + 4 <= |b|
    ensures r < 0x1_0000_0000
  {
    var b0: int, b1: int, b2: int, b3: int := b[off], b[off + 1], b[off + 2], b[off + 3];
    b0 + 0x100 * b1 + 0x1_0000 * b2 + 0x100_0000 * b3
  }

  // The FAT entry of a cluster.
  function FatEntry(fat: seq<byte>, c: nat): nat
    requires |fat| == SECTOR && c < 128
  {
    U32(fat, 4 * c)
  }

  // The FAT entries link the clusters of chain, beginning at start.
  ghost predicate Links(fat: seq<byte>, start: nat, chain: seq<Cluster>) {
    && |fat| == SECTOR
    && (chain != [] ==> chain[0] == start)
    && (forall i :: 0 <= i < |chain| - 1 ==> chain[i + 1] == FatEntry(fat, chain[i]))
  }

  // What follows the chain: the end marker.
  ghost predicate Ends(fat: seq<byte>, start: nat, chain: seq<Cluster>)
    requires Links(fat, start, chain)
  {
    if chain == [] then start >= END_OF_CHAIN
    else FatEntry(fat, chain[|chain| - 1]) >= END_OF_CHAIN
  }

  // The sectors of one cluster, and of a chain of clusters, in file order.
  function ClusterSectors(vol: Volume, c: Cluster): (r: seq<nat>)
    ensures |r| == vol.secPerCluster
    ensures forall s :: 0 <= s < |r| ==> r[s] == ClusterToSector(vol, c) + s
  {
    Consecutive(ClusterToSector(vol, c), vol.secPerCluster)
  }

  function Consecutive(first: nat, n: nat): (r: seq<nat>)
    ensures |r| == n && forall s :: 0 <= s < n ==> r[s] == first + s
  {
    if n == 0 then [] else Consecutive(first, n - 1) + [first + n - 1]
  }

  function Sectors(vol: Volume, chain: seq<Cluster>): seq<nat> {
    if chain == [] then []
    else Sectors(vol, chain[..|chain| - 1]) + ClusterSectors(vol, chain[|chain| - 1])
  }

  // Sector s of cluster i of the chain is the next sector after those of the first i clusters.
  lemma {:induction false} SectorIndex(vol: Volume, chain: seq<Cluster>, i: nat, s: nat)
    requires i < |chain| && s < vol.secPerCluster
    ensures |Sectors(vol, chain[..i])| + s < |Sectors(vol, chain)|
    ensures Sectors(vol, chain)[|Sectors(vol, chain[..i])| + s] == ClusterToSector(vol, chain[i]) + s
    decreases |chain|
  {
    var rest := chain[..|chain| - 1];
    if i < |chain| - 1 {
      SectorIndex(vol, rest, i, s);
      assert rest[..i] == chain[..i];
    }
  }

  lemma SectorsSnoc(vol: Volume, chain: seq<Cluster>, i: nat)
    requires i < |chain|
    ensures |Sectors(vol, chain[..i + 1])| == |Sectors(vol, chain[..i])| + vol.secPerCluster
  {
    assert chain[..i + 1][..i] == chain[..i];
  }

  lemma {:induction false} SectorBelongs(vol: Volume, chain: seq<Cluster>, k: nat) returns (i: nat, s: nat)
    requires k < |Sectors(vol, chain)|
    ensures i < |chain| && s < vol.secPerCluster
    ensures k == |Sectors(vol, chain[..i])| + s
    ensures Sectors(vol, chain)[k] == ClusterToSector(vol, chain[i]) + s
    decreases |chain|
  {
    var rest := chain[..|chain| - 1];
    if k < |Sectors(vol, rest)| {
      i, s := SectorBelongs(vol, rest, k);
      assert rest[..i] == chain[..i];
    } else {
      i, s := |chain| - 1, k - |Sectors(vol, rest)|;
    }
  }

  ghost predicate NoDuplicates<T>(s: seq<T>) {
    forall i, j :: 0 <= i < j < |s| ==> s[i] != s[j]
  }

  // A chain without repeated clusters has no repeated sectors.
  lemma SectorsDistinct(vol: Volume, chain: seq<Cluster>)
    requires NoDuplicates(chain)
    ensures NoDuplicates(Sectors(vol, chain))
  {
    var secs := Sectors(vol, chain);
    forall k, l | 0 <= k < l < |secs|
      ensures secs[k] != secs[l]
    {
      var i, s := SectorBelongs(vol, chain, k);
      var j, t := SectorBelongs(vol, chain, l);
      if i == j {
        assert s != t;
      } else {
        assert chain[i] != chain[j];
        DistinctSectors(vol, chain[i], s, chain[j], t);
      }
    }
  }

  lemma DistinctSectors(vol: Volume, c: Cluster, s: nat, d: Cluster, t: nat)
    requires c != d && s < vol.secPerCluster && t < vol.secPerCluster
    ensures ClusterToSector(vol, c) + s != ClusterToSector(vol, d) + t
  {
    if c < d {
      ClustersAreDisjoint(vol, c, d);
    } else {
      ClustersAreDisjoint(vol, d, c);
    }
  }

  // Sectors of a cluster outside the chain, and everything before the data area, are not its sectors.
  lemma OtherClusterOutside(vol: Volume, chain: seq<Cluster>, d: Cluster, s: nat)
    requires d !in chain && s < vol.secPerCluster
    ensures ClusterToSector(vol, d) + s !in Sectors(vol, chain)
  {
    var secs := Sectors(vol, chain);
    forall k | 0 <= k < |secs|
      ensures secs[k] != ClusterToSector(vol, d) + s
    {
      var i, t := SectorBelongs(vol, chain, k);
      assert chain[i] in chain;
      DistinctSectors(vol, chain[i], t, d, s);
    }
  }

  lemma DataStartsAt(vol: Volume, c: Cluster)
    ensures ClusterToSector(vol, c) >= vol.firstDataSec
  {
    assert (c - 2) * vol.secPerCluster >= 0;
  }

  lemma BeforeDataOutside(vol: Volume, chain: seq<Cluster>, t: nat)
    requires t < vol.firstDataSec
    ensures t !in Sectors(vol, chain)
  {
    var secs := Sectors(vol, chain);
    forall k | 0 <= k < |secs|
      ensures secs[k] != t
    {
      var i, s := SectorBelongs(vol, chain, k);
      DataStartsAt(vol, chain[i]);
    }
  }

  // ---------------------------------------------------------------------------------
  // The bytes of a list of sectors.

  function ByteAt(disk: Disk, secs: seq<nat>, q: nat): byte {
    var k := q / SECTOR;
    if k < |secs| && secs[k] < |disk| && q % SECTOR < |disk[secs[k]]| then disk[secs[k]][q % SECTOR] else 0
  }

  function Content(disk: Disk, secs: seq<nat>): (r: seq<byte>)
    ensures |r| == SECTOR * |secs|
    ensures forall q :: 0 <= q < |r| ==> r[q] == ByteAt(disk, secs, q)
  {
    seq(SECTOR * |secs|, q requires 0 <= q < SECTOR * |secs| => ByteAt(disk, secs, q))
  }

  ghost predicate OnDisk(disk: Disk, secs: seq<nat>) {
    && (forall t :: 0 <= t < |disk| ==> |disk[t]| == SECTOR)
    && forall k :: 0 <= k < |secs| ==> secs[k] < |disk|
  }

  lemma SectorOf(k: nat, r: nat)
    requires r < SECTOR
    ensures (k * SECTOR + r) / SECTOR == k && (k * SECTOR + r) % SECTOR == r
  {
  }

  // A stretch inside one sector.
  lemma SliceOfSector(disk: Disk, secs: seq<nat>, k: nat, off: nat, n: nat)
    requires OnDisk(disk, secs) && k < |secs| && off + n <= SECTOR
    ensures Content(disk, secs)[k * SECTOR + off..k * SECTOR + off + n] == disk[secs[k]][off..off + n]
  {
    var l, r := Content(disk, secs)[k * SECTOR + off..k * SECTOR + off + n], disk[secs[k]][off..off + n];
    forall i | 0 <= i < n
      ensures l[i] == r[i]
    {
      SectorOf(k, off + i);
      assert l[i] == ByteAt(disk, secs, k * SECTOR + (off + i));
    }
  }

  function Splice(s: seq<byte>, pos: nat, data: seq<byte>): (r: seq<byte>)
    requires pos + |data| <= |s|
    ensures |r| == |s|
    ensures forall i :: 0 <= i < |r| ==> r[i] == if pos <= i < pos + |data| then data[i - pos] else s[i]
  {
    s[..pos] + data + s[pos + |data|..]
  }

  // Rewriting a stretch of one sector rewrites that stretch of the file and nothing else.
  lemma SpliceSector(disk: Disk, secs: seq<nat>, k: nat, off: nat, data: seq<byte>)
    requires OnDisk(disk, secs) && NoDuplicates(secs) && k < |secs| && off + |data| <= SECTOR
    ensures var now := disk[secs[k] := Splice(disk[secs[k]], off, data)];
      OnDisk(now, secs) && Content(now, secs) == Splice(Content(disk, secs), k * SECTOR + off, data)
  {
    var now := disk[secs[k] := Splice(disk[secs[k]], off, data)];
    var c, d := Content(now, secs), Splice(Content(disk, secs), k * SECTOR + off, data);
    assert |now| == |disk|;
    forall q | 0 <= q < |c|
      ensures c[q] == d[q]
    {
      assert c[q] == ByteAt(now, secs, q);
      var j := q / SECTOR;
      if j != k {
        assert j < k ==> secs[j] != secs[k];
        assert k < j ==> secs[k] != secs[j];
      }
    }
  }
}
