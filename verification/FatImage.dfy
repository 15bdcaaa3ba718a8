/** A volume as the FAT32 format lays it out, byte by byte, and the proof that the file the code
    reads and writes is the one stored there. */
module FatImage {
  import opened Basics
  import opened FatLayout
  import opened FatFile
  import Bits

  // ---------------------------------------------------------------------------------
  // Numbers on the disk: four bytes, the low one first.

  function Encode16(x: nat): seq<byte>
    requires x < 0x1_0000
  {
    [x % 256, x / 256]
  }

  function Encode32(x: nat): seq<byte>
    requires x < 0x1_0000_0000
  {
    [x % 256, x / 256 % 256, x / 65536 % 256, x / 16777216]
  }

  function Four(b: seq<byte>, off: int): seq<byte>
    requires 0 <= off && off + 4 <= |b|
  {
    b[off..off + 4]
  }

  // A number is read if and only if its encoding is there.
  lemma U32Decodes(b: seq<byte>, off: nat, x: nat)
    requires off + 4 <= |b| && x < 0x1_0000_0000
    ensures U32(b, off) == x <==> Four(b, off) == Encode32(x)
  {
    var c := Four(b, off);
    assert c == [b[off], b[off + 1], b[off + 2], b[off + 3]];
    BytesOf(b[off], b[off + 1], b[off + 2], b[off + 3]);
    BytesBack(x);
  }

  lemma BytesOf(b0: byte, b1: byte, b2: byte, b3: byte)
    ensures var x: int := b0 + 0x100 * b1 + 0x1_0000 * b2 + 0x100_0000 * b3;
      0 <= x < 0x1_0000_0000 && Encode32(x) == [b0, b1, b2, b3]
  {
    var y2: int := b2 + 256 * b3;
    var y1: int := b1 + 256 * y2;
    var x: int := b0 + 256 * y1;
    var low: int, low3: int := b0 + 256 * b1, b0 + 256 * b1 + 65536 * b2;
    Bits.DivModIs(x, 256, y1, b0);
    Bits.DivModIs(y1, 256, y2, b1);
    Bits.DivModIs(y2, 256, b3, b2);
    Bits.DivModIs(x, 65536, y2, low);
    Bits.DivModIs(x, 16777216, b3, low3);
  }

  lemma BytesBack(x: nat)
    requires x < 0x1_0000_0000
    ensures x % 256 + 0x100 * (x / 256 % 256) + 0x1_0000 * (x / 65536 % 256) + 0x100_0000 * (x / 16777216) == x
  {
  }

  // Entry c of the FAT is bytes 4c to 4c + 3 of its sector.
  lemma FatEntryDecodes(fat: seq<byte>, c: nat, x: nat)
    requires |fat| == 512 && c < 128 && x < 0x1_0000_0000
    ensures FatEntry(fat, c) == x <==> Four(fat, 4 * c) == Encode32(x)
  {
    U32Decodes(fat, 4 * c, x);
  }

  // A directory entry, field by field (struct fat32_dir_entry).
  datatype DirEntry = DirEntry(
    name: seq<byte>, ext: seq<byte>, attr: byte, lcase: byte, ctimeCs: byte, ctime: nat, cdate: nat,
    adate: nat, startHi: nat, time: nat, date: nat, startLow: nat, size: nat)
  {
    predicate Valid() {
      && |name| == 8 && |ext| == 3 && size < 0x1_0000_0000
      && ctime < 0x1_0000 && cdate < 0x1_0000 && adate < 0x1_0000 && startHi < 0x1_0000
      && time < 0x1_0000 && date < 0x1_0000 && startLow < 0x1_0000
    }

    function Encode(): (r: seq<byte>)
      requires Valid()
      ensures |r| == 32 && r[28..] == Encode32(size)
    {
      name + ext + [attr, lcase, ctimeCs] + Encode16(ctime) + Encode16(cdate) + Encode16(adate)
        + Encode16(startHi) + Encode16(time) + Encode16(date) + Encode16(startLow) + Encode32(size)
    }
  }

  // Cluster 2 is the first of the data area, which starts at firstDataSec.
  function FirstSector(vol: Volume, c: Cluster): nat {
    DataStartsAt(vol, c);
    vol.firstDataSec + vol.secPerCluster * (c - 2)
  }

  lemma FirstSectorIs(vol: Volume, c: Cluster)
    ensures FirstSector(vol, c) == ClusterToSector(vol, c)
  {
  }

  // The size the code uses is the one in the entry at the handle's index.
  lemma SizeDecodes(disk: Disk, vol: Volume, h: Handle, d: DirEntry)
    requires GoodDisk(disk, vol) && h.dirIndex < 16 && d.Valid()
    requires FirstSector(vol, h.dirCluster) < |disk|
    requires var sec := disk[FirstSector(vol, h.dirCluster)];
      sec[32 * h.dirIndex..32 * h.dirIndex + 32] == d.Encode()
    ensures SizeOf(disk, vol, h) == d.size
  {
    var sec := disk[FirstSector(vol, h.dirCluster)];
    var at := 32 * h.dirIndex;
    hide *;
    LastFour(sec, at, d.Encode());
    U32Decodes(sec, at + 28, d.size);
    SizeIsAt(disk, vol, h, sec);
  }

  lemma LastFour(sec: seq<byte>, at: nat, e: seq<byte>)
    requires |e| == 32 && at + 32 <= |sec| && sec[at..at + 32] == e
    ensures Four(sec, at + 28) == e[28..]
  {
  }

  lemma SizeIsAt(disk: Disk, vol: Volume, h: Handle, sec: seq<byte>)
    requires |sec| == 512 && h.dirIndex < 16
    requires FirstSector(vol, h.dirCluster) < |disk|
    requires sec == disk[FirstSector(vol, h.dirCluster)]
    ensures ClusterToSector(vol, h.dirCluster) < |disk|
    ensures |disk[ClusterToSector(vol, h.dirCluster)]| == SECTOR
    ensures SizeOf(disk, vol, h) == U32(sec, 32 * h.dirIndex + 28)
  {
    hide U32;
  }

  // ---------------------------------------------------------------------------------
  // The data area.

  // The clusters 2 .. n - 1, in order.
  function FirstClusters(n: nat): (r: seq<Cluster>)
    requires 2 <= n <= 128
    ensures |r| == n - 2 && forall i :: 0 <= i < |r| ==> r[i] == i + 2
  {
    if n == 2 then [] else FirstClusters(n - 1) + [n - 1]
  }

  // They tile the data area: their sectors are firstDataSec, firstDataSec + 1, and so on, none left out.
  lemma {:induction false} DataAreaIsTiled(vol: Volume, n: nat)
    requires 2 <= n <= 128
    ensures var secs := Sectors(vol, FirstClusters(n));
      && |secs| == (n - 2) * vol.secPerCluster
      && forall k :: 0 <= k < |secs| ==> secs[k] == vol.firstDataSec + k
    decreases n
  {
    if n > 2 {
      DataAreaIsTiled(vol, n - 1);
      var c := FirstClusters(n);
      var rest, last := Sectors(vol, FirstClusters(n - 1)), ClusterSectors(vol, n - 1);
      assert c[..|c| - 1] == FirstClusters(n - 1) && Sectors(vol, c) == rest + last;
      OneMoreCluster(n - 2, vol.secPerCluster);
      assert ClusterToSector(vol, n - 1) == vol.firstDataSec + |rest|;
      hide *;
      Appended(rest, last, vol.firstDataSec);
    }
  }

  lemma OneMoreCluster(n: int, m: int)
    ensures n * m == (n - 1) * m + m
  {
  }

  lemma Appended(a: seq<nat>, b: seq<nat>, first: nat)
    requires forall k :: 0 <= k < |a| ==> a[k] == first + k
    requires forall k :: 0 <= k < |b| ==> b[k] == first + |a| + k
    ensures forall k :: 0 <= k < |a + b| ==> (a + b)[k] == first + k
  {
  }

  lemma NoSectors(vol: Volume, chain: seq<Cluster>)
    requires chain == []
    ensures Sectors(vol, chain) == []
  {
  }

  lemma {:induction false} SectorsBefore(vol: Volume, chain: seq<Cluster>, i: nat)
    requires i <= |chain|
    ensures |Sectors(vol, chain[..i])| == i * vol.secPerCluster
    decreases i
  {
    hide Sectors;
    if i > 0 {
      SectorsBefore(vol, chain, i - 1);
      SectorsSnoc(vol, chain, i - 1);
      OneMoreCluster(i, vol.secPerCluster);
    } else {
      NoSectors(vol, chain[..0]);
    }
  }

  // Where byte o of sector s of the i-th cluster stands in the file.
  function Place(vol: Volume, i: nat, s: nat, o: nat): int {
    (i * vol.secPerCluster + s) * 512 + o
  }

  // It is byte o of the s-th sector after the first sector of that cluster on the disk.
  lemma ByteIsAt(disk: Disk, vol: Volume, h: Handle, chain: seq<Cluster>, i: nat, s: nat, o: nat)
    requires FileOn(disk, vol, h, chain) && i < |chain| && s < vol.secPerCluster && o < 512
    requires 0 <= Place(vol, i, s, o) < |Bytes(disk, vol, h, chain)|
    ensures var t := FirstSector(vol, chain[i]) + s;
      t < |disk| && Bytes(disk, vol, h, chain)[Place(vol, i, s, o)] == disk[t][o]
  {
    SectorsBefore(vol, chain, i);
    SectorIndex(vol, chain, i, s);
    SectorOf(i * vol.secPerCluster + s, o);
    DataStartsAt(vol, chain[i]);
    var secs := Sectors(vol, chain);
    assert Content(disk, secs)[Place(vol, i, s, o)] == ByteAt(disk, secs, Place(vol, i, s, o));
  }

  // ---------------------------------------------------------------------------------
  // A file stored on the volume.

  ghost predicate ByteStored(
    disk: Disk, vol: Volume, chain: seq<Cluster>, content: seq<byte>, i: nat, s: nat, o: nat)
    requires i < |chain|
  {
    var t, q := FirstSector(vol, chain[i]) + s, Place(vol, i, s, o);
    0 <= q < |content| && t < |disk| && o < |disk[t]| ==> disk[t][o] == content[q]
  }

  ghost predicate AllStored(disk: Disk, vol: Volume, chain: seq<Cluster>, content: seq<byte>) {
    forall i: nat, s: nat, o: nat :: i < |chain| && s < vol.secPerCluster && o < 512 ==>
      ByteStored(disk, vol, chain, content, i, s, o)
  }

  // What the FAT entry of the i-th cluster names.
  function Following(chain: seq<Cluster>, i: nat, mark: nat): nat
    requires i < |chain|
  {
    if i + 1 < |chain| then chain[i + 1] else mark
  }

  // The chain's FAT entries name the next cluster, the last one an end marker; the directory entry
  // has the size; the clusters lie on the disk and hold the content in order.
  ghost predicate Stored(disk: Disk, vol: Volume, h: Handle, chain: seq<Cluster>, content: seq<byte>, mark: nat) {
    && GoodDisk(disk, vol) && 0x0fff_fff8 <= mark <= 0x0fff_ffff && h.dirIndex < 16
    && h.cluster == (if chain == [] then mark else chain[0])
    && (forall i :: 0 <= i < |chain| ==>
          Four(disk[vol.firstFatSec], 4 * (chain[i] as int)) == Encode32(Following(chain, i, mark)))
    && (forall i :: 0 <= i < |chain| ==>
          FirstSector(vol, chain[i]) + vol.secPerCluster <= |disk|)
    && FirstSector(vol, h.dirCluster) < |disk| && |content| < 0x1_0000_0000
    && (var sec, at := disk[FirstSector(vol, h.dirCluster)], 32 * h.dirIndex + 28;
        Four(sec, at) == Encode32(|content|))
    && |content| <= |chain| * vol.secPerCluster * 512
    && AllStored(disk, vol, chain, content)
  }

  lemma StoredLinks(disk: Disk, vol: Volume, h: Handle, chain: seq<Cluster>, content: seq<byte>, mark: nat)
    requires Stored(disk, vol, h, chain, content, mark)
    ensures Links(disk[vol.firstFatSec], h.cluster, chain) && Ends(disk[vol.firstFatSec], h.cluster, chain)
  {
    var fat := disk[vol.firstFatSec];
    hide Encode32;
    hide Four;
    hide FatEntry;
    forall i | 0 <= i < |chain|
      ensures FatEntry(fat, chain[i]) == Following(chain, i, mark)
    {
      FatEntryDecodes(fat, chain[i], Following(chain, i, mark));
    }
  }

  lemma StoredOnDisk(disk: Disk, vol: Volume, h: Handle, chain: seq<Cluster>, content: seq<byte>, mark: nat)
    requires Stored(disk, vol, h, chain, content, mark)
    ensures OnDisk(disk, Sectors(vol, chain)) && |Sectors(vol, chain)| == |chain| * vol.secPerCluster
  {
    SectorsBefore(vol, chain, |chain|);
    assert chain[..|chain|] == chain;
    var secs := Sectors(vol, chain);
    forall k | 0 <= k < |secs|
      ensures secs[k] < |disk|
    {
      var i, s := SectorBelongs(vol, chain, k);
    }
  }

  lemma StoredHasSize(disk: Disk, vol: Volume, h: Handle, chain: seq<Cluster>, content: seq<byte>, mark: nat)
    requires Stored(disk, vol, h, chain, content, mark)
    ensures ClusterToSector(vol, h.dirCluster) < |disk|
    ensures |disk[ClusterToSector(vol, h.dirCluster)]| == SECTOR
    ensures SizeOf(disk, vol, h) == |content|
  {
    hide AllStored;
    hide Encode32;
    hide Four;
    hide Following;
    hide SizeOf;
    hide U32;
    hide ClusterToSector;
    var sec := disk[FirstSector(vol, h.dirCluster)];
    assert |sec| == 512;
    U32Decodes(sec, 32 * h.dirIndex + 28, |content|);
    SizeIsAt(disk, vol, h, sec);
  }

  lemma StoredIsOn(disk: Disk, vol: Volume, h: Handle, chain: seq<Cluster>, content: seq<byte>, mark: nat)
    requires Stored(disk, vol, h, chain, content, mark)
    ensures FileOn(disk, vol, h, chain) && |Bytes(disk, vol, h, chain)| == |content|
    ensures |content| <= 512 * |Sectors(vol, chain)|
  {
    StoredLinks(disk, vol, h, chain, content, mark);
    StoredOnDisk(disk, vol, h, chain, content, mark);
    StoredHasSize(disk, vol, h, chain, content, mark);
    hide SizeOf;
    hide Links;
    hide Ends;
    hide OnDisk;
    hide Sectors;
    hide AllStored;
  }

  // A chain ends exactly where the encoded entry of its last cluster is 0x0ffffff8 or more.
  lemma EndMarks(fat: seq<byte>, start: nat, chain: seq<Cluster>, x: nat)
    requires Links(fat, start, chain) && chain != [] && x < 0x1_0000_0000
    requires Four(fat, 4 * (chain[|chain| - 1] as int)) == Encode32(x)
    ensures Ends(fat, start, chain) <==> x >= 0x0fff_fff8
  {
    FatEntryDecodes(fat, chain[|chain| - 1], x);
  }

  // What Read and Write work on is the stored content, whole and in order.
  lemma StoredIsTheFile(disk: Disk, vol: Volume, h: Handle, chain: seq<Cluster>, content: seq<byte>, mark: nat)
    requires Stored(disk, vol, h, chain, content, mark)
    ensures FileOn(disk, vol, h, chain) && SizeOf(disk, vol, h) == |content|
    ensures Bytes(disk, vol, h, chain) == content
  {
    StoredOnDisk(disk, vol, h, chain, content, mark);
    StoredHasSize(disk, vol, h, chain, content, mark);
    StoredIsOn(disk, vol, h, chain, content, mark);
    hide *;
    var bytes := Bytes(disk, vol, h, chain);
    forall q | 0 <= q < |content|
      ensures bytes[q] == content[q]
    {
      StoredByte(disk, vol, h, chain, content, q);
    }
  }

  lemma StoredByte(disk: Disk, vol: Volume, h: Handle, chain: seq<Cluster>, content: seq<byte>, q: nat)
    requires AllStored(disk, vol, chain, content) && FileOn(disk, vol, h, chain)
    requires q < |content| == |Bytes(disk, vol, h, chain)| && |content| <= 512 * |Sectors(vol, chain)|
    ensures Bytes(disk, vol, h, chain)[q] == content[q]
  {
    var i, s := SectorBelongs(vol, chain, q / 512);
    SectorsBefore(vol, chain, i);
    PlaceIs(vol, i, s, q);
    hide FileOn;
    hide Bytes;
    hide Sectors;
    hide Place;
    ByteIsAt(disk, vol, h, chain, i, s, q % 512);
    assert ByteStored(disk, vol, chain, content, i, s, q % 512);
  }

  lemma PlaceIs(vol: Volume, i: nat, s: nat, q: nat)
    requires q / 512 == i * vol.secPerCluster + s
    ensures Place(vol, i, s, q % 512) == q
  {
  }

  // ---------------------------------------------------------------------------------
  // Stretches of a file, byte by byte.

  // A read delivers the bytes from pos on, as many as asked for and there are.
  lemma SliceIs(b: seq<byte>, pos: nat, n: nat)
    ensures var r := Slice(b, pos, n);
      && |r| == (if pos >= |b| then 0 else if pos + n <= |b| then n else |b| - pos)
      && forall i :: 0 <= i < |r| ==> r[i] == b[pos + i]
  {
  }

  // A write changes the bytes from pos on to the data, and no other.
  lemma OverlayIs(c: seq<byte>, pos: nat, data: seq<byte>)
    requires pos + |data| <= |c|
    ensures var r := Overlay(c, pos, data);
      && |r| == |c|
      && (forall i :: 0 <= i < |data| ==> r[pos + i] == data[i])
      && forall i :: 0 <= i < |c| && !(pos <= i < pos + |data|) ==> r[i] == c[i]
  {
  }
}
