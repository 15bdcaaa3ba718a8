/** fat32_read, fat32_write and fat32_lseek on the sectors and buffers they use. */
module FatFile {
  import opened Basics
  import opened FatLayout

  // The part of struct file that names the file on disk.
  datatype Handle = Handle(cluster: nat, dirCluster: Cluster, dirIndex: nat)

  // Size recorded in the directory entry, at byte 28 of its 32.
  function SizeOf(disk: Disk, vol: Volume, h: Handle): (r: nat)
    requires ClusterToSector(vol, h.dirCluster) < |disk| && h.dirIndex < 16
    requires |disk[ClusterToSector(vol, h.dirCluster)]| == SECTOR
    ensures r < 0x1_0000_0000
  {
    U32(disk[ClusterToSector(vol, h.dirCluster)], 32 * h.dirIndex + 28)
  }

  // chain lists the file's clusters; it reaches its end marker or is long enough for the size.
  // A cyclic FAT is covered too: unroll the cycle until it is long enough.
  ghost predicate FileOn(disk: Disk, vol: Volume, h: Handle, chain: seq<Cluster>) {
    && GoodDisk(disk, vol)
    && ClusterToSector(vol, h.dirCluster) < |disk| && h.dirIndex < 16
    && Links(disk[vol.firstFatSec], h.cluster, chain)
    && OnDisk(disk, Sectors(vol, chain))
    && (Ends(disk[vol.firstFatSec], h.cluster, chain)
        || (chain != [] && SECTOR * |Sectors(vol, chain)| >= SizeOf(disk, vol, h)))
  }

  // The file as a byte sequence.
  ghost function Bytes(disk: Disk, vol: Volume, h: Handle, chain: seq<Cluster>): seq<byte>
    requires FileOn(disk, vol, h, chain)
  {
    var c := Content(disk, Sectors(vol, chain));
    c[..Min(SizeOf(disk, vol, h), |c|)]
  }

  // At most n bytes from position pos on.
  function Slice(b: seq<byte>, pos: nat, n: nat): seq<byte> {
    if pos >= |b| then [] else b[pos..Min(pos + n, |b|)]
  }

  // Where the walk stands after n sectors: read_cfo and cfo of the code.
  function Reached(max: nat, n: nat): nat { Min(max, SECTOR * n) }
  function CfoAt(cfo0: nat, max: nat, n: nat): nat { Max(cfo0, Reached(max, n)) }

  // One sector of the walk: skip it, stop, or use bytes [off, off + len) of it.
  lemma SkipStep(cfo0: nat, max: nat, n: nat)
    requires cfo0 <= max
    ensures Reached(max, n) + SECTOR <= CfoAt(cfo0, max, n) ==>
      && Reached(max, n + 1) == Reached(max, n) + SECTOR
      && CfoAt(cfo0, max, n + 1) == CfoAt(cfo0, max, n)
  {
  }

  lemma UseStep(cfo0: nat, max: nat, n: nat)
    requires cfo0 <= max && Reached(max, n) < max && Reached(max, n) + SECTOR > CfoAt(cfo0, max, n)
    ensures var cfo := CfoAt(cfo0, max, n);
      var off := cfo % SECTOR;
      var len := Min(SECTOR - off, max - cfo);
      && cfo == SECTOR * n + off && len >= 0 && off + len <= SECTOR
      && cfo + len == Reached(max, n + 1) == CfoAt(cfo0, max, n + 1)
  {
    var off := CfoAt(cfo0, max, n) - SECTOR * n;
    assert 0 <= off < SECTOR;
    SectorOf(n, off);
  }

  // The bytes between two positions, nothing when they are out of range.
  function Between(c: seq<byte>, from: nat, to: nat): seq<byte> {
    if from <= to <= |c| then c[from..to] else []
  }

  method MemCpy(dst: array<byte>, doff: nat, src: array<byte>, soff: nat, n: nat)
    requires dst != src && doff + n <= dst.Length && soff + n <= src.Length
    modifies dst
    ensures dst[..] == old(dst[..doff]) + src[soff..soff + n] + old(dst[doff + n..])
  {
    var i := 0;
    while i < n
      invariant 0 <= i <= n
      invariant dst[..] == old(dst[..doff]) + src[soff..soff + i] + old(dst[doff + i..])
    {
      dst[doff + i] := src[soff + i];
      i := i + 1;
    }
  }

  class File {
    var cfo: int
    const handle: Handle

    constructor (handle: Handle)
      ensures cfo == 0 && this.handle == handle
    {
      cfo := 0;
      this.handle := handle;
    }
  }

  class FileSystem {
    var disk: Disk
    const vol: Volume
    const fatBuf: array<byte>
    const tableBuf: array<byte>

    ghost predicate Valid()
      reads this
    {
      GoodDisk(disk, vol) && fatBuf.Length == tableBuf.Length == SECTOR && fatBuf != tableBuf
    }

    constructor (disk: Disk, vol: Volume, fatBuf: array<byte>, tableBuf: array<byte>)
      requires GoodDisk(disk, vol) && fatBuf.Length == tableBuf.Length == SECTOR && fatBuf != tableBuf
      ensures Valid() && this.disk == disk && this.vol == vol
    {
      this.disk, this.vol := disk, vol;
      this.fatBuf, this.tableBuf := fatBuf, tableBuf;
    }

    // virtio_blk_read_sector
    method ReadSector(t: nat, buf: array<byte>)
      requires t < |disk| && |disk[t]| == buf.Length == SECTOR
      modifies buf
      ensures buf[..] == disk[t]
    {
      var i := 0;
      while i < SECTOR
        invariant 0 <= i <= SECTOR
        invariant buf[..i] == disk[t][..i]
      {
        buf[i] := disk[t][i];
        i := i + 1;
      }
    }

    // virtio_blk_write_sector
    method WriteSector(t: nat, buf: array<byte>)
      requires t < |disk| && buf.Length == SECTOR
      modifies this`disk
      ensures disk == old(disk)[t := buf[..]]
    {
      disk := disk[t := buf[..]];
    }

    method CopyOut(t: nat, off: nat, n: nat, dst: array<byte>, pos: nat)
      requires Valid() && t < |disk| && off + n <= SECTOR && pos + n <= dst.Length && dst != fatBuf
      modifies fatBuf, dst
      ensures dst[..] == old(dst[..pos]) + disk[t][off..off + n] + old(dst[pos + n..])
    {
      ReadSector(t, fatBuf);
      MemCpy(dst, pos, fatBuf, off, n);
      assert fatBuf[..][off..off + n] == fatBuf[off..off + n];
    }

    method CopyIn(t: nat, off: nat, n: nat, src: array<byte>, pos: nat)
      requires Valid() && t < |disk| && off + n <= SECTOR && pos + n <= src.Length && src != fatBuf
      modifies this`disk, fatBuf
      ensures disk == old(disk)[t := Splice(old(disk)[t], off, src[pos..pos + n])]
    {
      ReadSector(t, fatBuf);
      MemCpy(fatBuf, off, src, pos, n);
      assert fatBuf[..] == Splice(disk[t], off, src[pos..pos + n]);
      WriteSector(t, fatBuf);
    }

    // The body of the sector loop of fat32_read past the skip and stop tests (fat32.c:179-189).
    method ReadPart(t: nat, buf: array<byte>, rc0: nat, cfo0: nat, rl0: nat, max: nat, ghost w: Walk, ghost n: nat)
      returns (rc: nat, cfo: nat, rl: nat)
      requires Valid() && buf != fatBuf && w.max == max && w.Reading(n, rc0, cfo0, rl0, disk, buf[..])
      requires n < |w.secs| && t == w.secs[n] && rc0 < max && rc0 + SECTOR > cfo0
      modifies fatBuf, buf
      ensures w.Reading(n + 1, rc, cfo, rl, disk, buf[..]) && rc > rc0
    {
      hide GoodDisk;
      hide ByteAt;
      hide Content;
      hide Between;
      UseStep(w.start, max, n);
      rc := rc0 + (cfo0 - rc0);
      var secOffset := rc % SECTOR;
      var copyLen := Min(SECTOR - secOffset, max - rc);
      w.ReadGrows(n, disk, cfo0, secOffset, copyLen, rl0, buf[..]);
      CopyOut(t, secOffset, copyLen, buf, rl0);
      rl := rl0 + copyLen;
      rc := rc + copyLen;
      cfo := rc;
    }

    // The sector loop of fat32_read for one cluster.
    method ReadCluster(cluster: Cluster, buf: array<byte>, rc0: nat, cfo0: nat, rl0: nat, max: nat,
                       ghost w: Walk, ghost chain: seq<Cluster>, ghost i: nat)
      returns (rc: nat, cfo: nat, rl: nat, ghost n: nat)
      requires Valid() && buf != fatBuf && w.max == max && w.secs == Sectors(vol, chain) && OnDisk(disk, w.secs)
      requires i < |chain| && chain[i] == cluster
      requires w.Reading(|Sectors(vol, chain[..i])|, rc0, cfo0, rl0, disk, buf[..])
      modifies fatBuf, buf
      ensures n <= |w.secs| && w.Reading(n, rc, cfo, rl, disk, buf[..])
      ensures rc >= max || (n == |Sectors(vol, chain[..i + 1])| && rc > rc0)
    {
      rc, cfo, rl, n := rc0, cfo0, rl0, |Sectors(vol, chain[..i])|;
      SectorsSnoc(vol, chain, i);
      var sector := 0;
      while sector < vol.secPerCluster
        invariant 0 <= sector <= vol.secPerCluster
        invariant n == |Sectors(vol, chain[..i])| + sector && n <= |w.secs|
        invariant w.Reading(n, rc, cfo, rl, disk, buf[..])
        invariant if sector == 0 then rc == rc0 else rc > rc0
      {
        SectorIndex(vol, chain, i, sector);
        SkipStep(w.start, max, n);
        if rc + SECTOR <= cfo {
          rc := rc + SECTOR;
          sector, n := sector + 1, n + 1;
          continue;
        } else if rc >= max {
          break;
        }
        rc, cfo, rl := ReadPart(ClusterToSector(vol, cluster) + sector, buf, rc, cfo, rl, max, w, n);
        sector, n := sector + 1, n + 1;
      }
    }

    method Read(f: File, buf: array<byte>, len: nat, ghost chain: seq<Cluster>) returns (count: nat)
      requires Valid() && FileOn(disk, vol, f.handle, chain) && f.cfo >= 0
      requires buf != fatBuf && buf != tableBuf
      requires buf.Length >= Min(len, SizeOf(disk, vol, f.handle) - f.cfo)
      modifies f, fatBuf, tableBuf, buf
      ensures var data := Slice(Bytes(disk, vol, f.handle, chain), old(f.cfo), len);
        && count == |data| && buf[..] == data + old(buf[..])[count..]
        && f.cfo == old(f.cfo) + count
    {
      var dirSector := ClusterToSector(vol, f.handle.dirCluster);
      ReadSector(dirSector, fatBuf);
      var size := U32(fatBuf[..], 32 * f.handle.dirIndex + 28);
      if f.cfo >= size { return 0; }
      var cfo: nat := f.cfo;
      var rc: nat, rl: nat := 0, 0;
      var max: nat := cfo + Min(len, size - cfo);
      ReadSector(vol.firstFatSec, tableBuf);
      ghost var w := Walk(Sectors(vol, chain), cfo, max, buf[..]);
      hide ByteAt;
      hide U32;
      ghost var i, n := 0, 0;
      var cluster: nat := f.handle.cluster;
      assert chain[..0] == [];
      while cluster < END_OF_CHAIN
        invariant 0 <= i <= |chain| && n == |Sectors(vol, chain[..i])| <= |w.secs|
        invariant if i < |chain| then cluster == chain[i] else cluster >= END_OF_CHAIN
        invariant w.Reading(n, rc, cfo, rl, disk, buf[..])
        invariant tableBuf[..] == disk[vol.firstFatSec]
        decreases max - rc
      {
        rc, cfo, rl, n := ReadCluster(cluster, buf, rc, cfo, rl, max, w, chain, i);
        if rc >= max { break; }
        ChainStep(disk, vol, f.handle, chain, i, rc);
        cluster := FatEntry(tableBuf[..], cluster);
        i := i + 1;
      }
      assert i == |chain| ==> chain[..i] == chain;
      f.cfo := cfo;
      count := rl;
      w.ReadResult(disk, vol, f.handle, chain, n, len, rc, cfo, rl, buf[..]);
    }

    // fat32.c:229-240
    method WritePart(t: nat, buf: array<byte>, wc0: nat, cfo0: nat, wl0: nat, max: nat,
                     ghost w: Walk, ghost n: nat, ghost disk0: Disk)
      returns (wc: nat, cfo: nat, wl: nat)
      requires Valid() && buf != fatBuf && w.max == max && w.Writing(n, wc0, cfo0, wl0, disk0, disk, buf[..])
      requires n < |w.secs| && t == w.secs[n] && wc0 < max && wc0 + SECTOR > cfo0
      modifies this`disk, fatBuf
      ensures w.Writing(n + 1, wc, cfo, wl, disk0, disk, buf[..]) && wc > wc0 && Valid()
    {
      UseStep(w.start, max, n);
      wc := wc0 + (cfo0 - wc0);
      var secOffset := wc % SECTOR;
      var copyLen := Min(SECTOR - secOffset, max - wc);
      w.WriteGrows(n, disk0, disk, cfo0, copyLen, wl0, buf[..]);
      assert buf[..][wl0..wl0 + copyLen] == buf[wl0..wl0 + copyLen];
      CopyIn(t, secOffset, copyLen, buf, wl0);
      wl := wl0 + copyLen;
      wc := wc + copyLen;
      cfo := wc;
    }

    // The sector loop of fat32_write for one cluster.
    method WriteCluster(cluster: Cluster, buf: array<byte>, wc0: nat, cfo0: nat, wl0: nat, max: nat,
                        ghost w: Walk, ghost chain: seq<Cluster>, ghost i: nat, ghost disk0: Disk)
      returns (wc: nat, cfo: nat, wl: nat, ghost n: nat)
      requires Valid() && buf != fatBuf && w.max == max && w.secs == Sectors(vol, chain)
      requires i < |chain| && chain[i] == cluster
      requires w.Writing(|Sectors(vol, chain[..i])|, wc0, cfo0, wl0, disk0, disk, buf[..])
      modifies this`disk, fatBuf
      ensures Valid() && n <= |w.secs| && w.Writing(n, wc, cfo, wl, disk0, disk, buf[..])
      ensures wc >= max || (n == |Sectors(vol, chain[..i + 1])| && wc > wc0)
    {
      wc, cfo, wl, n := wc0, cfo0, wl0, |Sectors(vol, chain[..i])|;
      SectorsSnoc(vol, chain, i);
      var sector := 0;
      while sector < vol.secPerCluster
        invariant Valid() && 0 <= sector <= vol.secPerCluster
        invariant n == |Sectors(vol, chain[..i])| + sector && n <= |w.secs|
        invariant w.Writing(n, wc, cfo, wl, disk0, disk, buf[..])
        invariant if sector == 0 then wc == wc0 else wc > wc0
      {
        SectorIndex(vol, chain, i, sector);
        SkipStep(w.start, max, n);
        if wc + SECTOR <= cfo {
          wc := wc + SECTOR;
          sector, n := sector + 1, n + 1;
          continue;
        } else if wc >= max {
          break;
        }
        wc, cfo, wl := WritePart(ClusterToSector(vol, cluster) + sector, buf, wc, cfo, wl, max, w, n, disk0);
        sector, n := sector + 1, n + 1;
      }
    }

    // fat32_write: the addressed bytes of the file change to the buffer's; every other byte of its
    // clusters, past the recorded size too, and every sector outside them stay as they were.
    method Write(f: File, buf: array<byte>, len: nat, ghost chain: seq<Cluster>) returns (count: nat)
      requires Valid() && FileOn(disk, vol, f.handle, chain) && f.cfo >= 0
      requires NoDuplicates(chain) && f.handle.dirCluster !in chain
      requires buf != fatBuf && buf != tableBuf
      requires buf.Length >= Min(len, SizeOf(disk, vol, f.handle) - f.cfo)
      modifies f, this`disk, fatBuf, tableBuf
      ensures Valid() && FileOn(disk, vol, f.handle, chain)
      ensures SizeOf(disk, vol, f.handle) == old(SizeOf(disk, vol, f.handle))
      ensures count == |Slice(old(Bytes(disk, vol, f.handle, chain)), old(f.cfo), len)| <= buf.Length
      ensures Bytes(disk, vol, f.handle, chain)
           == Overlay(old(Bytes(disk, vol, f.handle, chain)), old(f.cfo), buf[..count])
      ensures Content(disk, Sectors(vol, chain))
           == Overlay(old(Content(disk, Sectors(vol, chain))), old(f.cfo), buf[..count])
      ensures f.cfo == old(f.cfo) + count
      ensures |disk| == |old(disk)|
      ensures forall t :: 0 <= t < |disk| && t !in Sectors(vol, chain) ==> disk[t] == old(disk)[t]
    {
      var dirSector := ClusterToSector(vol, f.handle.dirCluster);
      ReadSector(dirSector, fatBuf);
      var size := U32(fatBuf[..], 32 * f.handle.dirIndex + 28);
      if f.cfo >= size {
        NothingWritten(disk, vol, f.handle, chain, f.cfo, len);
        assert buf[..0] == [];
        return 0;
      }
      var cfo: nat := f.cfo;
      var wc: nat, wl: nat := 0, 0;
      var max: nat := cfo + Min(len, size - cfo);
      ReadSector(vol.firstFatSec, tableBuf);
      ghost var w, disk0 := Walk(Sectors(vol, chain), cfo, max, buf[..]), disk;
      SectorsDistinct(vol, chain);
      hide NoDuplicates;
      hide ByteAt;
      hide Splice;
      ghost var i, n := 0, 0;
      var cluster: nat := f.handle.cluster;
      assert chain[..0] == [];
      while cluster < END_OF_CHAIN
        invariant 0 <= i <= |chain| && n == |Sectors(vol, chain[..i])| <= |w.secs|
        invariant if i < |chain| then cluster == chain[i] else cluster >= END_OF_CHAIN
        invariant Valid() && w.Writing(n, wc, cfo, wl, disk0, disk, buf[..])
        invariant tableBuf[..] == disk0[vol.firstFatSec]
        decreases max - wc
      {
        wc, cfo, wl, n := WriteCluster(cluster, buf, wc, cfo, wl, max, w, chain, i, disk0);
        if wc >= max { break; }
        ChainStep(disk0, vol, f.handle, chain, i, wc);
        cluster := FatEntry(tableBuf[..], cluster);
        i := i + 1;
      }
      assert i == |chain| ==> chain[..i] == chain;
      f.cfo := cfo;
      count := wl;
      w.WriteResult(disk0, disk, vol, f.handle, chain, n, len, wc, cfo, wl, buf[..]);
    }

    // fat32_lseek. An unknown whence makes the code stop for good, without a result.
    method Lseek(f: File, offset: int, whence: nat) returns (r: Option<int>)
      requires Valid() && ClusterToSector(vol, f.handle.dirCluster) < |disk| && f.handle.dirIndex < 16
      modifies f, fatBuf
      ensures r == SeekTo(SizeOf(disk, vol, f.handle), old(f.cfo), offset, whence)
      ensures f.cfo == if r.Some? then r.value else old(f.cfo)
      ensures r.Some? ==> 0 <= f.cfo <= SizeOf(disk, vol, f.handle)
      ensures r.Some? <==> whence == 0 || whence == 1 || whence == 2
      ensures var size := SizeOf(disk, vol, f.handle);
        var target := if whence == 0 then offset else if whence == 1 then old(f.cfo) + offset else size + offset;
        r.Some? ==> f.cfo == if target < 0 then 0 else if target > size then size else target
    {
      var sector := ClusterToSector(vol, f.handle.dirCluster);
      ReadSector(sector, fatBuf);
      var size := U32(fatBuf[..], 32 * f.handle.dirIndex + 28);
      if whence == SEEK_SET {
        f.cfo := offset;
      } else if whence == SEEK_CUR {
        f.cfo := f.cfo + offset;
      } else if whence == SEEK_END {
        f.cfo := size + offset;
      } else {
        return None;
      }
      f.cfo := Max(0, f.cfo);
      f.cfo := Min(size, f.cfo);
      r := Some(f.cfo);
    }
  }

  const SEEK_SET: nat := 0
  const SEEK_CUR: nat := 1
  const SEEK_END: nat := 2

  predicate KnownWhence(whence: nat) { whence in {SEEK_SET, SEEK_CUR, SEEK_END} }

  // The target clamped to the file.
  function SeekTo(size: nat, cfo: int, offset: int, whence: nat): (r: Option<int>)
    ensures r.Some? <==> KnownWhence(whence)
  {
    if KnownWhence(whence) then
      var target := if whence == SEEK_SET then offset else if whence == SEEK_CUR then cfo + offset else size + offset;
      Some(Min(size, Max(0, target)))
    else None
  }

  // Replace the bytes from pos on by data, when there is room.
  function Overlay(c: seq<byte>, pos: nat, data: seq<byte>): (r: seq<byte>)
    ensures |r| == |c|
  {
    if pos + |data| <= |c| then Splice(c, pos, data) else c
  }

  // The bookkeeping of one read or write: the file's sectors in order, the start position, the
  // end position, and what the caller's buffer held before.
  datatype Walk = Walk(secs: seq<nat>, start: nat, max: nat, before: seq<byte>)
  {
    ghost predicate At(n: nat, rc: nat, cfo: nat, done: nat) {
      && n <= |secs| && start <= max
      && rc == Reached(max, n) && cfo == CfoAt(start, max, n) && done == cfo - start
    }

    // After n sectors a read has delivered the bytes from start to cfo.
    ghost predicate Reading(n: nat, rc: nat, cfo: nat, rl: nat, disk: Disk, buf: seq<byte>) {
      && At(n, rc, cfo, rl) && OnDisk(disk, secs) && max - start <= |before|
      && buf == Between(Content(disk, secs), start, cfo) + before[rl..]
    }

    lemma ReadGrows(n: nat, disk: Disk, cfo: nat, off: nat, len: nat, rl: nat, buf: seq<byte>)
      requires Reading(n, Reached(max, n), cfo, rl, disk, buf) && n < |secs|
      requires Reached(max, n) < max && Reached(max, n) + SECTOR > cfo
      requires off == cfo % SECTOR && len == Min(SECTOR - off, max - cfo)
      ensures rl + len <= |buf| && off + len <= SECTOR && secs[n] < |disk| && |disk[secs[n]]| == SECTOR
      ensures buf[..rl] + disk[secs[n]][off..off + len] + buf[rl + len..]
           == Between(Content(disk, secs), start, cfo + len) + before[rl + len..]
    {
      ReadFacts(n, disk, cfo, off, len, rl, buf);
      ReadPiece(n, disk, cfo, off, len, rl, buf);
    }

    lemma ReadFacts(n: nat, disk: Disk, cfo: nat, off: nat, len: nat, rl: nat, buf: seq<byte>)
      requires Reading(n, Reached(max, n), cfo, rl, disk, buf) && n < |secs|
      requires Reached(max, n) < max && Reached(max, n) + SECTOR > cfo
      requires off == cfo % SECTOR && len == Min(SECTOR - off, max - cfo)
      ensures OnDisk(disk, secs) && len >= 0 && off + len <= SECTOR
      ensures cfo == n * SECTOR + off && rl == cfo - start && start <= cfo
      ensures var c := Content(disk, secs);
        cfo + len <= |c| && rl + len <= |before| && buf == c[start..cfo] + before[rl..]
    {
      UseStep(start, max, n);
      hide ByteAt;
    }

    lemma ReadPiece(n: nat, disk: Disk, cfo: nat, off: nat, len: nat, rl: nat, buf: seq<byte>)
      requires OnDisk(disk, secs) && n < |secs| && off + len <= SECTOR
      requires cfo == n * SECTOR + off && start <= cfo && rl == cfo - start
      requires var c := Content(disk, secs);
        cfo + len <= |c| && rl + len <= |before| && buf == c[start..cfo] + before[rl..]
      ensures rl + len <= |buf| && secs[n] < |disk| && |disk[secs[n]]| == SECTOR
      ensures buf[..rl] + disk[secs[n]][off..off + len] + buf[rl + len..]
           == Between(Content(disk, secs), start, cfo + len) + before[rl + len..]
    {
      SliceOfSector(disk, secs, n, off, len);
      hide Between;
      hide ByteAt;
      BufferGrows(Content(disk, secs), buf, before, start, cfo, disk[secs[n]][off..off + len]);
    }

    // After n sectors a write has replaced the bytes from start to cfo, and nothing outside the file.
    ghost predicate Writing(n: nat, wc: nat, cfo: nat, wl: nat, disk0: Disk, disk: Disk, data: seq<byte>) {
      && At(n, wc, cfo, wl) && OnDisk(disk0, secs) && OnDisk(disk, secs) && |disk| == |disk0|
      && NoDuplicates(secs) && max - start <= |data|
      && Content(disk, secs) == Overlay(Content(disk0, secs), start, data[..wl])
      && forall t :: 0 <= t < |disk| && t !in secs ==> disk[t] == disk0[t]
    }

    lemma WriteGrows(n: nat, disk0: Disk, disk: Disk, cfo: nat, len: nat, wl: nat, data: seq<byte>)
      requires Writing(n, Reached(max, n), cfo, wl, disk0, disk, data) && n < |secs|
      requires Reached(max, n) < max && Reached(max, n) + SECTOR > cfo
      requires len == Min(SECTOR - cfo % SECTOR, max - cfo)
      ensures wl + len <= |data| && cfo % SECTOR + len <= SECTOR && secs[n] < |disk| && |disk[secs[n]]| == SECTOR
      ensures var now := disk[secs[n] := Splice(disk[secs[n]], cfo % SECTOR, data[wl..wl + len])];
        Writing(n + 1, Reached(max, n + 1), cfo + len, wl + len, disk0, now, data)
    {
      UseStep(start, max, n);
      var off := cfo % SECTOR;
      SpliceSector(disk, secs, n, off, data[wl..wl + len]);
      var c := Content(disk0, secs);
      SpliceTwice(c, start, data[..wl], data[wl..wl + len]);
      assert data[..wl] + data[wl..wl + len] == data[..wl + len];
    }

    lemma WriteResult(disk0: Disk, disk: Disk, vol: Volume, h: Handle, chain: seq<Cluster>, n: nat, len: nat,
                      wc: nat, cfo: nat, wl: nat, data: seq<byte>)
      requires Writing(n, wc, cfo, wl, disk0, disk, data) && FileOn(disk0, vol, h, chain)
      requires secs == Sectors(vol, chain) && h.dirCluster !in chain
      requires start < SizeOf(disk0, vol, h) && max == start + Min(len, SizeOf(disk0, vol, h) - start)
      requires wc >= max || n == |secs|
      ensures FileOn(disk, vol, h, chain) && SizeOf(disk, vol, h) == SizeOf(disk0, vol, h)
      ensures wl == |Slice(Bytes(disk0, vol, h, chain), start, len)| <= |data|
      ensures Bytes(disk, vol, h, chain) == Overlay(Bytes(disk0, vol, h, chain), start, data[..wl])
    {
      OtherClusterOutside(vol, chain, h.dirCluster, 0);
      BeforeDataOutside(vol, chain, vol.firstFatSec);
    }

    lemma ReadResult(disk: Disk, vol: Volume, h: Handle, chain: seq<Cluster>, n: nat, len: nat,
                     rc: nat, cfo: nat, rl: nat, buf: seq<byte>)
      requires Reading(n, rc, cfo, rl, disk, buf) && FileOn(disk, vol, h, chain) && secs == Sectors(vol, chain)
      requires start < SizeOf(disk, vol, h) && max == start + Min(len, SizeOf(disk, vol, h) - start)
      requires rc >= max || n == |secs|
      ensures var data := Slice(Bytes(disk, vol, h, chain), start, len);
        rl == |data| && buf == data + before[rl..]
    {
      var c := Content(disk, secs);
      assert Reached(max, n) == Min(max, |c|);
      SliceIsBetween(c, SizeOf(disk, vol, h), start, len, cfo);
      hide FileOn;
      hide OnDisk;
    }
  }

  lemma BufferGrows(c: seq<byte>, buf: seq<byte>, before: seq<byte>, start: nat, cfo: nat, x: seq<byte>)
    requires start <= cfo && cfo + |x| <= |c| && cfo + |x| - start <= |before|
    requires buf == c[start..cfo] + before[cfo - start..] && x == c[cfo..cfo + |x|]
    ensures var rl := cfo - start;
      rl + |x| <= |buf|
      && buf[..rl] + x + buf[rl + |x|..] == Between(c, start, cfo + |x|) + before[rl + |x|..]
  {
    var rl := cfo - start;
    assert buf[..rl] == c[start..cfo];
    assert buf[rl + |x|..] == before[rl + |x|..];
    assert c[start..cfo] + x == c[start..cfo + |x|];
  }

  // What the walk delivered is what the file holds there.
  lemma SliceIsBetween(c: seq<byte>, size: nat, pos: nat, len: nat, cfo: nat)
    requires pos < size && cfo == Max(pos, Min(pos + Min(len, size - pos), |c|))
    ensures Slice(c[..Min(size, |c|)], pos, len) == Between(c, pos, cfo)
    ensures |Between(c, pos, cfo)| == cfo - pos
  {
  }

  lemma SpliceTwice(c: seq<byte>, pos: nat, d: seq<byte>, e: seq<byte>)
    requires pos + |d| + |e| <= |c|
    ensures Splice(Splice(c, pos, d), pos + |d|, e) == Splice(c, pos, d + e)
  {
    var l, r := Splice(Splice(c, pos, d), pos + |d|, e), Splice(c, pos, d + e);
    hide Splice;
    forall i | 0 <= i < |c|
      ensures l[i] == r[i]
    {
    }
    assert |l| == |r| && l == r;
  }

  lemma NothingWritten(disk: Disk, vol: Volume, h: Handle, chain: seq<Cluster>, pos: nat, len: nat)
    requires FileOn(disk, vol, h, chain) && pos >= SizeOf(disk, vol, h)
    ensures var c := Content(disk, Sectors(vol, chain)); Overlay(c, pos, []) == c
    ensures var b := Bytes(disk, vol, h, chain); Overlay(b, pos, []) == b && Slice(b, pos, len) == []
  {
  }

  // Not done after cluster i: the FAT entry of cluster i is the next cluster, or the end marker.
  lemma ChainStep(disk: Disk, vol: Volume, h: Handle, chain: seq<Cluster>, i: nat, rc: nat)
    requires FileOn(disk, vol, h, chain) && i < |chain|
    requires rc < SizeOf(disk, vol, h) && rc == SECTOR * |Sectors(vol, chain[..i + 1])|
    ensures var next := FatEntry(disk[vol.firstFatSec], chain[i]);
      if i + 1 < |chain| then next == chain[i + 1] else next >= END_OF_CHAIN
  {
    if i + 1 == |chain| { assert chain[..i + 1] == chain; }
  }

  // ---------------------------------------------------------------------------------
  // The FAT alone determines the file, cyclic or not.

  // next ends the chain or is one of the clusters in reach.
  ghost predicate Enters(next: nat, reach: set<Cluster>) {
    next >= END_OF_CHAIN || (2 <= next < 128 && next in reach)
  }

  // A walk along the FAT from the file's first cluster stays in reach, which lies on the disk. What
  // the FAT says of other clusters, free ones for instance, does not matter.
  ghost predicate Closed(disk: Disk, vol: Volume, h: Handle, reach: set<Cluster>) {
    && GoodDisk(disk, vol)
    && Enters(h.cluster, reach)
    && (forall c :: c in reach ==> Enters(FatEntry(disk[vol.firstFatSec], c), reach))
    && (forall c :: c in reach ==> ClusterToSector(vol, c) + vol.secPerCluster <= |disk|)
  }

  // Following the FAT n steps.
  lemma {:induction false} Unroll(fat: seq<byte>, start: nat, reach: set<Cluster>, n: nat)
    returns (chain: seq<Cluster>)
    requires |fat| == SECTOR && Enters(start, reach) && forall c :: c in reach ==> Enters(FatEntry(fat, c), reach)
    ensures Links(fat, start, chain) && (Ends(fat, start, chain) || |chain| > n)
    ensures forall c :: c in chain ==> c in reach
  {
    if start >= END_OF_CHAIN {
      chain := [];
    } else if n == 0 {
      chain := [start];
    } else {
      chain := Unroll(fat, start, reach, n - 1);
      if !Ends(fat, start, chain) {
        var last := chain[|chain| - 1];
        assert last in chain;
        chain := chain + [FatEntry(fat, last)];
      }
    }
  }

  lemma {:induction false} SectorsCover(vol: Volume, chain: seq<Cluster>)
    requires vol.secPerCluster >= 1
    ensures |Sectors(vol, chain)| >= |chain|
    decreases |chain|
  {
    if chain != [] { SectorsCover(vol, chain[..|chain| - 1]); }
  }

  // So the chain that read and write are specified with exists for every such file, also on a
  // cyclic FAT.
  lemma ChainExists(disk: Disk, vol: Volume, h: Handle, reach: set<Cluster>) returns (chain: seq<Cluster>)
    requires Closed(disk, vol, h, reach)
    requires ClusterToSector(vol, h.dirCluster) < |disk| && h.dirIndex < 16
    ensures FileOn(disk, vol, h, chain) && forall c :: c in chain ==> c in reach
  {
    var size := SizeOf(disk, vol, h);
    chain := Unroll(disk[vol.firstFatSec], h.cluster, reach, size);
    SectorsCover(vol, chain);
    var secs := Sectors(vol, chain);
    forall k | 0 <= k < |secs|
      ensures secs[k] < |disk|
    {
      var i, s := SectorBelongs(vol, chain, k);
      assert chain[i] in chain;
    }
  }

  // The condition is exact for a chain that ends: its own clusters are such a set.
  lemma EndedChainIsClosed(disk: Disk, vol: Volume, h: Handle, chain: seq<Cluster>)
    requires FileOn(disk, vol, h, chain) && Ends(disk[vol.firstFatSec], h.cluster, chain)
    ensures Closed(disk, vol, h, set c | c in chain)
  {
    var fat, reach := disk[vol.firstFatSec], set c | c in chain;
    forall c | c in reach
      ensures Enters(FatEntry(fat, c), reach) && ClusterToSector(vol, c) + vol.secPerCluster <= |disk|
    {
      var i :| 0 <= i < |chain| && chain[i] == c;
      if i + 1 < |chain| {
        LinkAt(fat, h.cluster, chain, i + 1);
        assert chain[i + 1] in chain;
      }
      SectorIndex(vol, chain, i, vol.secPerCluster - 1);
    }
    if chain != [] {
      LinkAt(fat, h.cluster, chain, 0);
      assert chain[0] in chain;
    }
  }

  lemma {:induction false} SameLinks(fat: seq<byte>, start: nat, a: seq<Cluster>, b: seq<Cluster>, i: nat)
    requires Links(fat, start, a) && Links(fat, start, b) && i < |a| && i < |b|
    ensures a[i] == b[i]
  {
    if i > 0 { SameLinks(fat, start, a, b, i - 1); }
  }

  // ... and it does not matter which one the caller names: they all give the same bytes.
  lemma BytesAreUnique(disk: Disk, vol: Volume, h: Handle, a: seq<Cluster>, b: seq<Cluster>)
    requires FileOn(disk, vol, h, a) && FileOn(disk, vol, h, b)
    ensures Bytes(disk, vol, h, a) == Bytes(disk, vol, h, b)
  {
    if |a| <= |b| {
      ShorterChain(disk, vol, h, a, b);
    } else {
      ShorterChain(disk, vol, h, b, a);
    }
  }

  lemma ShorterChain(disk: Disk, vol: Volume, h: Handle, a: seq<Cluster>, b: seq<Cluster>)
    requires FileOn(disk, vol, h, a) && FileOn(disk, vol, h, b) && |a| <= |b|
    ensures Bytes(disk, vol, h, a) == Bytes(disk, vol, h, b)
  {
    var fat := disk[vol.firstFatSec];
    forall i | 0 <= i < |a|
      ensures a[i] == b[i]
    {
      SameLinks(fat, h.cluster, a, b, i);
    }
    assert a == b[..|a|];
    if Ends(fat, h.cluster, a) {
      EndedIsLongest(fat, h.cluster, a, b);
    } else {
      PrefixSectors(vol, b, |a|);
      PrefixContent(disk, Sectors(vol, a), Sectors(vol, b));
    }
  }

  lemma EndedIsLongest(fat: seq<byte>, start: nat, a: seq<Cluster>, b: seq<Cluster>)
    requires Links(fat, start, a) && Links(fat, start, b) && Ends(fat, start, a) && a <= b
    ensures a == b
  {
    if |a| < |b| {
      LinkAt(fat, start, b, |a|);
      assert false;
    }
  }

  lemma LinkAt(fat: seq<byte>, start: nat, chain: seq<Cluster>, i: nat)
    requires Links(fat, start, chain) && i < |chain|
    ensures chain[i] == (if i == 0 then start else FatEntry(fat, chain[i - 1])) < END_OF_CHAIN
  {
  }

  lemma {:induction false} PrefixSectors(vol: Volume, chain: seq<Cluster>, n: nat)
    requires n <= |chain|
    ensures Sectors(vol, chain[..n]) <= Sectors(vol, chain)
    decreases |chain|
  {
    if n == |chain| {
      assert chain[..n] == chain;
    } else {
      PrefixSectors(vol, chain[..|chain| - 1], n);
      assert chain[..|chain| - 1][..n] == chain[..n];
    }
  }

  lemma PrefixContent(disk: Disk, a: seq<nat>, b: seq<nat>)
    requires a <= b
    ensures Content(disk, a) == Content(disk, b)[..SECTOR * |a|]
  {
    var c, d := Content(disk, a), Content(disk, b)[..SECTOR * |a|];
    forall q | 0 <= q < |c|
      ensures c[q] == d[q]
    {
      assert ByteAt(disk, a, q) == ByteAt(disk, b, q);
    }
  }
}
