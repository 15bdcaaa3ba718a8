/** File operations as a user composes them. */
module FatOps {
  import opened Basics
  import opened FatLayout
  import opened FatFile

  // The file as its user sees it: bytes, recorded size, position. For a chain that is long
  // enough, size and |bytes| agree.
  datatype View = View(bytes: seq<byte>, size: nat, cfo: int)

  datatype Op = Reads(len: nat) | Writes(data: seq<byte>) | Seeks(offset: int, whence: nat)

  predicate Sane(v: View) {
    0 <= v.cfo <= v.size && |v.bytes| <= v.size
  }

  // What Read, Write and Lseek promise, in terms of the view.
  function Apply(v: View, op: Op): (View, seq<byte>)
    requires Sane(v) && Returns(op)
  {
    match op
    case Reads(len) =>
      var data := Slice(v.bytes, v.cfo, len);
      (v.(cfo := v.cfo + |data|), data)
    case Writes(data) =>
      var n := |Slice(v.bytes, v.cfo, |data|)|;
      (v.(bytes := Overlay(v.bytes, v.cfo, data[..n]), cfo := v.cfo + n), [])
    case Seeks(offset, whence) => (v.(cfo := SeekTo(v.size, v.cfo, offset, whence).value), [])
  }

  ghost function ViewOf(fs: FileSystem, f: File, chain: seq<Cluster>): View
    requires FileOn(fs.disk, fs.vol, f.handle, chain)
    reads fs, f
  {
    View(Bytes(fs.disk, fs.vol, f.handle, chain), SizeOf(fs.disk, fs.vol, f.handle), f.cfo)
  }

  // Any operation the code returns from.
  predicate Returns(op: Op) {
    op.Seeks? ==> KnownWhence(op.whence)
  }

  lemma ApplyKeepsSane(v: View, op: Op)
    requires Sane(v) && Returns(op)
    ensures var t := Apply(v, op).0; Sane(t) && t.size == v.size && |t.bytes| == |v.bytes|
  {
  }

  // The position stays inside the file, whatever is done.
  function RunAll(v: View, ops: seq<Op>): (t: View)
    requires Sane(v) && forall op :: op in ops ==> Returns(op)
    ensures Sane(t) && t.size == v.size && |t.bytes| == |v.bytes|
    decreases |ops|
  {
    if ops == [] then v
    else
      ApplyKeepsSane(v, ops[0]);
      RunAll(Apply(v, ops[0]).0, ops[1..])
  }

  // The file can be used: it is on the disk, its position is inside it, and nothing else shares
  // its clusters when it is written.
  ghost predicate Usable(fs: FileSystem, f: File, chain: seq<Cluster>, op: Op)
    reads fs, f
  {
    && fs.Valid() && FileOn(fs.disk, fs.vol, f.handle, chain)
    && Sane(ViewOf(fs, f, chain)) && Returns(op)
    && (op.Writes? ==> NoDuplicates(chain) && f.handle.dirCluster !in chain)
  }

  // The code performs exactly Apply on the file's view.
  method Perform(fs: FileSystem, f: File, op: Op, ghost chain: seq<Cluster>) returns (data: seq<byte>)
    requires Usable(fs, f, chain, op)
    modifies f, fs`disk, fs.fatBuf, fs.tableBuf
    ensures fs.Valid() && FileOn(fs.disk, fs.vol, f.handle, chain)
    ensures (ViewOf(fs, f, chain), data) == Apply(old(ViewOf(fs, f, chain)), op)
  {
    match op
    case Reads(len) => data := PerformRead(fs, f, len, chain);
    case Writes(bytes) =>
      PerformWrite(fs, f, bytes, chain);
      data := [];
    case Seeks(offset, whence) =>
      var r := fs.Lseek(f, offset, whence);
      data := [];
  }

  method PerformRead(fs: FileSystem, f: File, len: nat, ghost chain: seq<Cluster>) returns (data: seq<byte>)
    requires Usable(fs, f, chain, Reads(len))
    modifies f, fs.fatBuf, fs.tableBuf
    ensures fs.Valid() && FileOn(fs.disk, fs.vol, f.handle, chain)
    ensures (ViewOf(fs, f, chain), data) == Apply(old(ViewOf(fs, f, chain)), Reads(len))
  {
    var buf := new byte[len](_ => 0);
    var n := fs.Read(f, buf, len, chain);
    data := buf[..n];
  }

  method PerformWrite(fs: FileSystem, f: File, bytes: seq<byte>, ghost chain: seq<Cluster>)
    requires Usable(fs, f, chain, Writes(bytes))
    modifies f, fs`disk, fs.fatBuf, fs.tableBuf
    ensures fs.Valid() && FileOn(fs.disk, fs.vol, f.handle, chain)
    ensures ViewOf(fs, f, chain) == Apply(old(ViewOf(fs, f, chain)), Writes(bytes)).0
  {
    var buf := new byte[|bytes|](i requires 0 <= i < |bytes| => bytes[i]);
    assert buf[..] == bytes;
    hide FileOn;
    hide Bytes;
    hide SizeOf;
    hide Content;
    hide Sectors;
    hide Overlay;
    var n := fs.Write(f, buf, |bytes|, chain);
    assert buf[..n] == bytes[..n];
  }

  // Reading a bytes and then b bytes is reading a + b bytes.
  lemma ReadSplits(v: View, a: nat, b: nat)
    requires Sane(v)
    ensures var r1 := Apply(v, Reads(a));
      Sane(r1.0) && var r2, r := Apply(r1.0, Reads(b)), Apply(v, Reads(a + b));
      r.0 == r2.0 && r.1 == r1.1 + r2.1
  {
    ApplyKeepsSane(v, Reads(a));
    SliceSplits(v.bytes, v.cfo, a, b);
  }

  lemma SliceSplits(s: seq<byte>, pos: nat, a: nat, b: nat)
    ensures Slice(s, pos, a + b) == Slice(s, pos, a) + Slice(s, pos + |Slice(s, pos, a)|, b)
  {
  }

  // seek - write - seek - read gives back what was written, as far as the file reaches.
  lemma WriteThenRead(v: View, pos: nat, data: seq<byte>)
    requires Sane(v) && pos <= v.size
    ensures var v1 := Apply(v, Seeks(pos, SEEK_SET)).0;
      Sane(v1) && var v2 := Apply(v1, Writes(data)).0;
      Sane(v2) && var v3 := Apply(v2, Seeks(pos, SEEK_SET)).0;
      Sane(v3) && Apply(v3, Reads(|data|)).1 == data[..Max(0, Min(|data|, |v.bytes| - pos))]
  {
    var v1 := Apply(v, Seeks(pos, SEEK_SET)).0;
    ApplyKeepsSane(v, Seeks(pos, SEEK_SET));
    ApplyKeepsSane(v1, Writes(data));
    var v2 := Apply(v1, Writes(data)).0;
    ApplyKeepsSane(v2, Seeks(pos, SEEK_SET));
    OverlayReadBack(v.bytes, pos, data);
  }

  // Seeking from the end by 0 leaves nothing to read; by -n it leaves the last n bytes.
  lemma SeekFromEnd(v: View, n: int, len: nat)
    requires Sane(v) && 0 <= n <= v.size == |v.bytes|
    ensures var v1 := Apply(v, Seeks(-n, 2)).0;
      Sane(v1) && v1.cfo == v.size - n
      && Apply(v1, Reads(len)).1 == v.bytes[v.size - n..v.size - n + Min(n, len)]
  {
    ApplyKeepsSane(v, Seeks(-n, 2));
    SliceToEnd(v.bytes, v.size - n, len);
    hide Slice;
  }

  lemma SliceToEnd(b: seq<byte>, pos: nat, len: nat)
    requires pos <= |b|
    ensures Slice(b, pos, len) == b[pos..pos + Min(|b| - pos, len)]
  {
  }

  // Seeking back and forth from where the file stands, inside it, ends where it began; the first
  // step skips exactly that many bytes.
  lemma SeekFromHere(v: View, d: int, len: nat)
    requires Sane(v) && 0 <= d && v.cfo + d <= v.size == |v.bytes|
    ensures var v1 := Apply(v, Seeks(d, 1)).0;
      && Sane(v1) && v1.cfo == v.cfo + d && Apply(v1, Seeks(-d, 1)).0 == v
      && Apply(v, Reads(d + len)).1 == v.bytes[v.cfo..v.cfo + d] + Apply(v1, Reads(len)).1
  {
    ApplyKeepsSane(v, Seeks(d, 1));
  }

  // Beyond either end a seek stops at it.
  lemma SeekStops(v: View, offset: int)
    requires Sane(v)
    ensures offset + v.cfo <= 0 ==> Apply(v, Seeks(offset, 1)).0.cfo == 0
    ensures offset >= v.size ==> Apply(v, Seeks(offset, 0)).0.cfo == v.size
    ensures offset + v.size <= 0 ==> Apply(v, Seeks(offset, 2)).0.cfo == 0
    ensures offset >= 0 ==> Apply(v, Seeks(offset, 2)).0.cfo == v.size
  {
  }

  lemma OverlayReadBack(s: seq<byte>, pos: nat, data: seq<byte>)
    ensures var n := |Slice(s, pos, |data|)|;
      && n <= |data| && n == Max(0, Min(|data|, |s| - pos))
      && Slice(Overlay(s, pos, data[..n]), pos, |data|) == data[..n]
  {
  }

  // A write in one file leaves every file on other clusters as it was.
  lemma OtherFileKept(disk0: Disk, disk: Disk, vol: Volume, chain: seq<Cluster>, h: Handle, other: seq<Cluster>)
    requires FileOn(disk0, vol, h, other) && GoodDisk(disk, vol) && |disk| == |disk0|
    requires forall t :: 0 <= t < |disk| && t !in Sectors(vol, chain) ==> disk[t] == disk0[t]
    requires h.dirCluster !in chain && forall c :: c in other ==> c !in chain
    ensures FileOn(disk, vol, h, other) && Bytes(disk, vol, h, other) == Bytes(disk0, vol, h, other)
    ensures SizeOf(disk, vol, h) == SizeOf(disk0, vol, h)
  {
    OtherClusterOutside(vol, chain, h.dirCluster, 0);
    BeforeDataOutside(vol, chain, vol.firstFatSec);
    var secs := Sectors(vol, other);
    hide U32;
    hide FatEntry;
    hide ByteAt;
    forall k | 0 <= k < |secs|
      ensures disk[secs[k]] == disk0[secs[k]]
    {
      var i, s := SectorBelongs(vol, other, k);
      assert other[i] in other;
      OtherClusterOutside(vol, chain, other[i], s);
    }
    assert Content(disk, secs) == Content(disk0, secs);
  }

  // The loop of cat (user/main.c:66-82): chunks until a read returns 0. The output is the rest
  // of the file, each byte once.
  method Cat(fs: FileSystem, f: File, buf: array<byte>, ghost chain: seq<Cluster>) returns (out: seq<byte>)
    requires fs.Valid() && FileOn(fs.disk, fs.vol, f.handle, chain) && f.cfo >= 0
    requires buf != fs.fatBuf && buf != fs.tableBuf && buf.Length > 0
    modifies f, fs.fatBuf, fs.tableBuf, buf
    ensures var bytes := Bytes(fs.disk, fs.vol, f.handle, chain);
      out == if old(f.cfo) <= |bytes| then bytes[old(f.cfo)..] else []
  {
    out := [];
    hide FileOn;
    hide Bytes;
    hide GoodDisk;
    ghost var bytes, start := Bytes(fs.disk, fs.vol, f.handle, chain), f.cfo;
    while true
      invariant fs.Valid() && FileOn(fs.disk, fs.vol, f.handle, chain)
      invariant bytes == Bytes(fs.disk, fs.vol, f.handle, chain)
      invariant start <= f.cfo && (start <= |bytes| ==> f.cfo <= |bytes| && out == bytes[start..f.cfo])
      invariant start > |bytes| ==> out == []
      decreases |bytes| - f.cfo
    {
      var n := fs.Read(f, buf, buf.Length, chain);
      if n == 0 { break; }
      out := out + buf[..n];
    }
  }
}
