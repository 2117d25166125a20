/** The mounted volume: address computation, the FAT, and reading along a chain. */
module FatReader {
  import opened Arith
  import opened Bytes
  import opened FatDisk
  import opened FatVolume
  import opened FatStream
  import opened FatHandle

  /** The fields of the boot sector that the driver keeps. */
  datatype Bpb = Bpb(
    bytesPerSector: nat, sectorsPerCluster: nat, reserved: nat, numFats: nat, rootEntries: nat,
    sectorCount: nat, fatSize: nat)

  datatype Layout = Layout(offset: nat, fat: nat, root: nat, data: nat, clusters: nat)

  function Geo(b: Bpb, l: Layout): Geometry {
    Geometry(l.offset, l.fat, l.root, l.data, l.clusters, b.sectorsPerCluster * b.bytesPerSector, b.rootEntries)
  }

  /** The two scalings of a cluster number wrap nowhere when the product fits. */
  lemma ScaledCluster(i: nat, b: Bpb)
    requires Times(i, b.sectorsPerCluster * b.bytesPerSector) < WORD && b.bytesPerSector >= 1
    ensures U32(U32(i * b.sectorsPerCluster) * b.bytesPerSector) == Times(i, b.sectorsPerCluster * b.bytesPerSector)
  {
    var x := i * b.sectorsPerCluster;
    assert x * b.bytesPerSector == Times(i, b.sectorsPerCluster * b.bytesPerSector);
    assert x <= x * b.bytesPerSector;
  }

  class Volume {
    const dev: Device
    var bpb: Bpb
    var layout: Layout

    ghost function G(): Geometry
      reads this
    {
      Geo(bpb, layout)
    }

    ghost predicate Valid()
      reads this, dev
    {
      dev.Valid() && Sound(G()) && bpb.bytesPerSector >= 1
    }

    constructor (dev: Device, bpb: Bpb, layout: Layout)
      requires dev.Valid() && Sound(Geo(bpb, layout)) && bpb.bytesPerSector >= 1
      ensures Valid() && this.dev == dev && this.bpb == bpb && this.layout == layout
    {
      this.dev, this.bpb, this.layout := dev, bpb, layout;
    }

    method MoveToRootDirectoryRegion(entryIndex: nat) returns (pos: nat)
      requires Valid() && entryIndex <= G().rootEntries
      modifies dev
      ensures Valid() && pos == RootPos(G(), entryIndex) && dev.pointer == pos < WORD
    {
      pos := layout.root;
      pos := U32(pos + layout.offset);
      pos := U32(pos + entryIndex * 32);
      dev.Seek(pos);
    }

    method MoveToFatRegion(cluster: nat) returns (pos: nat)
      requires Valid() && cluster < 0x1_0000
      modifies dev
      ensures Valid() && pos == FatPos(G(), cluster) && dev.pointer == pos < WORD
    {
      pos := layout.fat;
      pos := U32(pos + layout.offset);
      pos := U32(pos + cluster * 2);
      dev.Seek(pos);
    }

    /** The cluster number is scaled by sectors and by bytes in turn, each time in 32 bits. */
    method MoveToDataRegion(cluster: nat, offset: nat) returns (pos: nat)
      requires Valid() && DataCluster(G(), cluster) && offset <= G().clusterBytes
      modifies dev
      ensures Valid() && pos == DataPos(G(), cluster) + offset && dev.pointer == pos < WORD
    {
      DataPosFits(G(), cluster);
      ScaledCluster(cluster - 2, bpb);
      hide U32, Times;
      var tmp := U32(cluster - 2);
      tmp := U32(tmp * bpb.sectorsPerCluster);
      tmp := U32(tmp * bpb.bytesPerSector);
      pos := layout.data;
      pos := U32(pos + layout.offset);
      pos := U32(pos + tmp);
      pos := U32(pos + offset);
      dev.Seek(pos);
    }

    method GetNextCluster(cluster: nat) returns (next: nat)
      requires Valid() && cluster < 0x1_0000
      modifies dev
      ensures Valid() && next == Next(dev.disk, G(), cluster)
      ensures var a := 51200 + layout.offset + layout.fat + 2 * cluster;
              next == dev.disk(a) as int + 256 * dev.disk(a + 1) as int
    {
      var pos := MoveToFatRegion(cluster);
      var word := new byte[2](_ => 0);
      dev.Read(word, 0, 2);
      assert word[..] == DeviceBytes(dev.disk, pos, 2);
      next := word[0] as int + 0x100 * word[1] as int;
      NextInBytes(dev.disk, G(), cluster);
    }

    /** The handle stands at byte `p` of the file of `size` bytes in `chain`. */
    ghost predicate Stands(handle: EntryHandle, chain: seq<nat>, size: nat, p: nat)
      reads this, handle, dev
    {
      && Valid() && IsFile(dev.disk, G(), chain, size) && p <= size
      && (handle.cluster, handle.offset) == At(chain, G().clusterBytes, size, p)
      && handle.remaining == size - p
    }

    /** `read_from_handle`: the next `count` bytes of the file, or as many as are left, to the buffer at
        `at`. A handle with nothing left, or without a cluster, delivers nothing. */
    method ReadFromHandle(handle: EntryHandle, buffer: array<byte>, at: nat, count: nat,
                          ghost chain: seq<nat>, ghost size: nat, ghost p: nat)
      returns (n: nat)
      requires Valid() && at + count <= buffer.Length && count < WORD
      requires handle.remaining == 0 || handle.cluster == 0 || Stands(handle, chain, size, p)
      modifies dev, handle`cluster, handle`offset, handle`remaining, buffer
      ensures Valid()
      ensures old(handle.remaining == 0 || handle.cluster == 0) ==>
                n == 0 && buffer[..] == old(buffer[..]) && handle.remaining == old(handle.remaining)
                && handle.cluster == old(handle.cluster) && handle.offset == old(handle.offset)
      ensures old(handle.cluster != 0 && Stands(handle, chain, size, p)) ==>
                && n == |ReadAt(Content(dev.disk, G(), chain, size), p, count)|
                && buffer[..] == Place(old(buffer[..]), at, ReadAt(Content(dev.disk, G(), chain, size), p, count))
                && Stands(handle, chain, size, p + n)
    {
      hide Content, At, Place, Times, Quot, Rem, DiskBytes, ChainBytes, Sound;
      ghost var g, m := G(), buffer[..];
      n := 0;
      ghost var q := p;
      PlaceNothing(m, at);
      if handle.remaining == 0 {
        return;
      }
      if handle.cluster == 0 {
        return;
      }
      ghost var content := Content(dev.disk, g, chain, size);
      assert content[p..q] == [];
      AtStep(chain, g.clusterBytes, size, p, 1);
      ghost var pos := MoveToDataRegion(handle.cluster, handle.offset);
      var left := count;
      while left > 0
        invariant n + left == count && q == p + n && q <= size
        invariant Stands(handle, chain, size, q) && g == G()
        invariant buffer[..] == Place(m, at, content[p..q])
        invariant left > 0 && handle.remaining > 0 ==> ReadyAt(handle)
      {
        if handle.remaining == 0 {
          return;
        }
        var k := ReadChunk(handle, buffer, at + n, left, chain, size, q);
        PlaceMore(m, at, content, p, n, k);
        q, left, n := q + k, left - k, n + k;
      }
    }

    /** The device is positioned where the handle stands. */
    ghost predicate ReadyAt(handle: EntryHandle)
      reads this, handle, dev
    {
      && DataCluster(G(), handle.cluster)
      && dev.pointer == DataPos(G(), handle.cluster) + handle.offset
    }

    /** One round of the loop: as much as the request, the cluster and the file allow. */
    method ReadChunk(handle: EntryHandle, buffer: array<byte>, at: nat, left: nat,
                     ghost chain: seq<nat>, ghost size: nat, ghost q: nat)
      returns (k: nat)
      requires Stands(handle, chain, size, q) && q < size && ReadyAt(handle)
      requires 0 < left < WORD && at + left <= buffer.Length
      modifies dev, handle`cluster, handle`offset, handle`remaining, buffer
      ensures 0 < k <= left && q + k <= size && Stands(handle, chain, size, q + k)
      ensures buffer[..] == Place(old(buffer[..]), at, Content(dev.disk, G(), chain, size)[q..q + k])
      ensures k < left && handle.remaining > 0 ==> ReadyAt(handle)
    {
      hide Content, At, Place, Times, Quot, Rem, DiskBytes, ChainBytes, U32;
      ghost var g := G();
      AtStep(chain, g.clusterBytes, size, q, 1);
      DataPosFits(g, handle.cluster);
      k := left;
      var inCluster := bpb.sectorsPerCluster * bpb.bytesPerSector - handle.offset;
      if k > inCluster {
        k := inCluster;
      }
      if k > handle.remaining {
        k := handle.remaining;
      }
      AtStep(chain, g.clusterBytes, size, q, k);
      ChunkOnDevice(dev.disk, g, chain, size, q, k);
      dev.Read(buffer, at, k);
      handle.remaining := handle.remaining - k;
      handle.offset := U16(handle.offset + k);
      if handle.offset == bpb.sectorsPerCluster * bpb.bytesPerSector {
        handle.offset := 0;
        if handle.remaining != 0 {
          var next := GetNextCluster(handle.cluster);
          handle.cluster := next;
          ghost var pos := MoveToDataRegion(handle.cluster, handle.offset);
        }
      }
    }
  }

  // ----- two reads or one -----

  /** Two handles that stand on the same byte of a file, or that both have nothing to deliver. */
  ghost predicate Twins(vol: Volume, one: EntryHandle, two: EntryHandle, chain: seq<nat>, size: nat, p: nat)
    reads vol, vol.dev, one, two
  {
    && vol.Valid()
    && one.cluster == two.cluster && one.offset == two.offset && one.remaining == two.remaining
    && (one.remaining == 0 || one.cluster == 0 || vol.Stands(one, chain, size, p))
  }

  /** Reading `n` and then `m` bytes leaves the same bytes in memory and the same handle as reading `n + m`
      at once. */
  method ReadsAgree(vol: Volume, one: EntryHandle, two: EntryHandle, split: array<byte>, whole: array<byte>,
                    at: nat, n: nat, m: nat, ghost chain: seq<nat>, ghost size: nat, ghost p: nat)
    returns (a: nat, b: nat, c: nat)
    requires one != two && split != whole && split[..] == whole[..]
    requires at + n + m <= split.Length && n + m < WORD && Twins(vol, one, two, chain, size, p)
    modifies vol.dev, one, two, split, whole
    ensures a + b == c && split[..] == whole[..]
    ensures one.cluster == two.cluster && one.offset == two.offset && one.remaining == two.remaining
  {
    hide Content, At, Place, Sound, FollowsFat, ReadAt;
    ghost var before := split[..];
    if one.remaining == 0 || one.cluster == 0 {
      a := vol.ReadFromHandle(one, split, at, n, chain, size, p);
      b := vol.ReadFromHandle(one, split, at, m, chain, size, p);
      c := vol.ReadFromHandle(two, whole, at, n + m, chain, size, p);
    } else {
      ghost var content := Content(vol.dev.disk, vol.G(), chain, size);
      a := vol.ReadFromHandle(one, split, at, n, chain, size, p);
      OnCluster(vol, one, chain, size, p + a);
      PiecesPlaced(before, at, content, p, n, m);
      b := vol.ReadFromHandle(one, split, at + a, m, chain, size, p + a);
      c := vol.ReadFromHandle(two, whole, at, n + m, chain, size, p);
    }
  }

  lemma OnCluster(vol: Volume, h: EntryHandle, chain: seq<nat>, size: nat, p: nat)
    requires vol.Stands(h, chain, size, p)
    ensures h.cluster != 0
  {
    hide Times, Quot, Rem, Content;
    AtIndex(|chain|, vol.G().clusterBytes, size, p);
  }

  lemma PiecesPlaced(m: Memory, at: nat, content: seq<byte>, p: nat, n: nat, k: nat)
    requires p <= |content| && at + n + k <= |m|
    ensures var first := ReadAt(content, p, n);
            var second := ReadAt(content, p + |first|, k);
            && |first| <= n && |second| <= k
            && Place(Place(m, at, first), at + |first|, second) == Place(m, at, ReadAt(content, p, n + k))
            && |first| + |second| == |ReadAt(content, p, n + k)|
  {
    ReadsCompose(content, p, n, k);
    hide Place;
    PlaceAppend(m, at, ReadAt(content, p, n), ReadAt(content, p + |ReadAt(content, p, n)|, k));
  }

  lemma PlaceMore(m: Memory, at: nat, content: seq<byte>, p: nat, n: nat, k: nat)
    requires p + n + k <= |content| && at + n + k <= |m|
    ensures Place(Place(m, at, content[p..p + n]), at + n, content[p + n..p + n + k]) ==
            Place(m, at, content[p..p + n + k])
  {
    PlaceAppend(m, at, content[p..p + n], content[p + n..p + n + k]);
    assert content[p..p + n] + content[p + n..p + n + k] == content[p..p + n + k];
  }

  lemma PlaceNothing(m: Memory, at: nat)
    requires at <= |m|
    ensures Place(m, at, []) == m
  {
  }
}
