/** A file into a block of the kernel heap. */
module FatLoad {
  import opened Bytes
  import opened FatStream
  import opened FatVolume
  import opened FatReader
  import opened FatRecords
  import opened FatTable
  import F = Fat16
  import HeapLayout
  import HeapLinks
  import H = HeapRuns
  import KernelHeap = Heap

  /** What loading leaves: a block of the heap with the content, or nothing when there is no room. */
  ghost predicate Loaded(m: Memory, cs: seq<HeapLayout.Chunk>, m': Memory, cs': seq<HeapLayout.Chunk>,
                         lo: nat, hi: nat, content: seq<byte>, p: nat, n: int) {
    if HeapLayout.FirstFit(cs, |content|) == |cs| then
      p == 0 && n == -1 && cs' == cs && m' == m
    else
      && p != 0 && n == |content| && p + |content| <= |m'| && m'[p..p + |content|] == content
      && H.MallocStep(H.State(m, cs), |content|, p, H.State(m', cs'), lo, hi)
  }

  /** How the kernel loads a program: open, ask for the size, allocate, read. The block from the heap holds
      the file and no other block changes; without room for it the read is refused. */
  method LoadFile(fs: F.Fat16, heap: KernelHeap.Heap, path: seq<byte>, ghost dir: seq<nat>, ghost chain: seq<nat>,
                  ghost i: int, ghost k: int, ghost e: DirEntry)
    returns (fd: int, p: nat, n: int)
    requires fs.Readable(path, dir, i, k, e) && F.Backed(fs.vol.dev.disk, fs.vol.G(), e, chain) && heap.Valid()
    requires exists a, b :: 0 <= a < b < HANDLE_COUNT && !fs.Slots()[a].IsOpen() && !fs.Slots()[b].IsOpen()
    modifies fs.vol.dev, fs.handles, heap, heap.ram
    ensures fs.Valid() && heap.Valid() && fd >= 0
    ensures Loaded(old(heap.ram[..]), old(heap.chunks), heap.ram[..], heap.chunks, heap.start, heap.start + heap.size,
                   F.FileBytes(fs.vol.dev.disk, fs.vol.G(), e, chain), p, n)
  {
    hide F.Fat16.Mounted, F.Fat16.RootChain, F.Fat16.AtStart, F.FileBytes, F.Backed, F.LeadsTo;
    hide Sound, Place, FatTable.FirstFree, Others, Loaded, FatRecords.SubRecord;
    ghost var t := fs.Slots();
    fd := fs.OpenReadable(path, dir, chain, i, k, e);
    fs.StillFree(t, fs.Slots(), fd);
    var size := fs.SizeReadable(path, dir, chain, i, k, e, fd);
    p, n := ReadIntoBlock(fs, heap, fd, size, e, chain);
  }

  /** The end of it: a block of the size, filled from the file. */
  method ReadIntoBlock(fs: F.Fat16, heap: KernelHeap.Heap, fd: nat, size: nat, ghost e: DirEntry, ghost chain: seq<nat>)
    returns (p: nat, n: int)
    requires fs.Valid() && fd < HANDLE_COUNT && fs.AtStart(fs.handles[fd], e, chain) && size == e.size < WORD
    requires heap.Valid() && F.Backed(fs.vol.dev.disk, fs.vol.G(), e, chain)
    modifies fs.vol.dev, fs.handles, heap, heap.ram
    ensures fs.Valid() && heap.Valid()
    ensures Loaded(old(heap.ram[..]), old(heap.chunks), heap.ram[..], heap.chunks, heap.start, heap.start + heap.size,
                   F.FileBytes(fs.vol.dev.disk, fs.vol.G(), e, chain), p, n)
  {
    hide Sound, IsFile, Content, At, Place, F.Fat16.AtStart, F.Backed, F.FileBytes;
    hide HeapLayout.FirstFit, HeapLinks.Linked, HeapLayout.Tiles, HeapLayout.Coalesced, H.MallocStep;
    ghost var s, m, cs := F.FileBytes(fs.vol.dev.disk, fs.vol.G(), e, chain), heap.ram[..], heap.chunks;
    ghost var lo, hi := heap.start, heap.start + heap.size;
    p := heap.Malloc(size);
    ghost var m1 := heap.ram[..];
    KernelHeap.GrantKnown(m, cs, size, p, m1, heap.chunks, lo, hi);
    n := fs.ReadFromStart(fd, heap.ram, p, size, e, chain);
    if p != 0 {
      assert n == |s| && s[..n] == s;
      KernelHeap.GrantFilled(m, cs, size, p, m1, heap.chunks, lo, hi, s);
    }
  }
}
