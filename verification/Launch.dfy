/** From a path to a program image: the file into a heap block, the image into another, the file's block
    given back. */
module Launch {
  import opened Bytes
  import opened SymTable
  import opened ElfFormat
  import opened ElfLoader
  import opened HeapLayout
  import opened HeapLinks
  import opened HeapRuns
  import R = FatRecords
  import FT = FatTable
  import F = Fat16
  import L = FatLoad
  import KernelHeap = Heap

  // ----- the heap along the way -----

  /** The block that a successful `malloc` adds. */
  lemma GrantAdds(s: State, n: nat, p: nat, s': State, lo: nat, hi: nat) returns (g: Chunk)
    requires Invariant(s, lo, hi) && MallocStep(s, n, p, s', lo, hi) && FirstFit(s.cs, n) < |s.cs|
    ensures Invariant(s', lo, hi) && g in Live(s'.cs) && g !in Live(s.cs) && g.Payload() == p && n <= g.size
    ensures g == Granted(s.cs[FirstFit(s.cs, n)], n) && Contents(s') == Contents(s)[g := Payload(s'.m, g)]
  {
    hide Tiles, Coalesced, Linked, AfterMalloc, Isolated;
    var i := FirstFit(s.cs, n);
    g := Granted(s.cs[i], n);
    KernelHeap.PayloadRoom(s.cs, lo, hi, n, i);
    MallocRefines(s, n, p, s', lo, hi);
  }

  lemma SlotOf(cs: seq<Chunk>, c: Chunk) returns (i: nat)
    requires c in Live(cs)
    ensures i < |cs| && cs[i] == c && c.used
  {
    i :| 0 <= i < |cs| && cs[i] == c;
  }

  /** Adding a block, adding another, and removing the first. */
  lemma SecondStays(c0: Store, c1: Store, c2: Store, c3: Store, home: Chunk, g: Chunk)
    requires home !in c0 && home in c1 && c1 == c0[home := c1[home]]
    requires g !in c1 && g in c2 && c2 == c1[g := c2[g]] && c3 == c2 - {home}
    ensures g in c3 && c3 == c0[g := c3[g]] && c3[g] == c2[g]
  {
  }

  /** Heaps with the same blocks have the same chunks. */
  lemma SameBlocks(s: State, s': State, lo: nat, hi: nat)
    requires Invariant(s, lo, hi) && Invariant(s', lo, hi) && Contents(s) == Contents(s')
    ensures s.cs == s'.cs
  {
    hide Tiles, Coalesced, Linked;
    assert Contents(s).Keys == Live(s.cs) && Contents(s').Keys == Live(s'.cs);
    Canonical(s.cs, s'.cs, lo, hi);
  }

  lemma PayloadStart(m: Memory, g: Chunk, n: nat, lo: nat, hi: nat, cs: seq<Chunk>)
    requires Invariant(State(m, cs), lo, hi) && g in Live(cs) && n <= g.size
    ensures g.Payload() + n <= |m| && n <= |Payload(m, g)| && Payload(m, g)[..n] == m[g.Payload()..g.Payload() + n]
  {
    hide Coalesced, Linked;
    InHeap(cs, lo, hi, g);
  }

  /** `malloc` of a second block and `free` of the first one: what is left of both. */
  lemma SecondOnly(s0: State, s1: State, s2: State, s3: State, lo: nat, hi: nat, home: Chunk, i: nat,
                   n: nat, p: nat, img: seq<byte>) returns (g: Chunk)
    requires Invariant(s0, lo, hi) && Invariant(s1, lo, hi) && home in Live(s1.cs) && home !in Live(s0.cs)
    requires Contents(s1) == Contents(s0)[home := Payload(s1.m, home)]
    requires MallocStep(s1, n, p, s2, lo, hi) && FirstFit(s1.cs, n) < |s1.cs|
    requires |img| == n && p + n <= |s2.m| && s2.m[p..p + n] == img
    requires i < |s2.cs| && s2.cs[i] == home && FreeStep(s2, i, s3, lo, hi)
    ensures p != 0 && g !in Live(s0.cs) && g in Live(s3.cs) && g.Payload() == p
    ensures Contents(s3) == Contents(s0)[g := Payload(s3.m, g)]
    ensures n <= |Payload(s3.m, g)| && Payload(s3.m, g)[..n] == img
  {
    hide Tiles, Coalesced, Linked, MallocStep, FreeStep, FirstFit, Payload;
    g := GrantAdds(s1, n, p, s2, lo, hi);
    FreeRefines(s2, i, s3, lo, hi);
    SecondStays(Contents(s0), Contents(s1), Contents(s2), Contents(s3), home, g);
    PayloadStart(s2.m, g, n, lo, hi, s2.cs);
  }

  /** `malloc` refused and the first block given back: nothing is left. */
  lemma NothingLeft(s0: State, s1: State, s3: State, lo: nat, hi: nat, home: Chunk, i: nat)
    requires Invariant(s0, lo, hi) && Invariant(s1, lo, hi) && home !in Live(s0.cs)
    requires Contents(s1) == Contents(s0)[home := Payload(s1.m, home)]
    requires i < |s1.cs| && s1.cs[i] == home && home.used && FreeStep(s1, i, s3, lo, hi)
    ensures s3.cs == s0.cs && Contents(s3) == Contents(s0)
  {
    hide Tiles, Coalesced, Linked, FreeStep, Payload;
    FreeRefines(s1, i, s3, lo, hi);
    assert Contents(s3) == Contents(s0);
    SameBlocks(s0, s3, lo, hi);
  }

  /** The block stays in use while another one is allocated. */
  lemma HomeStays(s: State, n: nat, p: nat, s': State, lo: nat, hi: nat, home: Chunk) returns (i: nat)
    requires Invariant(s, lo, hi) && home in Live(s.cs)
    requires s' == s || (FirstFit(s.cs, n) < |s.cs| && MallocStep(s, n, p, s', lo, hi))
    ensures Invariant(s', lo, hi) && i < |s'.cs| && s'.cs[i] == home && home.used
  {
    hide Tiles, Coalesced, Linked, MallocStep, FirstFit, Payload;
    if s' != s {
      var g := GrantAdds(s, n, p, s', lo, hi);
      assert Contents(s).Keys == Live(s.cs) && Contents(s').Keys == Live(s'.cs);
    }
    i := SlotOf(s'.cs, home);
  }

  // ----- the launch -----

  /** The heap afterwards: one more block, which starts with the image, or the very same chunks. */
  ghost predicate Launched(s: State, s': State, elf: Memory, size: nat, entries: seq<Symbol>, entry: nat, exec: nat,
                           g: Chunk)
  {
    if exec == 0 then
      entry == 0 && s'.cs == s.cs && Contents(s') == Contents(s)
    else
      && g !in Live(s.cs) && g in Live(s'.cs) && g.Payload() == exec
      && Contents(s') == Contents(s)[g := Payload(s'.m, g)]
      && WellFormed(elf, size) && size <= |Payload(s'.m, g)| && Payload(s'.m, g)[..size] == Image(elf, size, entries)
      && entry == EntryOf(elf, FindSection(elf, SHT_SYMTAB, 0), MAIN, exec, 0)
  }

  /** The image from a file that lies in a block of its own, and the release of this block. */
  method FromBlock(heap: KernelHeap.Heap, table: SymbolTable, p: nat, size: nat, ghost elf: Memory, ghost home: Chunk,
                   ghost s0: State)
    returns (entry: nat, exec: nat, ghost g: Chunk)
    requires heap.Valid() && heap.size >= HEADER && table.Valid() && size < WORD
    requires EHDR_SIZE <= |elf| && (HasMagic(elf) ==> WellFormed(elf, size)) && Holds(heap.ram[..], p, elf)
    requires home in Live(heap.chunks) && home.Payload() == p && |elf| <= home.size
    requires Invariant(s0, heap.start, heap.start + heap.size) && home !in Live(s0.cs)
    requires var m := heap.ram[..]; Contents(State(m, heap.chunks)) == Contents(s0)[home := Payload(m, home)]
    modifies heap, heap.ram
    ensures heap.Valid() && table.Valid()
    ensures Launched(s0, State(heap.ram[..], heap.chunks), elf, size, table.Entries(), entry, exec, g)
    ensures exec == 0 <==> !HasMagic(elf) || FirstFit(old(heap.chunks), size) == |old(heap.chunks)|
  {
    hide Tiles, Coalesced, Linked, WellFormed, Image, EntryOf, Holds, MallocStep, FreeStep, Payload, HasMagic, FirstFit;
    hide Isolated, Contents, Live, AfterFree;
    ghost var lo, hi := heap.start, heap.start + heap.size;
    ghost var s1 := State(heap.ram[..], heap.chunks);
    g := home;
    entry, exec := ImageLoad(heap, table, p, size, elf, home);
    ghost var s2 := State(heap.ram[..], heap.chunks);
    ghost var i := HomeStays(s1, size, exec, s2, lo, hi, home);
    heap.Free(p, i);
    ghost var s3 := State(heap.ram[..], heap.chunks);
    if HasMagic(elf) && FirstFit(s1.cs, size) < |s1.cs| {
      g := SecondOnly(s0, s1, s2, s3, lo, hi, home, i, size, exec, Image(elf, size, table.Entries()));
    } else {
      NothingLeft(s0, s1, s3, lo, hi, home, i);
    }
  }

  /** From the path to the entry point, as `kernel_main` does it: open, size, allocate, read, load, release.
      `image_load` gets `size` from its caller. */
  method LoadProgram(fs: F.Fat16, heap: KernelHeap.Heap, table: SymbolTable, path: seq<byte>, size: nat,
                     ghost dir: seq<nat>, ghost chain: seq<nat>, ghost i: int, ghost k: int, ghost e: R.DirEntry)
    returns (entry: nat, ghost exec: nat, ghost g: Chunk)
    requires fs.Readable(path, dir, i, k, e) && F.Backed(fs.vol.dev.disk, fs.vol.G(), e, chain)
    requires exists a, b :: 0 <= a < b < FT.HANDLE_COUNT && !fs.Slots()[a].IsOpen() && !fs.Slots()[b].IsOpen()
    requires heap.Valid() && heap.size >= HEADER && FirstFit(heap.chunks, e.size) < |heap.chunks|
    requires table.Valid() && size < WORD
    requires var elf := F.FileBytes(fs.vol.dev.disk, fs.vol.G(), e, chain);
             EHDR_SIZE <= |elf| && (HasMagic(elf) ==> WellFormed(elf, size))
    modifies fs.vol.dev, fs.handles, heap, heap.ram
    ensures fs.Valid() && heap.Valid() && table.Valid()
    ensures Launched(old(State(heap.ram[..], heap.chunks)), State(heap.ram[..], heap.chunks),
                     F.FileBytes(fs.vol.dev.disk, fs.vol.G(), e, chain), size, table.Entries(), entry, exec, g)
  {
    hide F.Fat16.Readable, F.Backed, F.FileBytes, WellFormed, HasMagic, Launched, Tiles, Coalesced, Linked, FirstFit;
    hide MallocStep, Payload, Holds;
    ghost var s0 := State(heap.ram[..], heap.chunks);
    ghost var elf := F.FileBytes(fs.vol.dev.disk, fs.vol.G(), e, chain);
    ghost var lo, hi := heap.start, heap.start + heap.size;
    var fd, p, n := L.LoadFile(fs, heap, path, dir, chain, i, k, e);
    ghost var s1 := State(heap.ram[..], heap.chunks);
    ghost var home := GrantAdds(s0, e.size, p, s1, lo, hi);
    ItHolds(s1.m, p, elf);
    entry, exec, g := FromBlock(heap, table, p, size, elf, home, s0);
  }

  lemma ItHolds(m: Memory, p: nat, elf: Memory)
    requires p + |elf| <= |m| <= WORD && m[p..p + |elf|] == elf
    ensures Holds(m, p, elf)
  {
  }

  /** The kernel passes the size of a pointer. No file with a loadable segment of more than 4 bytes meets
      what the loader takes for granted then, and a segment that ends behind byte 20 of the image is
      written past the end of the block, whichever chunk it was cut from. */
  lemma PointerSize(elf: Memory, i: nat, c: Chunk)
    requires i < PhNum(elf) && Loads(elf, i)
    ensures PFilesz(elf, i) > 4 ==> !SegmentOk(elf, 4, i) && !WellFormed(elf, 4)
    ensures Fits(c, 4) && PVaddr(elf, i) + PFilesz(elf, i) > 4 + HEADER ==>
              Granted(c, 4).Payload() + PVaddr(elf, i) + PFilesz(elf, i) > Granted(c, 4).End()
  {
    if PFilesz(elf, i) > 4 {
      assert !SegmentOk(elf, 4, i);
    }
  }
}
