/** The ELF loader: `image_load` and its helpers, working on the bytes of memory. */
module ElfLoader {
  import opened Bytes
  import opened MemOps
  import opened Patches
  import opened SymTable
  import opened ElfFormat
  import opened HeapLayout
  import opened HeapLinks
  import opened HeapRuns
  import KernelHeap = Heap

  /** The file lies in memory at `start`. */
  ghost predicate Holds(m: Memory, start: nat, elf: Memory) {
    start + |elf| <= |m| <= WORD && m[start..start + |elf|] == elf
  }

  lemma PlaceTwice(m: Memory, at: nat, img: seq<byte>, p: Patch)
    requires at + |img| <= |m| && p.at + |p.data| <= |img|
    ensures var r := Place(m, at, img);
            r[..at + p.at] + p.data + r[at + p.at + |p.data|..] == Place(m, at, Apply(img, p))
  {
  }

  lemma HoldsPlace(m: Memory, start: nat, elf: Memory, at: nat, img: seq<byte>)
    requires Holds(m, start, elf) && at + |img| <= |m|
    requires start + |elf| <= at || at + |img| <= start
    ensures Holds(Place(m, at, img), start, elf)
  {
  }

  method ReadW(ram: array<byte>, start: nat, ghost elf: Memory, at: nat) returns (v: nat)
    requires Holds(ram[..], start, elf) && at + 4 <= |elf|
    ensures v == W(elf, at) && v < WORD
  {
    v := Load32(ram, start + at);
    assert ram[..][start + at..start + at + 4] == elf[at..at + 4];
    Get32Same(ram[..], start + at, elf, at);
  }

  method ReadH(ram: array<byte>, start: nat, ghost elf: Memory, at: nat) returns (v: nat)
    requires Holds(ram[..], start, elf) && at + 2 <= |elf|
    ensures v == H(elf, at)
  {
    assert ram[..][start..start + |elf|][at] == ram[start + at]
      && ram[..][start..start + |elf|][at + 1] == ram[start + at + 1];
    v := ram[start + at] as int + 0x100 * ram[start + at + 1] as int;
  }

  /** `find_global_symbol_table` (for `SHT_DYNSYM`) and `find_symbol_table` (for `SHT_SYMTAB`). */
  method FindTable(ram: array<byte>, start: nat, ghost elf: Memory, t: nat) returns (r: int)
    requires Holds(ram[..], start, elf) && EHDR_SIZE <= |elf| && Sh(elf, ShNum(elf)) <= |elf|
    ensures r == FindSection(elf, t, 0)
  {
    hide W, H;
    var n := ReadH(ram, start, elf, 48);
    var off := ReadW(ram, start, elf, 32);
    var i := 0;
    while i < n
      invariant 0 <= i <= n && FindSection(elf, t, 0) == FindSection(elf, t, i)
    {
      var ty := ReadW(ram, start, elf, off + SHDR_SIZE * i + 4);
      if ty == t {
        return i;
      }
      i := i + 1;
    }
    r := -1;
  }

  /** `find_sym`: the address of the first symbol of that name, or null. */
  ghost function EntryOf(elf: Memory, t: nat, name: seq<byte>, dst: nat, k: nat): nat
    requires k <= SSize(elf, t) / SYM_SIZE
    decreases SSize(elf, t) / SYM_SIZE - k
  {
    if k == SSize(elf, t) / SYM_SIZE then 0
    else if Name(elf, SymNameAt(elf, SymsAt(elf, t), StringsAt(elf, t), k)) == name then
      U32(dst + W(elf, SymsAt(elf, t) + SYM_SIZE * k + 4))
    else EntryOf(elf, t, name, dst, k + 1)
  }

  /** The entry is that of the first symbol with the name. */
  lemma {:induction false} EntryIsFirst(elf: Memory, t: nat, name: seq<byte>, dst: nat, i: nat, k: nat)
    requires i <= k <= SSize(elf, t) / SYM_SIZE
    requires forall j :: i <= j < k ==> Name(elf, SymNameAt(elf, SymsAt(elf, t), StringsAt(elf, t), j)) != name
    requires k < SSize(elf, t) / SYM_SIZE ==> Name(elf, SymNameAt(elf, SymsAt(elf, t), StringsAt(elf, t), k)) == name
    ensures EntryOf(elf, t, name, dst, i) ==
            if k < SSize(elf, t) / SYM_SIZE then U32(dst + W(elf, SymsAt(elf, t) + SYM_SIZE * k + 4)) else 0
    decreases k - i
  {
    if i == k {
    } else {
      EntryIsFirst(elf, t, name, dst, i + 1, k);
    }
  }

  method FindSym(ram: array<byte>, start: nat, ghost elf: Memory, t: nat, name: seq<byte>, dst: nat) returns (r: nat)
    requires Holds(ram[..], start, elf) && EHDR_SIZE <= |elf| && Sh(elf, ShNum(elf)) <= |elf|
    requires t < ShNum(elf) && SLink(elf, t) < ShNum(elf) && 0 !in name
    requires forall k :: 0 <= k < SSize(elf, t) / SYM_SIZE ==> SymbolOk(elf, t, k)
    ensures r == EntryOf(elf, t, name, dst, 0)
  {
    hide W, H, Name, Terminated;
    var off := ReadW(ram, start, elf, 32);
    var syms := ReadW(ram, start, elf, off + SHDR_SIZE * t + 16);
    var size := ReadW(ram, start, elf, off + SHDR_SIZE * t + 20);
    var link := ReadW(ram, start, elf, off + SHDR_SIZE * t + 24);
    var strings := ReadW(ram, start, elf, off + SHDR_SIZE * link + 16);
    var i := 0;
    while i < size / SYM_SIZE
      invariant 0 <= i <= size / SYM_SIZE && EntryOf(elf, t, name, dst, 0) == EntryOf(elf, t, name, dst, i)
    {
      assert SymbolOk(elf, t, i);
      var st := ReadW(ram, start, elf, syms + SYM_SIZE * i);
      ghost var s := Name(elf, strings + st);
      NameInMemory(ram[..], start, elf, strings + st);
      var c := Strcmp(name + [0], 0, ram[..], start + (strings + st), name, s);
      if c == 0 {
        var value := ReadW(ram, start, elf, syms + SYM_SIZE * i + 4);
        return U32(dst + value);
      }
      i := i + 1;
    }
    r := 0;
  }

  lemma NameInMemory(m: Memory, start: nat, elf: Memory, at: nat)
    requires Holds(m, start, elf) && Terminated(elf, at)
    ensures CString(m, start + at, Name(elf, at))
  {
    NameIsCString(elf, at);
    var s := Name(elf, at);
    assert m[start..start + |elf|][at + |s|] == m[start + (at + |s|)];
    SubSlice(m, start, |elf|, at, |s|);
  }

  // ----- writing the image -----

  /** The image region and the file are apart, and memory is `m` with `img` in that region. */
  ghost predicate Building(ram: Memory, m: Memory, start: nat, elf: Memory, dst: nat, img: seq<byte>) {
    && dst + |img| <= |m| <= WORD && Holds(m, start, elf)
    && (start + |elf| <= dst || dst + |img| <= start)
    && ram == Place(m, dst, img)
  }

  lemma InPlace(ram: Memory, m: Memory, start: nat, elf: Memory, dst: nat, img: seq<byte>)
    requires Building(ram, m, start, elf, dst, img)
    ensures Holds(ram, start, elf)
    ensures dst + |img| <= |ram| <= WORD && start + |elf| <= |ram|
  {
    HoldsPlace(m, start, elf, dst, img);
  }

  /** The loop over the program headers. */
  method LoadSegments(ram: array<byte>, ghost m: Memory, start: nat, ghost elf: Memory, dst: nat, ghost img: seq<byte>)
    requires Building(ram[..], m, start, elf, dst, img)
    requires EHDR_SIZE <= |elf| && Ph(elf, PhNum(elf)) <= |elf|
    requires forall i :: 0 <= i < PhNum(elf) ==> SegmentOk(elf, |img|, i)
    modifies ram
    ensures Fit(Segments(elf, PhNum(elf)), |img|)
    ensures Building(ram[..], m, start, elf, dst, ApplyAll(img, Segments(elf, PhNum(elf))))
  {
    hide W, H, Place, SegmentOk, Segments;
    HoldsPlace(m, start, elf, dst, img);
    var off := ReadW(ram, start, elf, 28);
    var n := ReadH(ram, start, elf, 44);
    var i := 0;
    SegmentsFit(elf, |img|, 0);
    NoSegments(elf, img);
    hide Building, Holds, ApplyAll;
    while i < n
      invariant 0 <= i <= n && Fit(Segments(elf, i), |img|)
      invariant Building(ram[..], m, start, elf, dst, ApplyAll(img, Segments(elf, i)))
    {
      SegmentsFit(elf, |img|, i + 1);
      LoadSegment(ram, m, start, elf, dst, ApplyAll(img, Segments(elf, i)), off, i);
      NextSegment(elf, img, i);
      i := i + 1;
    }
  }

  lemma NoSegments(elf: Memory, img: seq<byte>)
    ensures Segments(elf, 0) == [] && ApplyAll(img, []) == img
  {
  }

  function WithSegment(elf: Memory, img: seq<byte>, i: nat): (r: seq<byte>)
    requires SegmentOk(elf, |img|, i)
    ensures |r| == |img|
  {
    if Loads(elf, i) then Apply(img, Segment(elf, i)) else img
  }

  lemma NextSegment(elf: Memory, img: seq<byte>, i: nat)
    requires Fit(Segments(elf, i), |img|) && Fit(Segments(elf, i + 1), |img|) && SegmentOk(elf, |img|, i)
    ensures ApplyAll(img, Segments(elf, i + 1)) == WithSegment(elf, ApplyAll(img, Segments(elf, i)), i)
  {
    if Loads(elf, i) {
      ApplyConcat(img, Segments(elf, i), [Segment(elf, i)]);
      ApplyOne(ApplyAll(img, Segments(elf, i)), Segment(elf, i));
    } else {
      assert Segments(elf, i + 1) == Segments(elf, i);
    }
  }

  method LoadSegment(ram: array<byte>, ghost m: Memory, start: nat, ghost elf: Memory, dst: nat, ghost img: seq<byte>,
                     phdr: nat, i: nat)
    requires Building(ram[..], m, start, elf, dst, img)
    requires phdr == PhOff(elf) && Ph(elf, i + 1) <= |elf| && SegmentOk(elf, |img|, i)
    modifies ram
    ensures Building(ram[..], m, start, elf, dst, WithSegment(elf, img, i))
  {
    hide W, Building, Holds, Apply, Moved, Get32;
    InPlace(ram[..], m, start, elf, dst, img);
    var ty := ReadW(ram, start, elf, phdr + PHDR_SIZE * i);
    var filesz := ReadW(ram, start, elf, phdr + PHDR_SIZE * i + 16);
    if ty == PT_LOAD && filesz != 0 {
      var offset := ReadW(ram, start, elf, phdr + PHDR_SIZE * i + 4);
      var vaddr := ReadW(ram, start, elf, phdr + PHDR_SIZE * i + 8);
      MovedSegment(ram[..], m, start, elf, dst, img, Segment(elf, i), offset);
      Memmove(ram, dst + vaddr, start + offset, filesz);
    }
  }

  lemma ApplyOne(img: seq<byte>, p: Patch)
    requires p.at + |p.data| <= |img|
    ensures Fit([p], |img|) && ApplyAll(img, [p]) == Apply(img, p)
  {
    assert [p][..0] == [];
  }

  lemma MovedSegment(ram: Memory, m: Memory, start: nat, elf: Memory, dst: nat, img: seq<byte>, p: Patch, offset: nat)
    requires Building(ram, m, start, elf, dst, img)
    requires offset + |p.data| <= |elf| && p.data == elf[offset..offset + |p.data|] && p.at + |p.data| <= |img|
    ensures Building(Moved(ram, dst + p.at, start + offset, |p.data|), m, start, elf, dst, Apply(img, p))
  {
    HoldsPlace(m, start, elf, dst, img);
    SubSlice(ram, start, |elf|, offset, |p.data|);
    PlaceTwice(m, dst, img, p);
    hide Place, Apply;
  }

  /** `relocate` for section `i`: jump slots are filled in, other relocations are left alone. */
  method Relocate(ram: array<byte>, ghost m: Memory, start: nat, ghost elf: Memory, dst: nat, ghost img: seq<byte>,
                  table: SymbolTable, i: nat, ghost dyn: nat, syms: nat, strings: nat)
    requires Building(ram[..], m, start, elf, dst, img) && table.Valid()
    requires EHDR_SIZE <= |elf| && Sh(elf, ShNum(elf)) <= |elf| && i < ShNum(elf)
    requires syms == SymsAt(elf, dyn) && strings == StringsAt(elf, dyn)
    requires forall j :: 0 <= j < RelCount(elf, i) ==> RelOk(elf, |img|, dyn, i, j)
    modifies ram
    ensures var slots := SectionSlots(elf, table.Entries(), dyn, i, RelCount(elf, i));
            Fit(slots, |img|) && Building(ram[..], m, start, elf, dst, ApplyAll(img, slots))
  {
    hide W, H, Place, RelOk, SectionSlots;
    ghost var entries := table.Entries();
    HoldsPlace(m, start, elf, dst, img);
    var off := ReadW(ram, start, elf, 32);
    var rel := ReadW(ram, start, elf, off + SHDR_SIZE * i + 16);
    var size := ReadW(ram, start, elf, off + SHDR_SIZE * i + 20);
    var j := 0;
    SectionSlotsFit(elf, |img|, entries, dyn, i, 0);
    NoSlots(elf, entries, dyn, i, img);
    hide Building, Holds, ApplyAll;
    while j < size / REL_SIZE
      invariant 0 <= j <= size / REL_SIZE && table.Valid() && table.Entries() == entries
      invariant Fit(SectionSlots(elf, entries, dyn, i, j), |img|)
      invariant Building(ram[..], m, start, elf, dst, ApplyAll(img, SectionSlots(elf, entries, dyn, i, j)))
    {
      SectionSlotsFit(elf, |img|, entries, dyn, i, j + 1);
      FillSlot(ram, m, start, elf, dst, ApplyAll(img, SectionSlots(elf, entries, dyn, i, j)),
               table, i, j, dyn, rel, syms, strings);
      NextSlot(elf, entries, dyn, i, img, j);
      j := j + 1;
    }
  }

  lemma NoSlots(elf: Memory, entries: seq<Symbol>, dyn: nat, i: nat, img: seq<byte>)
    ensures SectionSlots(elf, entries, dyn, i, 0) == [] && ApplyAll(img, []) == img
  {
  }

  function WithSlot(elf: Memory, entries: seq<Symbol>, dyn: nat, img: seq<byte>, i: nat, j: nat): (r: seq<byte>)
    requires RType(elf, i, j) == R_386_JMP_SLOT ==> ROffset(elf, i, j) + 4 <= |img|
    ensures |r| == |img|
  {
    if RType(elf, i, j) == R_386_JMP_SLOT then Apply(img, Slot(elf, entries, dyn, i, j)) else img
  }

  lemma NextSlot(elf: Memory, entries: seq<Symbol>, dyn: nat, i: nat, img: seq<byte>, j: nat)
    requires Fit(SectionSlots(elf, entries, dyn, i, j), |img|) && Fit(SectionSlots(elf, entries, dyn, i, j + 1), |img|)
    requires RelOk(elf, |img|, dyn, i, j)
    ensures RType(elf, i, j) == R_386_JMP_SLOT ==> ROffset(elf, i, j) + 4 <= |img|
    ensures ApplyAll(img, SectionSlots(elf, entries, dyn, i, j + 1)) ==
            WithSlot(elf, entries, dyn, ApplyAll(img, SectionSlots(elf, entries, dyn, i, j)), i, j)
  {
    hide Encode32, Resolve, Name, ApplyAll, RType, ROffset, W, Terminated, Apply;
    assert Slot(elf, entries, dyn, i, j).at == ROffset(elf, i, j) && |Slot(elf, entries, dyn, i, j).data| == 4;
    if RType(elf, i, j) == R_386_JMP_SLOT {
      ApplyConcat(img, SectionSlots(elf, entries, dyn, i, j), [Slot(elf, entries, dyn, i, j)]);
      ApplyOne(ApplyAll(img, SectionSlots(elf, entries, dyn, i, j)), Slot(elf, entries, dyn, i, j));
    } else {
      assert SectionSlots(elf, entries, dyn, i, j + 1) == SectionSlots(elf, entries, dyn, i, j);
    }
  }

  method FillSlot(ram: array<byte>, ghost m: Memory, start: nat, ghost elf: Memory, dst: nat, ghost img: seq<byte>,
                  table: SymbolTable, ghost i: nat, j: nat, ghost dyn: nat, rel: nat, syms: nat, strings: nat)
    requires Building(ram[..], m, start, elf, dst, img) && table.Valid()
    requires rel == SOffset(elf, i) && syms == SymsAt(elf, dyn) && strings == StringsAt(elf, dyn)
    requires RelOk(elf, |img|, dyn, i, j)
    modifies ram
    ensures Building(ram[..], m, start, elf, dst, WithSlot(elf, table.Entries(), dyn, img, i, j))
  {
    hide W, Building, Holds, Apply, Name, Terminated, Encode32, Resolve, Put32, Get32;
    InPlace(ram[..], m, start, elf, dst, img);
    var offset := ReadW(ram, start, elf, rel + REL_SIZE * j);
    var info := ReadW(ram, start, elf, rel + REL_SIZE * j + 4);
    var st := ReadW(ram, start, elf, syms + SYM_SIZE * (info / 0x100));
    if info % 0x100 == R_386_JMP_SLOT {
      NameInMemory(ram[..], start, elf, strings + st);
      var address := table.ResolveSymbol(ram[..], start + (strings + st), Name(elf, strings + st));
      StoredSlot(ram[..], m, start, elf, dst, img, offset, address);
      Store32(ram, dst + offset, address);
    }
  }

  lemma StoredSlot(ram: Memory, m: Memory, start: nat, elf: Memory, dst: nat, img: seq<byte>, offset: nat, v: nat)
    requires Building(ram, m, start, elf, dst, img)
    requires offset + 4 <= |img| && v < WORD
    ensures Building(Put32(ram, dst + offset, v), m, start, elf, dst, Apply(img, Patch(offset, Encode32(v))))
  {
    hide Encode32, Get32;
    PlaceTwice(m, dst, img, Patch(offset, Encode32(v)));
  }

  /** The loop over the section headers that relocates every `SHT_REL` section. */
  method RelocateAll(ram: array<byte>, ghost m: Memory, start: nat, ghost elf: Memory, dst: nat, ghost img: seq<byte>,
                     table: SymbolTable, dyn: nat)
    requires Building(ram[..], m, start, elf, dst, img) && table.Valid()
    requires EHDR_SIZE <= |elf| && Sh(elf, ShNum(elf)) <= |elf|
    requires dyn < ShNum(elf) && SLink(elf, dyn) < ShNum(elf)
    requires forall i :: 0 <= i < ShNum(elf) ==> RelSectionOk(elf, |img|, dyn, i)
    modifies ram
    ensures var slots := Slots(elf, table.Entries(), dyn, ShNum(elf));
            Fit(slots, |img|) && Building(ram[..], m, start, elf, dst, ApplyAll(img, slots))
  {
    hide W, H, Building, Holds, Slots, RelSectionOk, RelOk, Fit;
    ghost var entries := table.Entries();
    InPlace(ram[..], m, start, elf, dst, img);
    var n := ReadH(ram, start, elf, 48);
    var off := ReadW(ram, start, elf, 32);
    var syms := ReadW(ram, start, elf, off + SHDR_SIZE * dyn + 16);
    var link := ReadW(ram, start, elf, off + SHDR_SIZE * dyn + 24);
    var strings := ReadW(ram, start, elf, off + SHDR_SIZE * link + 16);
    var i := 0;
    SlotsFit(elf, |img|, entries, dyn, 0);
    NoSections(elf, entries, dyn, img);
    hide ApplyAll;
    while i < n
      invariant 0 <= i <= n && table.Valid() && table.Entries() == entries
      invariant Fit(Slots(elf, entries, dyn, i), |img|)
      invariant Building(ram[..], m, start, elf, dst, ApplyAll(img, Slots(elf, entries, dyn, i)))
    {
      SlotsFit(elf, |img|, entries, dyn, i + 1);
      assert RelSectionOk(elf, |img|, dyn, i);
      InPlace(ram[..], m, start, elf, dst, ApplyAll(img, Slots(elf, entries, dyn, i)));
      var ty := ReadW(ram, start, elf, off + SHDR_SIZE * i + 4);
      NextSection(elf, entries, dyn, img, i);
      if ty == SHT_REL {
        RelsOk(elf, |img|, dyn, i);
        Relocate(ram, m, start, elf, dst, ApplyAll(img, Slots(elf, entries, dyn, i)), table, i, dyn, syms, strings);
      }
      i := i + 1;
    }
  }

  lemma RelsOk(elf: Memory, size: nat, dyn: nat, i: nat)
    requires RelSectionOk(elf, size, dyn, i) && SType(elf, i) == SHT_REL
    ensures forall j :: 0 <= j < RelCount(elf, i) ==> RelOk(elf, size, dyn, i, j)
  {
  }

  lemma NoSections(elf: Memory, entries: seq<Symbol>, dyn: nat, img: seq<byte>)
    ensures Slots(elf, entries, dyn, 0) == [] && ApplyAll(img, []) == img
  {
  }

  lemma NextSection(elf: Memory, entries: seq<Symbol>, dyn: nat, img: seq<byte>, i: nat)
    requires Fit(Slots(elf, entries, dyn, i), |img|) && Fit(Slots(elf, entries, dyn, i + 1), |img|)
    requires RelSectionOk(elf, |img|, dyn, i)
    ensures SType(elf, i) == SHT_REL ==> Fit(SectionSlots(elf, entries, dyn, i, RelCount(elf, i)), |img|)
    ensures ApplyAll(img, Slots(elf, entries, dyn, i + 1)) ==
            var now := ApplyAll(img, Slots(elf, entries, dyn, i));
            if SType(elf, i) == SHT_REL then ApplyAll(now, SectionSlots(elf, entries, dyn, i, RelCount(elf, i)))
            else now
  {
    hide ApplyAll, SType, SectionSlots;
    if SType(elf, i) == SHT_REL {
      SectionSlotsFit(elf, |img|, entries, dyn, i, RelCount(elf, i));
      ApplyConcat(img, Slots(elf, entries, dyn, i), SectionSlots(elf, entries, dyn, i, RelCount(elf, i)));
    } else {
      assert Slots(elf, entries, dyn, i + 1) == Slots(elf, entries, dyn, i);
    }
  }

  // ----- image_load -----

  const MAIN: seq<byte> := [0x6D, 0x61, 0x69, 0x6E]

  /** `image_load` once the buffer at `exec` has been allocated. */
  method BuildImage(ram: array<byte>, start: nat, ghost elf: Memory, exec: nat, size: nat, table: SymbolTable)
    returns (entry: nat)
    requires Holds(ram[..], start, elf) && WellFormed(elf, size) && table.Valid()
    requires exec + size <= ram.Length && (start + |elf| <= exec || exec + size <= start)
    modifies ram
    ensures ram[..] == Place(old(ram[..]), exec, Image(elf, size, table.Entries()))
    ensures entry == EntryOf(elf, FindSection(elf, SHT_SYMTAB, 0), MAIN, exec, 0)
  {
    hide Holds, Place, RelSectionOk, SegmentOk, SymbolOk, ApplyAll, Segments, Slots, W, H;
    ghost var m, zeros, entries := ram[..], Zeros(size), table.Entries();
    Memset(ram, exec, 0, size);
    StartBuilding(m, start, elf, exec, size);
    LoadSegments(ram, m, start, elf, exec, zeros);
    ghost var loaded := ApplyAll(zeros, Segments(elf, PhNum(elf)));
    InPlace(ram[..], m, start, elf, exec, loaded);
    var dyn := FindTable(ram, start, elf, SHT_DYNSYM);
    RelocateAll(ram, m, start, elf, exec, loaded, table, dyn);
    InPlace(ram[..], m, start, elf, exec, ApplyAll(loaded, Slots(elf, entries, dyn, ShNum(elf))));
    var sym := FindTable(ram, start, elf, SHT_SYMTAB);
    entry := FindSym(ram, start, elf, sym, MAIN, exec);
  }

  lemma StartBuilding(m: Memory, start: nat, elf: Memory, at: nat, n: nat)
    requires Holds(m, start, elf) && at + n <= |m| && (start + |elf| <= at || at + n <= start)
    ensures Building(Filled(m, at, 0, n), m, start, elf, at, Zeros(n))
  {
  }

  /** `image_load` of the file at `start`, which lies in a live block of the heap. */
  method ImageLoad(heap: KernelHeap.Heap, table: SymbolTable, start: nat, size: nat,
                   ghost elf: Memory, ghost home: Chunk)
    returns (entry: nat, exec: nat)
    requires heap.Valid() && table.Valid() && size < WORD
    requires home in Live(heap.chunks) && home.Payload() <= start && start + |elf| <= home.End()
    requires Holds(heap.ram[..], start, elf)
    requires EHDR_SIZE <= |elf| && (HasMagic(elf) ==> WellFormed(elf, size))
    modifies heap, heap.ram
    ensures heap.Valid() && table.Valid()
    ensures !HasMagic(elf) || FirstFit(old(heap.chunks), size) == |old(heap.chunks)| ==>
              entry == 0 && exec == 0 && heap.chunks == old(heap.chunks) && heap.ram[..] == old(heap.ram[..])
    ensures HasMagic(elf) && FirstFit(old(heap.chunks), size) < |old(heap.chunks)| ==>
              && MallocStep(State(old(heap.ram[..]), old(heap.chunks)), size, exec,
                            State(heap.ram[..], heap.chunks), heap.start, heap.start + heap.size)
              && exec + size <= heap.ram.Length
              && heap.ram[exec..exec + size] == Image(elf, size, table.Entries())
              && entry == EntryOf(elf, FindSection(elf, SHT_SYMTAB, 0), MAIN, exec, 0)
  {
    hide Holds, Place, WellFormed, Image, EntryOf, MallocStep, Linked, Tiles, Coalesced, Live, FirstFit;
    ghost var cs, m, lo, hi := heap.chunks, heap.ram[..], heap.start, heap.start + heap.size;
    LiveNonempty(cs, home);
    var magic := IsElfImage(heap.ram, start, elf);
    if !magic {
      return 0, 0;
    }
    exec := heap.Malloc(size);
    ghost var m1, cs1 := heap.ram[..], heap.chunks;
    FreshBuffer(m, cs, size, exec, m1, cs1, lo, hi, home, start, elf);
    if exec == 0 {
      return 0, 0;
    }
    entry := BuildImage(heap.ram, start, elf, exec, size, table);
    KernelHeap.GrantFilled(m, cs, size, exec, m1, cs1, lo, hi, Image(elf, size, table.Entries()));
  }

  lemma LiveNonempty(cs: seq<Chunk>, c: Chunk)
    requires c in Live(cs)
    ensures cs != []
  {
  }

  /** A buffer just allocated lies in the heap, apart from the file, which is still intact. */
  lemma FreshBuffer(m: Memory, cs: seq<Chunk>, n: nat, p: nat, m1: Memory, cs1: seq<Chunk>, lo: nat, hi: nat,
                    home: Chunk, start: nat, elf: Memory)
    requires Invariant(State(m, cs), lo, hi) && MallocStep(State(m, cs), n, p, State(m1, cs1), lo, hi)
    requires home in Live(cs) && home.Payload() <= start && start + |elf| <= home.End() && Holds(m, start, elf)
    ensures p == 0 <==> FirstFit(cs, n) == |cs|
    ensures p == 0 ==> m1 == m && cs1 == cs
    ensures p != 0 ==> Holds(m1, start, elf) && p + n <= |m1| && (start + |elf| <= p || p + n <= start)
  {
    hide Linked, Coalesced, AfterMalloc;
    var i := FirstFit(cs, n);
    if i < |cs| {
      Disjoint(cs, lo, hi);
      MallocTiles(cs, lo, hi, n, i);
      KernelHeap.PayloadRoom(cs, lo, hi, n, i);
      ChunksApart(cs1, lo, hi, Granted(cs[i], n), home);
      assert forall a :: start <= a < start + |elf| ==> m1[a] == m[a];
      assert m1[start..start + |elf|] == m[start..start + |elf|];
    }
  }

  method IsElfImage(ram: array<byte>, start: nat, ghost elf: Memory) returns (r: bool)
    requires Holds(ram[..], start, elf) && |elf| >= 4
    ensures r == HasMagic(elf)
  {
    SubSlice(ram[..], start, |elf|, 0, 4);
    var id := ram[start..start + 4];
    assert elf[0..4] == id;
    assert elf[0] == id[0] && elf[1] == id[1] && elf[2] == id[2] && elf[3] == id[3];
    r := ram[start] == 0x7F && ram[start + 1] == 0x45 && ram[start + 2] == 0x4C && ram[start + 3] == 0x46;
  }
}
