/** Mapping and unmapping of pages, and the first tables. */
module Paging {
  import opened Bytes
  import opened BlockBits
  import opened MemOps
  import opened Masks
  import opened PageBits
  import T = PageTables
  import opened HeapLayout
  import opened HeapLinks
  import opened HeapRuns
  import opened PagingSteps
  import KernelHeap = Heap

  method LoadEntry(ram: array<byte>, a: nat) returns (e: Entry)
    requires a + 4 <= ram.Length
    ensures e == T.EntryAt(ram[..], a)
  {
    var w := Load32(ram, a);
    e := w as bv32;
  }

  method StoreEntry(ram: array<byte>, a: nat, e: Entry)
    requires a + 4 <= ram.Length
    modifies ram
    ensures ram[..] == T.PutEntry(old(ram[..]), a, e)
  {
    FromWord(e);
    Store32(ram, a, e as int);
  }

  /** `PD_INDEX` and `PT_INDEX`. */
  function PdIndex(virtual: nat): (i: nat)
    requires virtual < WORD
    ensures i < 1024 && i == virtual / PAGE / 1024
  {
    virtual / 0x40_0000
  }

  function PtIndex(virtual: nat): (j: nat)
    ensures j < 1024
  {
    virtual / PAGE % 1024
  }

  // ----- the pager -----

  class Pager {
    const heap: KernelHeap.Heap
    var directory: nat
    ghost var held: set<Chunk>

    ghost function Sys(): System
      reads this, heap, heap.ram
    {
      System(heap.ram[..], heap.chunks, held)
    }

    ghost predicate Valid()
      reads this, heap, heap.ram
    {
      && heap.Valid() && heap.size >= HEADER
      && Good(Sys(), directory, heap.start, heap.start + heap.size)
    }

    /** The directory lies in memory. */
    ghost predicate InMemory()
      reads this, heap, heap.ram
    {
      directory + PAGE <= heap.ram.Length <= WORD
    }

    /** So does the word that the walk for page `v` ends in. */
    ghost predicate Reaches(v: nat)
      reads this, heap, heap.ram
    {
      InMemory() && v < 0x10_0000 && LeafPos(heap.ram[..], directory, v) + 4 <= heap.ram.Length
    }

    /** `set_page_directory`. */
    constructor (heap: KernelHeap.Heap, directory: nat, ghost held: set<Chunk>)
      ensures this.heap == heap && this.directory == directory && this.held == held
    {
      this.heap := heap;
      this.directory := directory;
      this.held := held;
    }

    /** The map from page numbers to entries that the tables stand for. */
    ghost function Space(): T.Space
      reads this, heap, heap.ram
      requires Valid()
    {
      T.SpaceOf(heap.ram[..], directory)
    }

    /** The page for a new table, from the heap and zeroed; `m1` is memory before the zeroing. */
    method NewTable(ghost i: nat) returns (t: nat, ghost m1: Memory)
      requires Valid() && i < 1024 && FirstFit(heap.chunks, TABLE_REQUEST) < |heap.chunks|
      modifies this`held, heap, heap.ram
      ensures Valid() && Linked(m1, heap.chunks)
      ensures var cs, f := old(heap.chunks), FirstFit(old(heap.chunks), TABLE_REQUEST);
              && t == KernelHeap.AlignedAt(cs[f].Payload(), PAGE) && t % PAGE == 0 && t + PAGE <= |m1|
              && heap.chunks == AfterMalloc(cs, TABLE_REQUEST, f)
              && held == old(held) + {Granted(cs[f], TABLE_REQUEST)}
              && Isolated(old(heap.ram[..]), m1, heap.start, heap.start + heap.size, Live(cs))
              && heap.ram[..] == Filled(m1, t, 0, PAGE)
      ensures T.EntryAt(heap.ram[..], T.EntryPos(directory, i)) ==
              T.EntryAt(old(heap.ram[..]), T.EntryPos(directory, i))
    {
      hide T.EntryAt, Isolated, AfterMalloc, T.Paging, Tiles, Coalesced, Linked, Live, Filled, EmptyTable,
        T.Safe, LeavesKept;
      hide KernelHeap.AlignedAt, T.HasTable;
      ghost var s, lo, hi := Sys(), heap.start, heap.start + heap.size;
      ghost var f := FirstFit(s.cs, TABLE_REQUEST);
      t := heap.MallocAligned(PAGE, PAGE, f);
      m1 := heap.ram[..];
      PageFromHeap(s, directory, lo, hi, m1);
      Memset(heap.ram, t, 0, PAGE);
      held := held + {Granted(s.cs[f], TABLE_REQUEST)};
      IsolatedLess(s.m, heap.ram[..], lo, hi, Live(s.cs), s.held);
      SameSlot(s.m, heap.ram[..], directory, s.held, lo, hi, i);
    }

    /** `map_page` up to the table: install a zeroed one if the slot has none. */
    method EnsureTable(i: nat)
      requires InMemory() && i < 1024
      requires
        || T.HasTable(heap.ram[..], directory, i)
        || (Valid() && FirstFit(heap.chunks, TABLE_REQUEST) < |heap.chunks|)
      modifies this`held, heap, heap.ram
      ensures T.HasTable(heap.ram[..], directory, i)
      ensures old(T.HasTable(heap.ram[..], directory, i)) ==> Sys() == old(Sys())
      ensures !old(T.HasTable(heap.ram[..], directory, i)) ==>
                && And(T.EntryAt(heap.ram[..], directory + 4 * i), 0xFFF) ==
                   Or(And(T.EntryAt(old(heap.ram[..]), directory + 4 * i), 0xFFF), 0x3)
      ensures old(Valid()) ==> Valid() && LeavesKept(old(heap.ram[..]), heap.ram[..], directory)
      ensures TableStep(old(Sys()), directory, heap.start, heap.start + heap.size, i, Sys())
      ensures old(Valid()) ==>
                && Live(old(heap.chunks)) <= Live(heap.chunks) && Clients(Sys()) == Clients(old(Sys()))
                && KeptBytes(old(heap.ram[..]), heap.ram[..], Live(old(heap.chunks)))
    {
      hide T.EntryAt, EmptyTable, FrameOf, T.PutEntry, T.LeafOf, SetFrame, Or, Linked, Tiles, Coalesced, Live;
      hide KeptBytes, LeavesKept, T.Paging, AfterMalloc, Isolated, KernelHeap.AlignedAt, Filled;
      var ram := heap.ram;
      ghost var s, lo, hi := Sys(), heap.start, heap.start + heap.size;
      ghost var valid := Valid();
      var a := T.EntryPos(directory, i);
      var e := LoadEntry(ram, a);
      if And(e, PRESENT) != PRESENT {
        var table;
        ghost var m1;
        table, m1 := NewTable(i);
        ghost var m := ram[..];
        InRange(Sys(), directory, lo, hi);
        StoreEntry(ram, a, Or(e, Or(PRESENT, RW)));
        e := LoadEntry(ram, a);
        StoreEntry(ram, a, SetFrame(e, table as bv32));
        PutTwice(m, a, e, SetFrame(e, table as bv32));
        assert GrantedTable(s, directory, lo, hi, i, m1, Sys());
        TableAttributes(T.EntryAt(s.m, a), table);
      }
      if valid {
        TableRefines(s, directory, lo, hi, i, Sys());
      }
    }

    /** The end of `map_page`: two stores into the page's entry. */
    method StoreLeaf(physical: nat, virtual: nat, flags: Entry)
      requires virtual < WORD && physical < WORD && Reaches(virtual / PAGE)
      modifies heap.ram
      ensures Stored(old(Sys()), directory, virtual / PAGE, physical, flags, Sys())
    {
      hide T.EntryAt, FrameOf, T.PutEntry, T.LeafOf, SetFrame, Or, Invariant, Live, Present, KeptBytes, T.Paging;
      hide LeafPos;
      ghost var s, lo, hi, v := Sys(), heap.start, heap.start + heap.size, virtual / PAGE;
      var ram := heap.ram;
      var pde := LoadEntry(ram, T.EntryPos(directory, PdIndex(virtual)));
      var a := T.EntryPos(FrameOf(pde), PtIndex(virtual));
      WalkEnds(s.m, directory, v, pde);
      var word := LoadEntry(ram, a);
      StoreEntry(ram, a, Or(word, Or(flags, PRESENT)));
      word := LoadEntry(ram, a);
      StoreEntry(ram, a, SetFrame(word, physical as bv32));
      PutTwice(s.m, a, word, SetFrame(word, physical as bv32));
    }

    /** `map_page`, for every address and all flags, with any directory that has a table for the page; without one,
        tables have to be well formed and the heap to have room for one more. The page points to the frame
        asked for exactly when this has bit 31 or neither the flags nor the entry had it: bit 31 of an entry is
        never cleared again. */
    method MapPage(physical: nat, virtual: nat, flags: Entry) returns (ghost e: Entry)
      requires InMemory() && virtual < WORD && physical < WORD
      requires
        || (T.HasTable(heap.ram[..], directory, PdIndex(virtual)) && Reaches(virtual / PAGE))
        || (Valid() && FirstFit(heap.chunks, TABLE_REQUEST) < |heap.chunks|)
      modifies this`held, heap, heap.ram
      ensures MapStep(old(Sys()), directory, heap.start, heap.start + heap.size, virtual / PAGE, physical, flags, Sys())
      ensures old(T.HasTable(heap.ram[..], directory, PdIndex(virtual))) ==> heap.chunks == old(heap.chunks)
      ensures e == MapWord(T.LeafOf(old(heap.ram[..]), directory, virtual / PAGE), physical, flags) && Present(e)
      ensures And(e, 0xFFF) == LowBits(T.LeafOf(old(heap.ram[..]), directory, virtual / PAGE), physical, flags)
      ensures var stuck := Bit31(T.LeafOf(old(heap.ram[..]), directory, virtual / PAGE)) || Bit31(flags);
              && FrameOf(e) == Shown(stuck, physical)
              && (FrameOf(e) == RoundDown(physical, PAGE) <==> (stuck ==> physical >= 0x8000_0000))
      ensures old(Valid()) ==>
                && Valid() && Space() == old(Space())[virtual / PAGE := e]
                && Live(old(heap.chunks)) <= Live(heap.chunks) && Clients(Sys()) == Clients(old(Sys()))
                && KeptBytes(old(heap.ram[..]), heap.ram[..], Clients(old(Sys())))
    {
      hide T.EntryAt, FrameOf, T.LeafOf, MapWord, Or, And, Linked, Tiles, Coalesced, Live, Present, Stored;
      hide KeptBytes, LeavesKept, T.Paging, Clients, T.SpaceOf, T.TableOf, T.HasTable, GrantedTable;
      hide TablesGrow, Bit31, Shown, LowBits, LeafPos;
      ghost var s, lo, hi, v := Sys(), heap.start, heap.start + heap.size, virtual / PAGE;
      ghost var valid := Valid();
      EnsureTable(PdIndex(virtual));
      ghost var s1 := Sys();
      if valid {
        LeafInRange(s1, directory, lo, hi, v);
      }
      StoreLeaf(physical, virtual, flags);
      e := MapWord(T.LeafOf(s.m, directory, v), physical, flags);
      assert TableStep(s, directory, lo, hi, v / 1024, s1);
      StoredChunks(s1, directory, v, physical, flags, Sys());
      MappedEntry(T.LeafOf(s.m, directory, v), physical, flags);
      if valid {
        MapRefines(s, directory, lo, hi, v, physical, flags, Sys());
        T.SpaceUpdate(s.m, heap.ram[..], directory, v, e);
      }
    }

    /** `unmap_page`, wherever the walk ends in memory. `get_page` does not look at the present bit of the
        directory: without a table in well-formed tables the entry cleared is a word of page 0. Memory changes
        exactly when the entry has a frame below 2^31 or the present bit. */
    method UnmapPage(virtual: nat)
      requires virtual < WORD && (Valid() || Reaches(virtual / PAGE))
      modifies heap.ram
      ensures InMemory() && UnmapStep(old(Sys()), directory, virtual / PAGE, Sys())
      ensures var m, a := old(heap.ram[..]), LeafPos(old(heap.ram[..]), directory, virtual / PAGE);
              && a + 4 <= |m| && heap.ram[..] == T.PutEntry(m, a, UnmapWord(T.EntryAt(m, a)))
              && (heap.ram[..] == m <==> And(T.EntryAt(m, a), 0x7FFF_F001) == 0)
              && (old(Valid()) && !T.HasTable(m, directory, PdIndex(virtual)) ==> a == 4 * PtIndex(virtual))
      ensures old(Valid()) ==>
                && Valid() && Space() == old(Space()) - {virtual / PAGE}
                && KeptBytes(old(heap.ram[..]), heap.ram[..], Clients(old(Sys())))
    {
      hide T.EntryAt, FrameOf, T.PutEntry, T.LeafOf, UnmapWord, And, Live, Present, KeptBytes, T.Paging;
      hide LeafPos, T.SpaceOf, T.TableOf, Tiles, Coalesced, Linked;
      ghost var s, lo, hi, v := Sys(), heap.start, heap.start + heap.size, virtual / PAGE;
      ghost var valid := Valid();
      if valid {
        InRange(s, directory, lo, hi);
        LeafInRange(s, directory, lo, hi, v);
      }
      ClearLeaf(virtual);
      ghost var w := T.EntryAt(s.m, LeafPos(s.m, directory, v));
      UnmapChanges(w);
      PutChanges(s.m, LeafPos(s.m, directory, v), UnmapWord(w));
      if valid {
        UnmapRefines(s, directory, lo, hi, v, Sys());
        ClearedEntry(T.LeafOf(s.m, directory, v));
        T.SpaceUpdate(s.m, heap.ram[..], directory, v, UnmapWord(T.LeafOf(s.m, directory, v)));
      }
    }

    /** The two stores of `unmap_page`. */
    method ClearLeaf(virtual: nat)
      requires virtual < WORD && Reaches(virtual / PAGE)
      modifies heap.ram
      ensures UnmapStep(old(Sys()), directory, virtual / PAGE, Sys())
    {
      hide T.EntryAt, FrameOf, T.PutEntry, T.LeafOf, SetFrame, AndNot, Invariant, Live, Present, T.Paging;
      hide LeafPos;
      ghost var s, lo, hi, v := Sys(), heap.start, heap.start + heap.size, virtual / PAGE;
      var ram := heap.ram;
      var pde := LoadEntry(ram, T.EntryPos(directory, PdIndex(virtual)));
      var a := T.EntryPos(FrameOf(pde), PtIndex(virtual));
      WalkEnds(s.m, directory, v, pde);
      var word := LoadEntry(ram, a);
      StoreEntry(ram, a, SetFrame(word, 0));
      word := LoadEntry(ram, a);
      StoreEntry(ram, a, AndNot(word, PRESENT));
      PutTwice(s.m, a, SetFrame(T.EntryAt(s.m, a), 0), AndNot(word, PRESENT));
    }
  }

  lemma StoredChunks(s: System, pd: nat, v: nat, physical: nat, flags: Entry, s': System)
    requires v < 0x10_0000 && physical < WORD && Stored(s, pd, v, physical, flags, s')
    ensures s'.cs == s.cs && s'.held == s.held
  {
  }

  lemma LeafInRange(s: System, pd: nat, lo: nat, hi: nat, v: nat)
    requires Good(s, pd, lo, hi) && v < 0x10_0000
    ensures LeafPos(s.m, pd, v) + 4 <= |s.m|
  {
    hide T.EntryAt, FrameOf, Present, Linked, Tiles, Coalesced, T.Safe;
    assert T.SlotOk(s.m, pd, s.held, lo, hi, v / 1024);
  }

  lemma WalkEnds(m: Memory, pd: nat, v: nat, pde: Entry)
    requires pd + PAGE <= |m| && v < 0x10_0000 && pde == T.EntryAt(m, T.EntryPos(pd, v / 1024))
    ensures FrameOf(pde) + 4 * (v % 1024) == LeafPos(m, pd, v)
  {
  }

  // ----- the first tables -----

  /** `m'` differs from `m` in the page at `t` only. */
  ghost predicate OnlyPage(m: Memory, m': Memory, t: nat) {
    |m| == |m'| && forall a :: 0 <= a < |m| && !(t <= a < t + PAGE) ==> m'[a] == m[a]
  }

  /** Entry `i` of the identity table. */
  function IdentityEntry(i: nat): Entry
    requires i < 1024
  {
    SetFrame(Or(Or(0, PRESENT), RW), (PAGE * i) as bv32)
  }

  method FillDirectory(ram: array<byte>, d: nat)
    requires d + PAGE <= ram.Length
    modifies ram
    ensures OnlyPage(old(ram[..]), ram[..], d)
    ensures forall i :: 0 <= i < 1024 ==> T.EntryAt(ram[..], T.EntryPos(d, i)) == RW
  {
    hide T.EntryAt, T.PutEntry;
    ghost var m := ram[..];
    Memset(ram, d, 0, PAGE);
    var i := 0;
    while i < 1024
      invariant 0 <= i <= 1024 && OnlyPage(m, ram[..], d)
      invariant forall k :: 0 <= k < i ==> T.EntryAt(ram[..], T.EntryPos(d, k)) == RW
    {
      StoreEntry(ram, T.EntryPos(d, i), RW);
      i := i + 1;
    }
  }

  method IdentityPage(frame: nat, ghost i: nat) returns (page: Entry)
    requires i < 1024 && frame == PAGE * i
    ensures page == IdentityEntry(i)
  {
    page := Or(0, PRESENT);
    page := Or(page, RW);
    page := SetFrame(page, frame as bv32);
  }

  /** The fill loop of `paging_enable`. */
  method FillIdentity(ram: array<byte>, t: nat)
    requires t + PAGE <= ram.Length
    modifies ram
    ensures OnlyPage(old(ram[..]), ram[..], t)
    ensures forall i :: 0 <= i < 1024 ==> T.EntryAt(ram[..], T.EntryPos(t, i)) == IdentityEntry(i)
  {
    hide T.EntryAt, T.PutEntry, IdentityEntry;
    ghost var m := ram[..];
    Memset(ram, t, 0, PAGE);
    var i, frame, virtual := 0, 0, 0;
    while i < 1024
      invariant 0 <= i <= 1024 && frame == virtual == PAGE * i && OnlyPage(m, ram[..], t)
      invariant forall k :: 0 <= k < i ==> T.EntryAt(ram[..], T.EntryPos(t, k)) == IdentityEntry(k)
    {
      var page := IdentityPage(frame, i);
      assert PtIndex(virtual) == i;
      StoreEntry(ram, T.EntryPos(t, PtIndex(virtual)), page);
      i, frame, virtual := i + 1, frame + PAGE, virtual + PAGE;
    }
  }

  /** What the fill loops leave, for any two pages: a directory of empty slots but for slot 0, which holds
      the identity table. If both are the same page, the table has replaced the directory. */
  ghost predicate FirstTables(m: Memory, m': Memory, d: nat, t: nat) {
    && |m'| == |m| <= WORD && d + PAGE <= |m| && t + PAGE <= |m|
    && (forall a :: 0 <= a < |m| && !(d <= a < d + PAGE) && !(t <= a < t + PAGE) ==> m'[a] == m[a])
    && (forall i :: 1 <= i < 1024 ==> T.EntryAt(m', T.EntryPos(t, i)) == IdentityEntry(i))
    && (d != t ==>
          && T.EntryAt(m', T.EntryPos(t, 0)) == IdentityEntry(0)
          && forall i :: 1 <= i < 1024 ==> T.EntryAt(m', T.EntryPos(d, i)) == RW)
    && T.EntryAt(m', T.EntryPos(d, 0)) == FirstWord(if d == t then IdentityEntry(0) else RW, t)
  }

  /** Slot 0 of the directory, given what the fill loops left in it. */
  function FirstWord(w: Entry, t: nat): Entry
    requires t < WORD
  {
    SetFrame(Or(Or(w, PRESENT), RW), t as bv32)
  }

  /** Pages that can be directory and first table: different ones, neither page 0 nor in the heap. */
  predicate CanStart(d: nat, t: nat, lo: nat, hi: nat) {
    && d != t && PAGE <= d && PAGE <= t
    && (d + PAGE <= lo || hi <= d) && (t + PAGE <= lo || hi <= t)
  }

  lemma IdentityWords(i: nat)
    requires i < 1024
    ensures Present(IdentityEntry(i)) && !Bit31(IdentityEntry(i)) && FrameOf(IdentityEntry(i)) == PAGE * i
    ensures And(IdentityEntry(i), 0xFFF) == Or(PRESENT, RW)
  {
    IdentityWord(PAGE * i);
  }

  lemma IdentityWord(a: nat)
    requires a < WORD && a % PAGE == 0
    ensures var e := SetFrame(Or(Or(0, PRESENT), RW), a as bv32);
            Present(e) && Bit31(e) == (a >= 0x8000_0000) && FrameOf(e) == a && And(e, 0xFFF) == Or(PRESENT, RW)
  {
    hide SetFrame, FrameOf, Bit31, Present, Or, And;
    SmallWords();
    PointedEntry(0, Or(Or(0, PRESENT), RW), a);
    WholePage(a);
  }

  lemma SmallWords()
    ensures !Bit31(0) && !Bit31(RW) && !Present(RW) && !Present(0)
    ensures And(Or(Or(0, PRESENT), RW), 0xFFF) == Or(PRESENT, RW) && And(0, 0xFFF) == 0
    ensures Or(0, Or(PRESENT, RW)) == Or(PRESENT, RW)
    ensures Present(Or(Or(0, PRESENT), RW)) && !Bit31(Or(Or(0, PRESENT), RW))
    ensures Or(0, Or(Or(0, PRESENT), RW)) == Or(Or(0, PRESENT), RW)
    ensures FrameOf(RW) == 0
  {
  }

  /** The entry that slot 0 gets. */
  lemma FirstSlot(w: Entry, t: nat)
    requires !Bit31(w) && t < WORD && t % PAGE == 0
    ensures Present(FirstWord(w, t)) && FrameOf(FirstWord(w, t)) == t
  {
    hide SetFrame, FrameOf, Bit31, Present, And, Or;
    Attributes(w);
    PointedEntry(w, Or(PRESENT, RW), t);
    WholePage(t);
  }

  lemma Attributes(w: Entry)
    ensures Or(Or(w, PRESENT), RW) == Or(w, Or(PRESENT, RW))
    ensures Present(Or(PRESENT, RW)) && !Bit31(Or(PRESENT, RW))
  {
  }

  lemma FirstSlotHas(m: Memory, m': Memory, d: nat, t: nat)
    requires FirstTables(m, m', d, t) && t % PAGE == 0
    ensures T.HasTable(m', d, 0) && T.TableOf(m', d, 0) == t
  {
    hide T.EntryAt, FirstWord, FrameOf, Bit31, Present, IdentityEntry;
    SmallWords();
    IdentityWords(0);
    FirstSlot(if d == t then IdentityEntry(0) else RW, t);
  }

  /** The words of the first tables: slot 0 of the directory present, writable and for the table, the other
      slots writable only, the entries of the table present, writable and each for its own page. */
  lemma FirstWords(m: Memory, m': Memory, d: nat, t: nat)
    requires FirstTables(m, m', d, t) && t % 4096 == 0
    ensures d + 4096 <= |m'| && t + 4096 <= |m'|
    ensures And(T.EntryAt(m', d), 0xFFF) == 0x3 && FrameOf(T.EntryAt(m', d)) == t
    ensures d != t ==> forall i :: 1 <= i < 1024 ==> T.EntryAt(m', d + 4 * i) == 0x2
    ensures forall i :: 1 <= i < 1024 || (i == 0 && d != t) ==>
              var e := T.EntryAt(m', t + 4 * i); FrameOf(e) == 4096 * i && And(e, 0xFFF) == 0x3
  {
    hide T.EntryAt, FirstWord, FrameOf, Bit31, Present, IdentityEntry, And, Or;
    SmallWords();
    Three();
    IdentityWords(0);
    FirstSlot(if d == t then IdentityEntry(0) else RW, t);
    FirstAttributes(if d == t then IdentityEntry(0) else RW, t);
    forall i | 1 <= i < 1024 || (i == 0 && d != t)
      ensures var e := T.EntryAt(m', t + 4 * i); FrameOf(e) == 4096 * i && And(e, 0xFFF) == 0x3
    {
      assert T.EntryAt(m', T.EntryPos(t, i)) == IdentityEntry(i);
      IdentityWords(i);
    }
    forall i | 1 <= i < 1024 && d != t ensures T.EntryAt(m', d + 4 * i) == 0x2 {
      assert T.EntryAt(m', T.EntryPos(d, i)) == RW;
    }
  }

  lemma FirstAttributes(w: Entry, t: nat)
    requires t < WORD && t % PAGE == 0 && (And(w, 0xFFF) == Or(PRESENT, RW) || w == RW)
    ensures And(FirstWord(w, t), 0xFFF) == 0x3
  {
    hide And, Or, SetFrame, FrameOf;
    Attributes(w);
    PageAddress(t);
    SetFrameKeeps(Or(w, Or(PRESENT, RW)), t as bv32);
    OrAttributes(w, Or(PRESENT, RW));
    OrZero(Or(And(w, 0xFFF), And(Or(PRESENT, RW), 0xFFF)));
    ThreeOnTop();
  }

  lemma ThreeOnTop()
    ensures Or(Or(PRESENT, RW), And(Or(PRESENT, RW), 0xFFF)) == 0x3
    ensures Or(And(RW, 0xFFF), And(Or(PRESENT, RW), 0xFFF)) == 0x3
  {
  }

  /** The fill loops give well-formed tables exactly for such pages. */
  lemma FirstPaging(m: Memory, m': Memory, d: nat, t: nat, lo: nat, hi: nat)
    requires FirstTables(m, m', d, t) && d % PAGE == 0 && t % PAGE == 0
    ensures T.Paging(m', d, {}, lo, hi) <==> CanStart(d, t, lo, hi)
  {
    hide T.Paging;
    if CanStart(d, t, lo, hi) {
      StartsWell(m, m', d, t, lo, hi);
    } else if T.Paging(m', d, {}, lo, hi) {
      StartNeeds(m, m', d, t, lo, hi);
    }
  }

  lemma StartsWell(m: Memory, m': Memory, d: nat, t: nat, lo: nat, hi: nat)
    requires FirstTables(m, m', d, t) && t % PAGE == 0 && d % PAGE == 0 && CanStart(d, t, lo, hi)
    ensures T.Paging(m', d, {}, lo, hi)
  {
    hide T.EntryAt, Present, FrameOf, FirstWord, IdentityEntry;
    FirstSlotHas(m, m', d, t);
    SmallWords();
    forall i | 0 <= i < 1024 ensures T.SlotOk(m', d, {}, lo, hi, i) {
    }
  }

  lemma StartNeeds(m: Memory, m': Memory, d: nat, t: nat, lo: nat, hi: nat)
    requires FirstTables(m, m', d, t) && t % PAGE == 0 && T.Paging(m', d, {}, lo, hi)
    ensures CanStart(d, t, lo, hi)
  {
    hide T.EntryAt, Present, FrameOf, FirstWord, IdentityEntry;
    FirstSlotHas(m, m', d, t);
    assert T.SlotOk(m', d, {}, lo, hi, 0);
  }

  /** On such pages exactly the first 1024 pages have an entry, each for itself. */
  lemma IdentityLeaves(m: Memory, m': Memory, d: nat, t: nat)
    requires FirstTables(m, m', d, t) && d != t && t % PAGE == 0
    ensures forall v :: 0 <= v < 0x10_0000 ==> T.LeafOf(m', d, v) == if v < 1024 then IdentityEntry(v) else 0
  {
    hide T.EntryAt, Present, FrameOf, Bit31, FirstWord, IdentityEntry;
    FirstSlotHas(m, m', d, t);
    SmallWords();
    forall v | 0 <= v < 0x10_0000 ensures T.LeafOf(m', d, v) == if v < 1024 then IdentityEntry(v) else 0 {
      assert v < 1024 <==> v / 1024 == 0;
    }
  }

  lemma IdentitySpace(m: Memory, d: nat)
    requires d + PAGE <= |m|
    requires forall v :: 0 <= v < 0x10_0000 ==> T.LeafOf(m, d, v) == if v < 1024 then IdentityEntry(v) else 0
    ensures forall v :: v in T.SpaceOf(m, d) <==> 0 <= v < 1024
    ensures forall v :: 0 <= v < 1024 ==> FrameOf(T.SpaceOf(m, d)[v]) == PAGE * v
                                          && And(T.SpaceOf(m, d)[v], 0xFFF) == Or(PRESENT, RW)
  {
    hide T.LeafOf, IdentityEntry, FrameOf, Present, T.Translate, Or, And;
    SmallWords();
    forall v | 0 <= v < 0x10_0000
      ensures v in T.SpaceOf(m, d) <==> v < 1024
      ensures v < 1024 ==> FrameOf(T.SpaceOf(m, d)[v]) == PAGE * v && And(T.SpaceOf(m, d)[v], 0xFFF) == Or(PRESENT, RW)
    {
      T.InSpace(m, d, v);
      if v < 1024 {
        IdentityWords(v);
      }
    }
  }

  /** What the kernel builds: the block manager has not been initialised, both requests for blocks yield 0,
      and directory and table are page 0. Every slot has a table, the one in slot `i` at page `i`; so
      `map_page` never installs one, and the tables of the upper half lie in the heap. The first 1024 pages
      are still mapped to themselves. */
  lemma BootAtZero(m: Memory, m': Memory)
    requires FirstTables(m, m', 0, 0)
    ensures !CanStart(0, 0, 0x20_0000, 0x40_0000)
    ensures forall i :: 0 <= i < 1024 ==> T.HasTable(m', 0, i) && T.TableOf(m', 0, i) == PAGE * i
    ensures forall i :: 512 <= i < 1024 ==> 0x20_0000 <= T.TableOf(m', 0, i) && T.TableOf(m', 0, i) + PAGE <= 0x40_0000
    ensures forall v :: 0 <= v < 1024 ==> Present(T.LeafOf(m', 0, v)) && FrameOf(T.LeafOf(m', 0, v)) == PAGE * v
  {
    hide T.EntryAt, Present, FrameOf, Bit31, FirstWord, IdentityEntry;
    FirstSlotHas(m, m', 0, 0);
    forall i | 0 <= i < 1024 ensures T.HasTable(m', 0, i) && T.TableOf(m', 0, i) == PAGE * i {
      IdentityWords(i);
    }
    forall v | 0 <= v < 1024 ensures Present(T.LeafOf(m', 0, v)) && FrameOf(T.LeafOf(m', 0, v)) == PAGE * v {
      assert T.LeafOf(m', 0, v) == T.EntryAt(m', T.EntryPos(0, v));
      assert T.HasTable(m', 0, v) && T.TableOf(m', 0, v) == PAGE * v;
    }
  }

  /** The stores of `paging_enable`. */
  method FillFirst(ram: array<byte>, d: nat, t: nat)
    requires d % PAGE == 0 && t % PAGE == 0 && d + PAGE <= ram.Length <= WORD && t + PAGE <= ram.Length
    modifies ram
    ensures FirstTables(old(ram[..]), ram[..], d, t)
  {
    hide T.EntryAt, T.PutEntry, SetFrame, Or, IdentityEntry;
    ghost var m := ram[..];
    FillDirectory(ram, d);
    ghost var m1 := ram[..];
    FillIdentity(ram, t);
    ghost var m2 := ram[..];
    if d != t {
      PageKept(m1, m2, t, d);
    }
    var e := LoadEntry(ram, T.EntryPos(d, 0));
    e := Or(Or(e, PRESENT), RW);
    e := SetFrame(e, t as bv32);
    StoreEntry(ram, T.EntryPos(d, 0), e);
  }

  /** `paging_enable`, given what `alloc_blocks` delivered for the directory and the first table. */
  method PagingEnable(heap: KernelHeap.Heap, d: nat, t: nat) returns (pager: Pager)
    requires heap.Valid() && heap.size >= HEADER && 2 * PAGE <= heap.start
    requires d % PAGE == 0 && t % PAGE == 0 && d + PAGE <= heap.ram.Length && t + PAGE <= heap.ram.Length
    modifies heap.ram
    ensures fresh(pager) && pager.heap == heap && pager.directory == d && pager.held == {}
    ensures FirstTables(old(heap.ram[..]), heap.ram[..], d, t)
    ensures And(T.EntryAt(heap.ram[..], d), 0xFFF) == 0x3 && FrameOf(T.EntryAt(heap.ram[..], d)) == t
    ensures d != t ==> forall i :: 1 <= i < 1024 ==> T.EntryAt(heap.ram[..], d + 4 * i) == 0x2
    ensures forall i :: 1 <= i < 1024 || (i == 0 && d != t) ==>
              var e := T.EntryAt(heap.ram[..], t + 4 * i); FrameOf(e) == 4096 * i && And(e, 0xFFF) == 0x3
    ensures pager.Valid() <==> CanStart(d, t, heap.start, heap.start + heap.size)
    ensures pager.Valid() ==>
              && (forall v :: v in pager.Space() <==> 0 <= v < 1024)
              && (forall v :: 0 <= v < 1024 ==> FrameOf(pager.Space()[v]) == PAGE * v
                                                && And(pager.Space()[v], 0xFFF) == Or(PRESENT, RW))
              && KeptBytes(old(heap.ram[..]), heap.ram[..], Live(heap.chunks))
  {
    hide T.EntryAt, T.PutEntry, SetFrame, Or, And, IdentityEntry, Linked, Tiles, Coalesced, FrameOf, Present, T.Paging;
    hide T.SpaceOf, T.LeafOf, FirstTables, KeptBytes;
    ghost var m, lo, hi := heap.ram[..], heap.start, heap.start + heap.size;
    FillFirst(heap.ram, d, t);
    FirstWords(m, heap.ram[..], d, t);
    FirstPaging(m, heap.ram[..], d, t, lo, hi);
    pager := new Pager(heap, d, {});
    if CanStart(d, t, lo, hi) {
      FirstOutside(m, heap.ram[..], d, t, heap.chunks, lo, hi);
      IdentityLeaves(m, heap.ram[..], d, t);
      IdentitySpace(heap.ram[..], d);
    }
  }

  lemma PageKept(m: Memory, m': Memory, t: nat, d: nat)
    requires OnlyPage(m, m', t) && d + PAGE <= |m| && T.ApartPages(t, d)
    ensures forall i :: 0 <= i < 1024 ==> T.EntryAt(m', T.EntryPos(d, i)) == T.EntryAt(m, T.EntryPos(d, i))
  {
    forall i | 0 <= i < 1024 ensures T.EntryAt(m', T.EntryPos(d, i)) == T.EntryAt(m, T.EntryPos(d, i)) {
      T.SameEntry(m, m', d, i);
    }
  }

  /** Outside the heap the first tables disturb nothing in it. */
  lemma FirstOutside(m: Memory, m': Memory, d: nat, t: nat, cs: seq<Chunk>, lo: nat, hi: nat)
    requires FirstTables(m, m', d, t) && CanStart(d, t, lo, hi) && Tiles(cs, lo, hi) && Linked(m, cs) && hi <= |m|
    ensures d + PAGE <= |m'| && Linked(m', cs) && KeptBytes(m, m', Live(cs))
  {
    hide HeaderAt, T.EntryAt, IdentityEntry, SetFrame, Or;
    Disjoint(cs, lo, hi);
    LinkedFrame(m, m', cs);
  }
}
