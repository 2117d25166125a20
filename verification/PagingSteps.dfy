/** What mapping and unmapping store into memory, and what these stores mean: the two-level tables refine
    one leaf entry for every page, next to a heap whose other blocks are left alone. */
module PagingSteps {
  import opened Bytes
  import opened BlockBits
  import opened MemOps
  import opened PageBits
  import T = PageTables
  import opened HeapLayout
  import opened HeapLinks
  import opened HeapRuns
  import opened Masks
  import KernelHeap = Heap

  /** `malloc_aligned` of a page asks the heap for this much. */
  const TABLE_REQUEST: nat := 2 * PAGE + 3

  /** Memory, the heap's chunks, and those live chunks that hold page tables. */
  datatype System = System(m: Memory, cs: seq<Chunk>, held: set<Chunk>)

  /** The live blocks of everybody else. */
  function Clients(s: System): set<Chunk> { Live(s.cs) - s.held }

  ghost predicate Good(s: System, pd: nat, lo: nat, hi: nat) {
    && Invariant(State(s.m, s.cs), lo, hi) && 2 * PAGE <= lo
    && s.held <= Live(s.cs) && T.Paging(s.m, pd, s.held, lo, hi)
  }

  ghost predicate KeptBytes(m: Memory, m': Memory, kept: set<Chunk>) {
    |m| == |m'| && forall c, a :: c in kept && c.Payload() <= a < c.End() && a < |m| ==> m'[a] == m[a]
  }

  /** The leaf entry of each page is the same, but for page `v`, where it is `e`. */
  ghost predicate LeafSet(m: Memory, m': Memory, pd: nat, v: nat, e: Entry) {
    && pd + PAGE <= |m| == |m'|
    && forall u :: 0 <= u < 0x10_0000 ==> T.LeafOf(m', pd, u) == if u == v then e else T.LeafOf(m, pd, u)
  }

  ghost predicate LeavesKept(m: Memory, m': Memory, pd: nat) {
    && pd + PAGE <= |m| == |m'|
    && forall u :: 0 <= u < 0x10_0000 ==> T.LeafOf(m', pd, u) == T.LeafOf(m, pd, u)
  }

  /** Slots keep the tables they have; a new table lies in the heap. */
  ghost predicate TablesGrow(m: Memory, m': Memory, pd: nat, lo: nat, hi: nat) {
    && pd + PAGE <= |m| == |m'|
    && (forall k :: 0 <= k < 1024 && T.HasTable(m, pd, k) ==>
          T.HasTable(m', pd, k) && T.TableOf(m', pd, k) == T.TableOf(m, pd, k))
    && forall k :: 0 <= k < 1024 && T.HasTable(m', pd, k) && !T.HasTable(m, pd, k) ==>
         lo <= T.TableOf(m', pd, k) && T.TableOf(m', pd, k) + PAGE <= hi
  }

  lemma GrowTrans(m: Memory, m': Memory, m'': Memory, pd: nat, lo: nat, hi: nat)
    requires TablesGrow(m, m', pd, lo, hi) && TablesGrow(m', m'', pd, lo, hi)
    ensures TablesGrow(m, m'', pd, lo, hi)
  {
    hide T.HasTable, T.TableOf;
  }

  lemma GrowNot(m: Memory, pd: nat, lo: nat, hi: nat)
    requires pd + PAGE <= |m|
    ensures TablesGrow(m, m, pd, lo, hi)
  {
  }

  lemma NoSlotNew(m: Memory, m': Memory, pd: nat, lo: nat, hi: nat)
    requires T.SlotsKept(m, m', pd, T.NO_SLOT)
    ensures TablesGrow(m, m', pd, lo, hi)
  {
    hide T.HasTable, T.TableOf;
  }

  lemma OneSlotNew(m: Memory, m': Memory, m'': Memory, pd: nat, lo: nat, hi: nat, i: nat)
    requires T.SlotsKept(m, m', pd, T.NO_SLOT) && T.SlotsKept(m', m'', pd, i) && i < 1024 && !T.HasTable(m, pd, i)
    requires lo <= T.TableOf(m'', pd, i) && T.TableOf(m'', pd, i) + PAGE <= hi
    ensures TablesGrow(m, m'', pd, lo, hi)
  {
    hide T.HasTable, T.TableOf;
  }

  lemma InRange(s: System, pd: nat, lo: nat, hi: nat)
    requires Good(s, pd, lo, hi)
    ensures pd + PAGE <= |s.m|
  {
  }

  // ----- the stores -----

  /** The directory entry for a table at `t`. */
  function TableWord(e: Entry, t: nat): Entry
    requires t < WORD
  {
    SetFrame(Or(e, Or(PRESENT, RW)), t as bv32)
  }

  lemma TableWordIs(e: Entry, t: nat)
    requires t < WORD
    ensures TableWord(e, t) == ((e | 3) & 0x8000_0FFF) | (t as bv32)
  {
  }

  /** The low bits of a directory entry for a table: those it had, and present and writable. */
  lemma TableAttributes(e: Entry, t: nat)
    requires t < WORD && t % 4096 == 0
    ensures And(TableWord(e, t), 0xFFF) == Or(And(e, 0xFFF), 0x3)
  {
    PageAddress(t);
    SetFrameKeeps(Or(e, Or(PRESENT, RW)), t as bv32);
    OrAttributes(e, Or(PRESENT, RW));
    Three();
    hide And, Or, SetFrame;
    OrZero(Or(And(e, 0xFFF), 0x3));
  }

  lemma Three()
    ensures Or(PRESENT, RW) == 0x3 && And(0x3, 0xFFF) == 0x3
  {
  }

  /** A block from the heap, the page inside it zeroed and hung into slot `i`. */
  ghost predicate GrantedTable(s: System, pd: nat, lo: nat, hi: nat, i: nat, m1: Memory, s1: System)
    requires pd + PAGE <= |s.m| && i < 1024
  {
    var f := FirstFit(s.cs, TABLE_REQUEST);
    && f < |s.cs| && s1.cs == AfterMalloc(s.cs, TABLE_REQUEST, f)
    && s1.held == s.held + {Granted(s.cs[f], TABLE_REQUEST)}
    && |m1| == |s.m| && Linked(m1, s1.cs) && Isolated(s.m, m1, lo, hi, Live(s.cs))
    && var t := KernelHeap.AlignedAt(s.cs[f].Payload(), PAGE);
    && t + PAGE <= |m1| && t < WORD
    && var a := T.EntryPos(pd, i);
    && s1.m == T.PutEntry(Filled(m1, t, 0, PAGE), a, TableWord(T.EntryAt(s.m, a), t))
  }

  ghost predicate TableStep(s: System, pd: nat, lo: nat, hi: nat, i: nat, s1: System)
    requires pd + PAGE <= |s.m| && i < 1024
  {
    if T.HasTable(s.m, pd, i) then s1 == s else exists m1 :: GrantedTable(s, pd, lo, hi, i, m1, s1)
  }

  /** The word where the walk for page `v` ends, whether its table is there or not. */
  function LeafPos(m: Memory, pd: nat, v: nat): nat
    requires pd + PAGE <= |m| && v < 0x10_0000
  {
    T.EntryPos(T.TableOf(m, pd, v / 1024), v % 1024)
  }

  ghost predicate MapStep(s: System, pd: nat, lo: nat, hi: nat, v: nat, physical: nat, flags: Entry, s': System)
    requires pd + PAGE <= |s.m| && v < 0x10_0000 && physical < WORD
  {
    exists s1 :: TableStep(s, pd, lo, hi, v / 1024, s1) && Stored(s1, pd, v, physical, flags, s')
  }

  /** The two stores into the leaf. */
  ghost predicate Stored(s: System, pd: nat, v: nat, physical: nat, flags: Entry, s': System)
    requires v < 0x10_0000 && physical < WORD
  {
    && s'.cs == s.cs && s'.held == s.held && pd + PAGE <= |s.m|
    && var a := LeafPos(s.m, pd, v);
    && a + 4 <= |s.m| && s'.m == T.PutEntry(s.m, a, MapWord(T.EntryAt(s.m, a), physical, flags))
  }

  ghost predicate UnmapStep(s: System, pd: nat, v: nat, s': System)
    requires pd + PAGE <= |s.m| && v < 0x10_0000
  {
    && s'.cs == s.cs && s'.held == s.held
    && var a := LeafPos(s.m, pd, v);
    && a + 4 <= |s.m| && s'.m == T.PutEntry(s.m, a, UnmapWord(T.EntryAt(s.m, a)))
  }

  // ----- the stores by address and value -----

  /** The word where the walk for page `v` ends. */
  lemma WalkEndsAt(m: Memory, pd: nat, v: nat)
    requires pd + 4096 <= |m| && v < 0x10_0000
    ensures LeafPos(m, pd, v) == FrameOf(T.EntryAt(m, pd + 4 * (v / 1024))) + 4 * (v % 1024)
  {
    hide T.EntryAt, FrameOf;
  }

  /** With a table in place `map_page` changes this word and nothing else. */
  lemma MapStoresWord(s: System, pd: nat, lo: nat, hi: nat, v: nat, physical: nat, flags: Entry, s': System, a: nat)
    requires pd + 4096 <= |s.m| && v < 0x10_0000 && physical < WORD && MapStep(s, pd, lo, hi, v, physical, flags, s')
    requires T.HasTable(s.m, pd, v / 1024) && a == LeafPos(s.m, pd, v)
    ensures a + 4 <= |s.m| && s' == s.(m := T.PutEntry(s.m, a, MapWord(T.EntryAt(s.m, a), physical, flags)))
  {
    hide T.EntryAt, MapWord, T.PutEntry, T.HasTable, LeafPos, GrantedTable;
  }

  /** And `unmap_page`, with or without a table. */
  lemma UnmapStoresWord(s: System, pd: nat, v: nat, s': System, a: nat)
    requires pd + 4096 <= |s.m| && v < 0x10_0000 && UnmapStep(s, pd, v, s') && a == LeafPos(s.m, pd, v)
    ensures a + 4 <= |s.m| && s' == s.(m := T.PutEntry(s.m, a, UnmapWord(T.EntryAt(s.m, a))))
  {
    hide T.EntryAt, UnmapWord, T.PutEntry, LeafPos;
  }

  /** An entry is stored as a little-endian word. */
  lemma PutsWord(m: Memory, a: nat, e: Entry)
    requires a + 4 <= |m|
    ensures 0 <= e as int < WORD && T.PutEntry(m, a, e) == Put32(m, a, e as int)
  {
    FromWord(e);
  }

  /** A new table: in the lowest free chunk of more than 8195 bytes, on a page boundary behind room for a
      pointer, its page zeroed, and hung into its slot. */
  lemma TableInstalled(s: System, pd: nat, lo: nat, hi: nat, i: nat, m1: Memory, s1: System)
    requires pd + 4096 <= |s.m| && i < 1024 && GrantedTable(s, pd, lo, hi, i, m1, s1)
    ensures var f := FirstFit(s.cs, 8195);
            && f < |s.cs| && !s.cs[f].used && s.cs[f].size > 8195
            && (forall j :: 0 <= j < f ==> s.cs[j].used || s.cs[j].size <= 8195)
            && var t := (s.cs[f].addr + 16 + 4099) / 4096 * 4096;
               && t + 4096 <= |m1| && t < WORD && pd + 4 * i + 4 <= |m1|
               && s1.m == T.PutEntry(Place(m1, t, seq(4096, _ => 0)), pd + 4 * i,
                                     TableWord(T.EntryAt(s.m, pd + 4 * i), t))
  {
    hide T.EntryAt, TableWord, Linked, Isolated, AfterMalloc, KernelHeap.AlignedAt, IsPowerOfTwo, Place, T.PutEntry;
    var f := FirstFit(s.cs, TABLE_REQUEST);
    PageIsPower();
    KernelHeap.AlignedRounds(s.cs[f].addr + 16, 4096);
  }

  lemma PageIsPower()
    ensures IsPowerOfTwo(4096)
  {
  }

  // ----- the heap and the tables do not disturb each other -----

  lemma IsolatedLess(m: Memory, m': Memory, lo: nat, hi: nat, kept: set<Chunk>, fewer: set<Chunk>)
    requires Isolated(m, m', lo, hi, kept) && fewer <= kept
    ensures Isolated(m, m', lo, hi, fewer) && KeptBytes(m, m', fewer)
  {
  }

  /** The heap's own work on chunks and headers leaves every leaf as it was. */
  lemma HeapKeepsTables(m: Memory, m': Memory, pd: nat, held: set<Chunk>, lo: nat, hi: nat)
    requires T.Paging(m, pd, held, lo, hi) && Isolated(m, m', lo, hi, held)
    ensures T.Paging(m', pd, held, lo, hi) && LeavesKept(m, m', pd) && T.SlotsKept(m, m', pd, T.NO_SLOT)
  {
    hide T.EntryAt, Present, FrameOf, T.LeafOf;
    forall i | 0 <= i < 1024 && T.HasTable(m, pd, i)
      ensures T.SamePage(m, m', T.TableOf(m, pd, i)) && T.Safe(held, lo, hi, T.TableOf(m, pd, i))
    {
      assert T.SlotOk(m, pd, held, lo, hi, i);
    }
    T.PagingFrame(m, m', pd, held, held, lo, hi);
  }

  lemma MoreHeld(m: Memory, pd: nat, held: set<Chunk>, held': set<Chunk>, lo: nat, hi: nat)
    requires T.Paging(m, pd, held, lo, hi) && held <= held'
    ensures T.Paging(m, pd, held', lo, hi)
  {
    hide T.EntryAt, Present, FrameOf, T.LeafOf;
    forall i | 0 <= i < 1024 && T.HasTable(m, pd, i)
      ensures T.SamePage(m, m, T.TableOf(m, pd, i)) && T.Safe(held', lo, hi, T.TableOf(m, pd, i))
    {
      assert T.SlotOk(m, pd, held, lo, hi, i);
    }
    T.PagingFrame(m, m, pd, held, held', lo, hi);
  }

  /** A page in a block of its own lies apart from the directory and from every table. */
  lemma FreshPageApart(m: Memory, pd: nat, held: set<Chunk>, cs: seq<Chunk>, lo: nat, hi: nat, g: Chunk, t: nat)
    requires T.Paging(m, pd, held, lo, hi) && Tiles(cs, lo, hi) && held <= Live(cs)
    requires g in Live(cs) && g !in held && g.Payload() <= t && t + PAGE <= g.End()
    ensures lo <= t && t + PAGE <= hi && T.ApartPages(t, pd) && T.Safe(held + {g}, lo, hi, t)
    ensures forall i :: 0 <= i < 1024 && T.HasTable(m, pd, i) ==> T.ApartPages(T.TableOf(m, pd, i), t)
  {
    hide T.EntryAt, Present, FrameOf;
    InHeap(cs, lo, hi, g);
    forall i | 0 <= i < 1024 && T.HasTable(m, pd, i) ensures T.ApartPages(T.TableOf(m, pd, i), t) {
      assert T.SlotOk(m, pd, held, lo, hi, i);
      var u := T.TableOf(m, pd, i);
      if lo < u + PAGE && u < hi {
        var c :| c in held && c.Payload() <= u && u + PAGE <= c.End();
        ChunksApart(cs, lo, hi, c, g);
      }
    }
  }

  /** A store outside the heap touches neither headers nor payloads. */
  lemma OutsideWrite(m: Memory, cs: seq<Chunk>, lo: nat, hi: nat, a: nat, e: Entry)
    requires Invariant(State(m, cs), lo, hi) && a + 4 <= |m| && (a + 4 <= lo || hi <= a)
    ensures Linked(T.PutEntry(m, a, e), cs) && KeptBytes(m, T.PutEntry(m, a, e), Live(cs))
  {
    hide Get32, T.PutEntry, T.EntryAt, HeaderAt;
    Disjoint(cs, lo, hi);
    LinkedFrame(m, T.PutEntry(m, a, e), cs);
  }

  /** A store inside a safe page leaves the heap's headers and the blocks of others alone. */
  lemma SafeWrite(s: System, pd: nat, lo: nat, hi: nat, t: nat, a: nat, e: Entry)
    requires Good(s, pd, lo, hi) && T.Safe(s.held, lo, hi, t)
    requires t <= a && a + 4 <= t + PAGE && a + 4 <= |s.m|
    ensures Linked(T.PutEntry(s.m, a, e), s.cs) && KeptBytes(s.m, T.PutEntry(s.m, a, e), Clients(s))
  {
    hide Get32, Encode32, T.Paging, Linked, Tiles, Coalesced;
    if t + PAGE <= lo || hi <= t {
      OutsideWrite(s.m, s.cs, lo, hi, a, e);
    } else {
      var c :| c in s.held && c.Payload() <= t && t + PAGE <= c.End();
      FromWord(e);
      KernelHeap.WriteInside(s.m, s.cs, lo, hi, c, Clients(s), a - c.Payload(), Encode32(e as int));
    }
  }

  // ----- a new table -----

  ghost predicate EmptyTable(m: Memory, t: nat) {
    t + PAGE <= |m| && forall j :: 0 <= j < 1024 ==> T.EntryAt(m, T.EntryPos(t, j)) == 0
  }

  lemma ZeroedPage(m: Memory, t: nat)
    requires t + PAGE <= |m|
    ensures EmptyTable(Filled(m, t, 0, PAGE), t)
  {
    forall j | 0 <= j < 1024 ensures T.EntryAt(Filled(m, t, 0, PAGE), T.EntryPos(t, j)) == 0 {
      var z := Filled(m, t, 0, PAGE);
      assert Get32(z, T.EntryPos(t, j)) == 0;
      ZeroEntry();
      FromWord(0);
    }
  }

  /** The page that `malloc_aligned` delivers inside the granted block. */
  lemma AlignedPage(p: nat)
    ensures p + 4 <= KernelHeap.AlignedAt(p, PAGE) && KernelHeap.AlignedAt(p, PAGE) + PAGE <= p + TABLE_REQUEST
    ensures KernelHeap.AlignedAt(p, PAGE) % PAGE == 0
  {
    KernelHeap.AlignedInside(p, PAGE, PAGE);
    MaskRounds(p + PAGE + 3, PAGE);
    RoundDownAligned(p + PAGE + 3, PAGE);
  }

  /** The granted block: nobody's before, and the page is inside it. */
  lemma BlockForPage(s: System, pd: nat, lo: nat, hi: nat, m1: Memory)
    requires Good(s, pd, lo, hi) && FirstFit(s.cs, TABLE_REQUEST) < |s.cs|
    requires var f := FirstFit(s.cs, TABLE_REQUEST);
             Linked(m1, AfterMalloc(s.cs, TABLE_REQUEST, f)) && Isolated(s.m, m1, lo, hi, Live(s.cs))
    ensures var f := FirstFit(s.cs, TABLE_REQUEST);
            var g, cs1, t := Granted(s.cs[f], TABLE_REQUEST), AfterMalloc(s.cs, TABLE_REQUEST, f),
              KernelHeap.AlignedAt(s.cs[f].Payload(), PAGE);
            && |m1| == |s.m| && Invariant(State(m1, cs1), lo, hi)
            && Live(cs1) == Live(s.cs) + {g} && g !in Live(s.cs)
            && t % PAGE == 0 && g.Payload() <= t && t + PAGE <= g.End() && lo <= t && t + PAGE <= hi
  {
    hide AfterMalloc, Tiles, Coalesced, Linked, T.Paging, KernelHeap.AlignedAt;
    var f := FirstFit(s.cs, TABLE_REQUEST);
    AlignedPage(s.cs[f].Payload());
    MallocTiles(s.cs, lo, hi, TABLE_REQUEST, f);
    MallocLive(s.cs, lo, hi, TABLE_REQUEST, f);
    SameLength(s.m, m1, lo, hi, Live(s.cs));
    InHeap(AfterMalloc(s.cs, TABLE_REQUEST, f), lo, hi, Granted(s.cs[f], TABLE_REQUEST));
  }

  /** Zeroing a page inside a block that was nobody's. */
  lemma PageZeroed(m: Memory, m1: Memory, cs1: seq<Chunk>, lo: nat, hi: nat, live: set<Chunk>, g: Chunk, t: nat)
    requires Invariant(State(m1, cs1), lo, hi) && Isolated(m, m1, lo, hi, live)
    requires Live(cs1) == live + {g} && g !in live && g.Payload() <= t && t + PAGE <= g.End() && t + PAGE <= |m1|
    ensures var m2 := Filled(m1, t, 0, PAGE);
            Linked(m2, cs1) && Isolated(m, m2, lo, hi, live) && EmptyTable(m2, t)
  {
    hide Tiles, Coalesced, Linked, Isolated, EmptyTable;
    var zeros := seq(PAGE, _ => 0 as byte);
    KernelHeap.WriteInside(m1, cs1, lo, hi, g, live, t - g.Payload(), zeros);
    var m2 := Filled(m1, t, 0, PAGE);
    assert m2 == m1[..t] + zeros + m1[t + PAGE..];
    KernelHeap.IsolatedTrans(m, m1, m2, lo, hi, live);
    ZeroedPage(m1, t);
  }

  /** After the grant and the zeroing: heap and tables are well formed, the page is fresh, and no byte of
      any block that was live has changed. */
  lemma PageFromHeap(s: System, pd: nat, lo: nat, hi: nat, m1: Memory)
    requires Good(s, pd, lo, hi) && FirstFit(s.cs, TABLE_REQUEST) < |s.cs|
    requires var f := FirstFit(s.cs, TABLE_REQUEST);
             Linked(m1, AfterMalloc(s.cs, TABLE_REQUEST, f)) && Isolated(s.m, m1, lo, hi, Live(s.cs))
    ensures var f := FirstFit(s.cs, TABLE_REQUEST);
            var g, t := Granted(s.cs[f], TABLE_REQUEST), KernelHeap.AlignedAt(s.cs[f].Payload(), PAGE);
            && t % PAGE == 0 && t + PAGE <= |m1|
            && var s2 := System(Filled(m1, t, 0, PAGE), AfterMalloc(s.cs, TABLE_REQUEST, f), s.held + {g});
            && Good(s2, pd, lo, hi) && LeavesKept(s.m, s2.m, pd) && Clients(s2) == Clients(s)
            && Isolated(s.m, s2.m, lo, hi, Live(s.cs)) && Live(s.cs) <= Live(s2.cs)
            && EmptyTable(s2.m, t) && lo <= t && t + PAGE <= hi && T.ApartPages(t, pd) && T.Safe(s2.held, lo, hi, t)
            && T.SlotsKept(s.m, s2.m, pd, T.NO_SLOT)
            && forall i :: 0 <= i < 1024 && T.HasTable(s2.m, pd, i) ==> T.ApartPages(T.TableOf(s2.m, pd, i), t)
  {
    hide T.EntryAt, Present, FrameOf, AfterMalloc, Tiles, Coalesced, Linked, Isolated, T.LeafOf, T.Paging, T.Safe;
    hide KernelHeap.AlignedAt, EmptyTable, LeavesKept, Live, T.SlotsKept, T.HasTable, T.TableOf, T.ApartPages;
    var f := FirstFit(s.cs, TABLE_REQUEST);
    var cs1 := AfterMalloc(s.cs, TABLE_REQUEST, f);
    var g, t := Granted(s.cs[f], TABLE_REQUEST), KernelHeap.AlignedAt(s.cs[f].Payload(), PAGE);
    BlockForPage(s, pd, lo, hi, m1);
    PageZeroed(s.m, m1, cs1, lo, hi, Live(s.cs), g, t);
    var m2 := Filled(m1, t, 0, PAGE);
    IsolatedLess(s.m, m2, lo, hi, Live(s.cs), s.held);
    HeapKeepsTables(s.m, m2, pd, s.held, lo, hi);
    FreshPageApart(m2, pd, s.held, cs1, lo, hi, g, t);
    MoreHeld(m2, pd, s.held, s.held + {g}, lo, hi);
  }

  lemma SameLength(m: Memory, m': Memory, lo: nat, hi: nat, kept: set<Chunk>)
    requires Isolated(m, m', lo, hi, kept)
    ensures |m| == |m'|
  {
  }

  /** The directory entry for a table points to it, if the slot was empty. */
  lemma TableWordPoints(w: Entry, t: nat)
    requires FrameOf(w) == 0 && t < WORD && t % PAGE == 0
    ensures Present(TableWord(w, t)) && FrameOf(TableWord(w, t)) == t
  {
    hide FrameOf, Present, And, Or, SetFrame, Bit31;
    NoFrame(w);
    AttributeWord();
    PointedEntry(w, Or(PRESENT, RW), t);
    WholePage(t);
  }

  /** Hanging the page into its slot. */
  lemma TableHung(s: System, pd: nat, lo: nat, hi: nat, i: nat, t: nat, w: Entry)
    requires Good(s, pd, lo, hi) && i < 1024 && !T.HasTable(s.m, pd, i) && w == T.EntryAt(s.m, T.EntryPos(pd, i))
    requires t % PAGE == 0 && PAGE <= t && EmptyTable(s.m, t) && T.ApartPages(t, pd) && T.Safe(s.held, lo, hi, t)
    requires forall k :: 0 <= k < 1024 && T.HasTable(s.m, pd, k) ==> T.ApartPages(T.TableOf(s.m, pd, k), t)
    ensures var s' := System(T.PutEntry(s.m, T.EntryPos(pd, i), TableWord(w, t)), s.cs, s.held);
            && Good(s', pd, lo, hi) && T.SlotsKept(s.m, s'.m, pd, i)
            && T.HasTable(s'.m, pd, i) && T.TableOf(s'.m, pd, i) == t
            && LeavesKept(s.m, s'.m, pd) && KeptBytes(s.m, s'.m, Live(s.cs))
  {
    hide T.EntryAt, FrameOf, Present, T.PutEntry, TableWord, T.LeafOf, T.Safe, Linked, Tiles, Coalesced, KeptBytes;
    assert T.SlotOk(s.m, pd, s.held, lo, hi, i);
    TableWordPoints(w, t);
    assert T.TableOk(s.m, pd, s.held, lo, hi, t);
    T.InstallTable(s.m, pd, s.held, lo, hi, i, TableWord(w, t));
    OutsideWrite(s.m, s.cs, lo, hi, T.EntryPos(pd, i), TableWord(w, t));
  }

  lemma AttributeWord()
    ensures Present(Or(PRESENT, RW)) && !Bit31(Or(PRESENT, RW))
  {
  }

  lemma WholePage(t: nat)
    requires t % PAGE == 0
    ensures Shown(false, t) == t
  {
  }

  lemma SameSlot(m: Memory, m': Memory, pd: nat, held: set<Chunk>, lo: nat, hi: nat, i: nat)
    requires T.Paging(m, pd, held, lo, hi) && Isolated(m, m', lo, hi, held) && i < 1024
    ensures T.EntryAt(m', T.EntryPos(pd, i)) == T.EntryAt(m, T.EntryPos(pd, i))
  {
    T.SameEntry(m, m', pd, i);
  }

  /** Making sure of a table changes no leaf and no byte of a block that was live. */
  lemma TableRefines(s: System, pd: nat, lo: nat, hi: nat, i: nat, s1: System)
    requires Good(s, pd, lo, hi) && i < 1024 && TableStep(s, pd, lo, hi, i, s1)
    ensures Good(s1, pd, lo, hi) && T.HasTable(s1.m, pd, i) && LeavesKept(s.m, s1.m, pd)
    ensures Live(s.cs) <= Live(s1.cs) && Clients(s1) == Clients(s) && KeptBytes(s.m, s1.m, Live(s.cs))
    ensures TablesGrow(s.m, s1.m, pd, lo, hi)
  {
    hide T.EntryAt, FrameOf, Present, T.PutEntry, TableWord, T.LeafOf, T.Safe, Linked, Tiles, Coalesced,
      AfterMalloc;
    hide Isolated, KeptBytes, T.Paging, EmptyTable, KernelHeap.AlignedAt, TablesGrow, T.HasTable, T.TableOf;
    InRange(s, pd, lo, hi);
    if T.HasTable(s.m, pd, i) {
      NothingChanged(s.m, pd, Live(s.cs));
      NoSlotNew(s.m, s.m, pd, lo, hi);
    } else {
      var m1 :| GrantedTable(s, pd, lo, hi, i, m1, s1);
      var f := FirstFit(s.cs, TABLE_REQUEST);
      var t := KernelHeap.AlignedAt(s.cs[f].Payload(), PAGE);
      PageFromHeap(s, pd, lo, hi, m1);
      var s2 := System(Filled(m1, t, 0, PAGE), s1.cs, s1.held);
      IsolatedLess(s.m, s2.m, lo, hi, Live(s.cs), s.held);
      IsolatedLess(s.m, s2.m, lo, hi, Live(s.cs), Live(s.cs));
      SameSlot(s.m, s2.m, pd, s.held, lo, hi, i);
      TableHung(s2, pd, lo, hi, i, t, T.EntryAt(s.m, T.EntryPos(pd, i)));
      KeptTrans(s.m, s2.m, s1.m, Live(s.cs), Live(s2.cs));
      OneSlotNew(s.m, s2.m, s1.m, pd, lo, hi, i);
    }
  }

  lemma NothingChanged(m: Memory, pd: nat, live: set<Chunk>)
    requires pd + PAGE <= |m|
    ensures LeavesKept(m, m, pd) && KeptBytes(m, m, live) && T.SlotsKept(m, m, pd, T.NO_SLOT)
  {
  }

  lemma KeptTrans(m: Memory, m': Memory, m'': Memory, kept: set<Chunk>, more: set<Chunk>)
    requires KeptBytes(m, m', kept) && KeptBytes(m', m'', more) && kept <= more
    ensures KeptBytes(m, m'', kept)
  {
  }

  // ----- a full heap -----

  /** What `map_page` does to install a table when `malloc` has no room: the saved null pointer, the page at
      the masked null zeroed, the slot. */
  function FullTable(m: Memory, pd: nat, i: nat): (m': Memory)
    requires 2 * PAGE <= pd && pd + PAGE <= |m| && i < 1024
    ensures |m'| == |m|
  {
    var a := T.EntryPos(pd, i);
    T.PutEntry(Filled(Put32(m, PAGE - 1, 0), PAGE, 0, PAGE), a, TableWord(T.EntryAt(m, a), PAGE))
  }

  /** Every table of a full heap is page 1. A second one empties the first: all its pages lose their entries,
      whatever had been stored there. */
  lemma FullHeapShares(m: Memory, between: Memory, pd: nat, i: nat, j: nat)
    requires 2 * PAGE <= pd && pd + PAGE <= |m| && i < 1024 && j < 1024 && i != j
    requires T.TableOf(m, pd, i) == 0 && T.TableOf(m, pd, j) == 0
    requires T.SamePage(FullTable(m, pd, i), between, pd)
    ensures var last := FullTable(between, pd, j);
            && T.HasTable(last, pd, i) && T.HasTable(last, pd, j)
            && T.TableOf(last, pd, i) == T.TableOf(last, pd, j) == PAGE
            && forall v :: 0 <= v < 0x10_0000 && v / 1024 == i ==> T.LeafOf(last, pd, v) == 0
  {
    hide T.EntryAt, FrameOf, Present, TableWord, T.PutEntry;
    var one, last := FullTable(m, pd, i), FullTable(between, pd, j);
    OneWord(m, pd, i);
    T.SameEntry(one, between, pd, i);
    T.SameEntry(one, between, pd, j);
    OneWord(between, pd, j);
    assert T.EntryAt(one, T.EntryPos(pd, j)) == T.EntryAt(m, T.EntryPos(pd, j));
  }

  /** One installation: its slot, the others, and the table. */
  lemma OneWord(m: Memory, pd: nat, i: nat)
    requires 2 * PAGE <= pd && pd + PAGE <= |m| && i < 1024 && T.TableOf(m, pd, i) == 0
    ensures var m' := FullTable(m, pd, i);
            && T.HasTable(m', pd, i) && T.TableOf(m', pd, i) == PAGE && EmptyTable(m', PAGE)
            && forall k ::
                 0 <= k < 1024 && k != i ==> T.EntryAt(m', T.EntryPos(pd, k)) == T.EntryAt(m, T.EntryPos(pd, k))
  {
    hide T.EntryAt, FrameOf, Present, T.PutEntry, TableWord, Filled, Put32;
    TableWordPoints(T.EntryAt(m, T.EntryPos(pd, i)), PAGE);
    PageCleared(m, pd);
  }

  lemma PageCleared(m: Memory, pd: nat)
    requires 2 * PAGE <= pd && pd + PAGE <= |m|
    ensures var m1 := Filled(Put32(m, PAGE - 1, 0), PAGE, 0, PAGE);
            && EmptyTable(m1, PAGE)
            && forall k :: 0 <= k < 1024 ==> T.EntryAt(m1, T.EntryPos(pd, k)) == T.EntryAt(m, T.EntryPos(pd, k))
  {
    hide T.EntryAt;
    var m1 := Filled(Put32(m, PAGE - 1, 0), PAGE, 0, PAGE);
    ZeroedPage(Put32(m, PAGE - 1, 0), PAGE);
    forall k | 0 <= k < 1024 ensures T.EntryAt(m1, T.EntryPos(pd, k)) == T.EntryAt(m, T.EntryPos(pd, k)) {
      T.SameEntry(m, m1, pd, k);
    }
  }

  // ----- one leaf -----

  /** Storing a leaf in a table. */
  lemma LeafStored(s: System, pd: nat, lo: nat, hi: nat, v: nat, e: Entry)
    requires Good(s, pd, lo, hi) && v < 0x10_0000 && T.HasTable(s.m, pd, v / 1024)
    ensures LeafPos(s.m, pd, v) + 4 <= |s.m| && T.EntryAt(s.m, LeafPos(s.m, pd, v)) == T.LeafOf(s.m, pd, v)
    ensures var s' := System(T.PutEntry(s.m, LeafPos(s.m, pd, v), e), s.cs, s.held);
            && Good(s', pd, lo, hi) && LeafSet(s.m, s'.m, pd, v, e) && KeptBytes(s.m, s'.m, Clients(s))
            && T.SlotsKept(s.m, s'.m, pd, T.NO_SLOT)
  {
    hide T.EntryAt, FrameOf, T.PutEntry, Linked, Tiles, Coalesced, Live, Present, T.Safe, KeptBytes;
    var i, j := v / 1024, v % 1024;
    assert T.SlotOk(s.m, pd, s.held, lo, hi, i);
    T.TableWrite(s.m, pd, s.held, lo, hi, i, j, e);
    SafeWrite(s, pd, lo, hi, T.TableOf(s.m, pd, i), LeafPos(s.m, pd, v), e);
  }

  /** `map_page` sets the leaf of its page and no other, and leaves the blocks of others alone. */
  lemma MapRefines(s: System, pd: nat, lo: nat, hi: nat, v: nat, physical: nat, flags: Entry, s': System)
    requires Good(s, pd, lo, hi) && v < 0x10_0000 && physical < WORD
    requires MapStep(s, pd, lo, hi, v, physical, flags, s')
    ensures Good(s', pd, lo, hi) && LeafSet(s.m, s'.m, pd, v, MapWord(T.LeafOf(s.m, pd, v), physical, flags))
    ensures Live(s.cs) <= Live(s'.cs) && Clients(s') == Clients(s) && KeptBytes(s.m, s'.m, Clients(s))
    ensures TablesGrow(s.m, s'.m, pd, lo, hi)
  {
    hide T.EntryAt, FrameOf, Present, T.PutEntry, MapWord, T.LeafOf, TableStep, KeptBytes, LeafPos,
      T.Paging, Invariant;
    hide TablesGrow, T.SlotsKept;
    InRange(s, pd, lo, hi);
    var s1 :| TableStep(s, pd, lo, hi, v / 1024, s1) && Stored(s1, pd, v, physical, flags, s');
    TableRefines(s, pd, lo, hi, v / 1024, s1);
    LeafStored(s1, pd, lo, hi, v, MapWord(T.LeafOf(s.m, pd, v), physical, flags));
    KeptLess(s.m, s1.m, Live(s.cs), Clients(s));
    KeptTrans(s.m, s1.m, s'.m, Clients(s), Clients(s));
    NoSlotNew(s1.m, s'.m, pd, lo, hi);
    GrowTrans(s.m, s1.m, s'.m, pd, lo, hi);
  }

  lemma KeptLess(m: Memory, m': Memory, kept: set<Chunk>, fewer: set<Chunk>)
    requires KeptBytes(m, m', kept) && fewer <= kept
    ensures KeptBytes(m, m', fewer)
  {
  }

  /** `unmap_page` clears the leaf of its page and no other. Without a table the leaf is 0 and stays 0; the
      word written lies in page 0. */
  lemma UnmapRefines(s: System, pd: nat, lo: nat, hi: nat, v: nat, s': System)
    requires Good(s, pd, lo, hi) && v < 0x10_0000 && UnmapStep(s, pd, v, s')
    ensures Good(s', pd, lo, hi) && LeafSet(s.m, s'.m, pd, v, UnmapWord(T.LeafOf(s.m, pd, v)))
    ensures KeptBytes(s.m, s'.m, Clients(s)) && Clients(s') == Clients(s) && TablesGrow(s.m, s'.m, pd, lo, hi)
    ensures !T.HasTable(s.m, pd, v / 1024) ==> LeafPos(s.m, pd, v) == 4 * (v % 1024)
  {
    hide T.EntryAt, FrameOf, Present, T.PutEntry, UnmapWord, T.LeafOf, KeptBytes, LeafPos, T.Paging, Invariant,
      TablesGrow, T.SlotsKept;
    InRange(s, pd, lo, hi);
    if T.HasTable(s.m, pd, v / 1024) {
      LeafStored(s, pd, lo, hi, v, UnmapWord(T.LeafOf(s.m, pd, v)));
    } else {
      PageZero(s, pd, lo, hi, v);
      PageZeroStored(s, pd, lo, hi, LeafPos(s.m, pd, v), UnmapWord(T.EntryAt(s.m, LeafPos(s.m, pd, v))));
      UnmapNothing();
    }
    NoSlotNew(s.m, s'.m, pd, lo, hi);
  }

  lemma PageZero(s: System, pd: nat, lo: nat, hi: nat, v: nat)
    requires Good(s, pd, lo, hi) && v < 0x10_0000 && !T.HasTable(s.m, pd, v / 1024)
    ensures LeafPos(s.m, pd, v) == 4 * (v % 1024) && T.LeafOf(s.m, pd, v) == 0
  {
    hide T.EntryAt, FrameOf, Present, Linked, Tiles, Coalesced, T.Safe;
    assert T.SlotOk(s.m, pd, s.held, lo, hi, v / 1024);
  }

  lemma PageZeroStored(s: System, pd: nat, lo: nat, hi: nat, a: nat, e: Entry)
    requires Good(s, pd, lo, hi) && a + 4 <= PAGE
    ensures a + 4 <= |s.m|
    ensures var s' := System(T.PutEntry(s.m, a, e), s.cs, s.held);
            && Good(s', pd, lo, hi) && LeavesKept(s.m, s'.m, pd) && KeptBytes(s.m, s'.m, Clients(s))
            && T.SlotsKept(s.m, s'.m, pd, T.NO_SLOT)
  {
    hide T.EntryAt, FrameOf, Present, T.PutEntry, Linked, Tiles, Coalesced, T.LeafOf, T.SlotOk,
      KeptBytes, T.ApartPages;
    T.PageZeroWrite(s.m, pd, s.held, lo, hi, a, e);
    OutsideWrite(s.m, s.cs, lo, hi, a, e);
    KeptLess(s.m, T.PutEntry(s.m, a, e), Live(s.cs), Clients(s));
  }

  // ----- what changes in memory -----

  lemma PutTwice(m: Memory, a: nat, x: Entry, y: Entry)
    requires a + 4 <= |m|
    ensures T.PutEntry(T.PutEntry(m, a, x), a, y) == T.PutEntry(m, a, y)
  {
    hide Encode32, Get32;
    FromWord(x);
    FromWord(y);
  }

  lemma DecodeEncode(s: seq<byte>)
    requires |s| == 4
    ensures Encode32(Get32(s, 0)) == s
  {
    var v := Get32(s, 0);
    var upper := s[2] as int + 0x100 * s[3] as int;
    assert v / 0x100 == s[1] as int + 0x100 * upper && v % 0x100 == s[0];
    assert v / 0x1_0000 == upper && v / 0x100 % 0x100 == s[1];
    assert v / 0x100_0000 == s[3] && v / 0x1_0000 % 0x100 == s[2];
  }

  /** Storing an entry changes memory exactly when it changes the entry. */
  lemma PutChanges(m: Memory, a: nat, e: Entry)
    requires a + 4 <= |m|
    ensures T.PutEntry(m, a, e) == m <==> e == T.EntryAt(m, a)
  {
    if e == T.EntryAt(m, a) {
      var w := m[a..a + 4];
      Get32Same(m, a, w, 0);
      DecodeEncode(w);
      hide Encode32, Get32;
      ToWord(Get32(m, a));
      FromWord(e);
      assert m == m[..a] + w + m[a + 4..];
    }
  }
}
