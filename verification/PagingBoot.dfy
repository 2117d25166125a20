/** Paging as the kernel starts it: directory and first table are page 0, every slot has a table, and the
    entry of each page is a word of the first 4 MiB. Runs keep heap and pages apart as long as no entry in
    the heap is written. */
module PagingBoot {
  import opened Bytes
  import opened BlockBits
  import opened Masks
  import opened PageBits
  import T = PageTables
  import opened HeapLayout
  import opened HeapLinks
  import H = HeapRuns
  import opened Paging
  import opened PagingSteps
  import opened PagingRuns
  import KernelHeap = Heap

  const TABLES_END: nat := 0x40_0000

  /** Slot `i` of the directory in page 0 has its table in page `i`. */
  ghost predicate Flat(m: Memory) {
    TABLES_END <= |m| <= WORD && forall i :: 0 <= i < 1024 ==> T.HasTable(m, 0, i) && T.TableOf(m, 0, i) == PAGE * i
  }

  /** The entry of page `v` is the word at address `4 * v`. */
  lemma FlatLeaf(m: Memory, v: nat)
    requires Flat(m) && v < 0x10_0000
    ensures LeafPos(m, 0, v) == 4 * v && 4 * v + 4 <= TABLES_END && T.LeafOf(m, 0, v) == T.EntryAt(m, 4 * v)
  {
    hide T.EntryAt, Present, FrameOf;
    assert T.HasTable(m, 0, v / 1024) && T.TableOf(m, 0, v / 1024) == PAGE * (v / 1024);
  }

  lemma SlotIsWord(m: Memory, i: nat)
    requires TABLES_END <= |m| && i < 1024
    ensures T.HasTable(m, 0, i) == Present(T.EntryAt(m, 4 * i)) && T.TableOf(m, 0, i) == FrameOf(T.EntryAt(m, 4 * i))
  {
    hide T.EntryAt, Present, FrameOf;
  }

  /** A new entry for page `v` leaves the tables where they are exactly when the page is none of the first
      1024, whose entries are the directory, or stays mapped to itself. */
  lemma FlatStore(m: Memory, v: nat, e: Entry)
    requires Flat(m) && v < 0x10_0000
    ensures 4 * v + 4 <= |m|
    ensures var m' := T.PutEntry(m, 4 * v, e);
            && (Flat(m') <==> v >= 1024 || (Present(e) && FrameOf(e) == PAGE * v))
            && (Flat(m') ==> LeafSet(m, m', 0, v, e))
  {
    hide T.EntryAt, Present, FrameOf, T.PutEntry, T.HasTable, T.TableOf, T.LeafOf;
    var m' := T.PutEntry(m, 4 * v, e);
    SlotIsWord(m', if v < 1024 then v else 0);
    forall i | 0 <= i < 1024
      ensures if i == v then T.HasTable(m', 0, i) == Present(e) && T.TableOf(m', 0, i) == FrameOf(e)
              else T.HasTable(m', 0, i) && T.TableOf(m', 0, i) == PAGE * i
    {
      SlotIsWord(m, i);
      SlotIsWord(m', i);
    }
    if Flat(m') {
      forall u | 0 <= u < 0x10_0000 ensures T.LeafOf(m', 0, u) == if u == v then e else T.LeafOf(m, 0, u) {
        FlatLeaf(m, u);
        FlatLeaf(m', u);
      }
    }
  }

  /** What boot leaves is flat. */
  lemma BootIsFlat(m: Memory, m': Memory)
    requires FirstTables(m, m', 0, 0) && TABLES_END <= |m|
    ensures Flat(m')
    ensures forall v :: 0 <= v < 1024 ==> Present(T.LeafOf(m', 0, v)) && FrameOf(T.LeafOf(m', 0, v)) == PAGE * v
  {
    hide T.EntryAt, Present, FrameOf, FirstWord, IdentityEntry, T.LeafOf, T.HasTable, T.TableOf;
    BootAtZero(m, m');
  }

  // ----- steps -----

  ghost predicate Booted(s: System, lo: nat, hi: nat) {
    H.Invariant(H.State(s.m, s.cs), lo, hi) && PAGE <= lo && s.held == {} && Flat(s.m)
  }

  /** The entry of page `v` lies outside the heap. */
  predicate Clear(v: nat, lo: nat, hi: nat) { 4 * v + 4 <= lo || hi <= 4 * v }

  /** Mapping and unmapping is for pages from 4 MiB on, with entries outside the heap. */
  ghost predicate Fair(ev: Event, lo: nat, hi: nat) {
    !ev.Client? ==> ev.virtual / PAGE >= 1024 && Clear(ev.virtual / PAGE, lo, hi)
  }

  /** On flat tables every page can be mapped and unmapped. */
  lemma FlatReaches(pager: Pager, v: nat)
    requires pager.directory == 0 && Flat(pager.heap.ram[..]) && v < 0x10_0000
    ensures pager.InMemory() && pager.Reaches(v) && T.HasTable(pager.heap.ram[..], 0, v / 1024)
  {
    hide T.EntryAt, Present, FrameOf;
    FlatLeaf(pager.heap.ram[..], v);
    assert T.HasTable(pager.heap.ram[..], 0, v / 1024);
  }

  /** Boot leaves the heap as it was. */
  lemma BootIsBooted(m: Memory, m': Memory, cs: seq<Chunk>, lo: nat, hi: nat)
    requires H.Invariant(H.State(m, cs), lo, hi) && PAGE <= lo && FirstTables(m, m', 0, 0) && TABLES_END <= |m|
    ensures Booted(System(m', cs, {}), lo, hi) && KeptBytes(m, m', Live(cs))
  {
    hide HeaderAt, T.EntryAt, IdentityEntry, FirstWord, Flat;
    BootIsFlat(m, m');
    Disjoint(cs, lo, hi);
    LinkedFrame(m, m', cs);
  }

  /** On flat tables `map_page` installs nothing and stores one word. */
  lemma MapStores(s: System, lo: nat, hi: nat, v: nat, physical: nat, flags: Entry, s': System)
    requires Flat(s.m) && v < 0x10_0000 && physical < WORD
    requires MapStep(s, 0, lo, hi, v, physical, flags, s')
    ensures s'.cs == s.cs && s'.held == s.held && 4 * v + 4 <= |s.m|
    ensures s'.m == T.PutEntry(s.m, 4 * v, MapWord(T.LeafOf(s.m, 0, v), physical, flags))
  {
    hide T.EntryAt, Present, FrameOf, T.PutEntry, T.LeafOf, MapWord, GrantedTable;
    FlatLeaf(s.m, v);
    assert T.HasTable(s.m, 0, v / 1024);
  }

  lemma UnmapStores(s: System, v: nat, s': System)
    requires Flat(s.m) && v < 0x10_0000 && UnmapStep(s, 0, v, s')
    ensures s'.cs == s.cs && s'.held == s.held && 4 * v + 4 <= |s.m|
    ensures s'.m == T.PutEntry(s.m, 4 * v, UnmapWord(T.LeafOf(s.m, 0, v)))
  {
    hide T.EntryAt, Present, FrameOf, T.PutEntry, T.LeafOf, UnmapWord;
    FlatLeaf(s.m, v);
  }

  /** The heap's work stays in the heap. */
  lemma HeapOnly(s: H.State, e: H.Event, s': H.State, lo: nat, hi: nat)
    requires H.Invariant(s, lo, hi) && H.Step(s, e, s', lo, hi)
    ensures H.Isolated(s.m, s'.m, lo, hi, {})
  {
    hide Linked, Coalesced, AfterMalloc, AfterFree;
    match e
    case Grant(n, c, found) =>
    case Refuse(n) =>
      Disjoint(s.cs, lo, hi);
    case Release(c) =>
    case Write(c, at, data) =>
      InHeap(s.cs, lo, hi, c);
  }

  lemma SameWord(m: Memory, m': Memory, lo: nat, hi: nat, v: nat)
    requires H.Isolated(m, m', lo, hi, {}) && Clear(v, lo, hi) && 4 * v + 4 <= |m|
    ensures T.EntryAt(m', 4 * v) == T.EntryAt(m, 4 * v)
  {
    H.SameOutside(m, m', lo, hi, 4 * v, 4 * v + 4);
    Get32Same(m, 4 * v, m', 4 * v);
  }

  /** Work in the heap keeps the tables and every entry outside it. */
  lemma HeapKeepsFlat(m: Memory, m': Memory, lo: nat, hi: nat)
    requires Flat(m) && H.Isolated(m, m', lo, hi, {}) && PAGE <= lo
    ensures Flat(m')
    ensures forall v :: 0 <= v < 0x10_0000 && Clear(v, lo, hi) ==> T.LeafOf(m', 0, v) == T.LeafOf(m, 0, v)
  {
    hide T.EntryAt, T.HasTable, T.TableOf, T.LeafOf, Present, FrameOf, H.Isolated;
    SameLength(m, m', lo, hi, {});
    forall i | 0 <= i < 1024 ensures T.HasTable(m', 0, i) && T.TableOf(m', 0, i) == PAGE * i {
      SlotIsWord(m, i);
      SlotIsWord(m', i);
      SameWord(m, m', lo, hi, i);
    }
    forall v | 0 <= v < 0x10_0000 && Clear(v, lo, hi) ensures T.LeafOf(m', 0, v) == T.LeafOf(m, 0, v) {
      FlatLeaf(m, v);
      FlatLeaf(m', v);
      SameWord(m, m', lo, hi, v);
    }
  }

  /** An entry outside the heap is written, and nothing in the heap changes. */
  lemma EntryWritten(s: System, lo: nat, hi: nat, v: nat, e: Entry, s': System)
    requires Booted(s, lo, hi) && 1024 <= v < 0x10_0000 && Clear(v, lo, hi) && 4 * v + 4 <= |s.m|
    requires s'.cs == s.cs && s'.held == s.held && s'.m == T.PutEntry(s.m, 4 * v, e)
    ensures Booted(s', lo, hi) && LeafSet(s.m, s'.m, 0, v, e) && ClientStore(s') == ClientStore(s)
  {
    hide T.PutEntry, T.LeafOf, Tiles, Coalesced, Linked, Flat, ClientStore, LeafSet;
    FlatStore(s.m, v, e);
    OutsideWrite(s.m, s.cs, lo, hi, 4 * v, e);
    StoreKept(s, s');
  }

  lemma StepKeeps(s: System, ev: Event, s': System, lo: nat, hi: nat)
    requires Booted(s, lo, hi) && Step(s, ev, s', 0, lo, hi) && Fair(ev, lo, hi)
    ensures Booted(s', lo, hi) && |s'.m| == |s.m|
    ensures forall v :: 0 <= v < 0x10_0000 && Clear(v, lo, hi) ==>
              T.LeafOf(s'.m, 0, v) == LeafNext(T.LeafOf(s.m, 0, v), ev, v)
    ensures ClientStore(s') == StoreNext(ClientStore(s), ev)
  {
    hide T.LeafOf, MapWord, UnmapWord, MapStep, UnmapStep, ClientStore, H.Step, H.Effect, Flat, T.PutEntry;
    hide Tiles, Coalesced, Linked, H.Isolated, H.Contents, Own;
    match ev
    case Map(physical, virtual, flags) =>
      MapStores(s, lo, hi, virtual / PAGE, physical, flags, s');
      EntryWritten(s, lo, hi, virtual / PAGE, MapWord(T.LeafOf(s.m, 0, virtual / PAGE), physical, flags), s');
    case Unmap(virtual) =>
      UnmapStores(s, virtual / PAGE, s');
      EntryWritten(s, lo, hi, virtual / PAGE, UnmapWord(T.LeafOf(s.m, 0, virtual / PAGE)), s');
    case Client(e) =>
      H.StepRefines(H.State(s.m, s.cs), e, H.State(s'.m, s'.cs), lo, hi);
      HeapOnly(H.State(s.m, s.cs), e, H.State(s'.m, s'.cs), lo, hi);
      SameLength(s.m, s'.m, lo, hi, {});
      HeapKeepsFlat(s.m, s'.m, lo, hi);
      NewOnly(s, e, s', lo, hi);
      ClientEffect(s, e, s');
  }

  // ----- runs -----

  ghost predicate BootRun(ss: seq<System>, es: seq<Event>, lo: nat, hi: nat) {
    && |ss| == |es| + 1 && Booted(ss[0], lo, hi)
    && forall k :: 0 <= k < |es| ==> Step(ss[k], es[k], ss[k + 1], 0, lo, hi) && Fair(es[k], lo, hi)
  }

  /** After any such run the heap is well formed, each client block holds what its owner last wrote, and each
      entry outside the heap is what the events about its page make of it. */
  lemma {:induction false} BootRunRefines(ss: seq<System>, es: seq<Event>, lo: nat, hi: nat, n: nat)
    requires BootRun(ss, es, lo, hi) && n <= |es|
    ensures Booted(ss[n], lo, hi) && |ss[n].m| == |ss[0].m|
    ensures forall v :: 0 <= v < 0x10_0000 && Clear(v, lo, hi) ==>
              T.LeafOf(ss[n].m, 0, v) == LeafAfter(T.LeafOf(ss[0].m, 0, v), es, v, n)
    ensures ClientStore(ss[n]) == StoreAfter(ClientStore(ss[0]), es, n)
  {
    hide Booted, T.LeafOf, LeafNext, Step, ClientStore, StoreNext, Fair, Clear;
    BootRange(ss[0], lo, hi);
    if n == 0 {
    } else {
      BootRunRefines(ss, es, lo, hi, n - 1);
      BootRange(ss[n - 1], lo, hi);
      StepKeeps(ss[n - 1], es[n - 1], ss[n], lo, hi);
    }
  }

  lemma BootRange(s: System, lo: nat, hi: nat)
    requires Booted(s, lo, hi)
    ensures TABLES_END <= |s.m|
  {
  }

  /** The translation after such a run, for every page with its entry outside the heap; the first 4 MiB, where
      tables and heap lie, stay mapped to themselves. */
  lemma BootRunTranslates(ss: seq<System>, es: seq<Event>, lo: nat, hi: nat, n: nat, v: nat)
    requires BootRun(ss, es, lo, hi) && n <= |es| && v < 0x10_0000 && Clear(v, lo, hi)
    ensures PAGE <= |ss[0].m| == |ss[n].m|
    ensures var first, last, k := T.SpaceOf(ss[0].m, 0), T.SpaceOf(ss[n].m, 0), LastAbout(es, v, n);
            if k == -1 then (v in last <==> v in first) && (v in last ==> last[v] == first[v])
            else if es[k].Unmap? then v !in last
            else
              var stuck := EverTop(T.LeafOf(ss[0].m, 0, v), es, v, k) || Bit31(es[k].flags);
              && v in last && FrameOf(last[v]) == Shown(stuck, es[k].physical)
              && (FrameOf(last[v]) == RoundDown(es[k].physical, PAGE) <==> (stuck ==> es[k].physical >= 0x8000_0000))
    ensures v < 1024 ==> LastAbout(es, v, n) == -1
  {
    hide Booted, Step, T.LeafOf, T.SpaceOf, LeafAfter, FrameOf, And, Or, Bit31, Present, ClientStore, StoreAfter;
    hide Shown, LowBits, RoundDown, EverTop, LastAbout, Clear;
    BootRange(ss[0], lo, hi);
    BootRunRefines(ss, es, lo, hi, n);
    T.InSpace(ss[0].m, 0, v);
    T.InSpace(ss[n].m, 0, v);
    LastDecides(T.LeafOf(ss[0].m, 0, v), es, v, n);
    if v < 1024 {
      FirstPagesAlone(es, lo, hi, n, v);
    }
  }

  lemma FirstPagesAlone(es: seq<Event>, lo: nat, hi: nat, n: nat, v: nat)
    requires n <= |es| && v < 1024 && forall k :: 0 <= k < |es| ==> Fair(es[k], lo, hi)
    ensures LastAbout(es, v, n) == -1
  {
    var k := LastAbout(es, v, n);
    assert k >= 0 ==> Fair(es[k], lo, hi);
  }

  // ----- addresses from 2^31 on -----

  const HEAP_START: nat := 0x20_0000
  const HEAP_END: nat := 0x40_0000

  /** With the kernel's heap, the addresses that can be mapped are those from 4 MiB to 2 GiB. */
  lemma FairExactly(ev: Event)
    ensures Fair(ev, HEAP_START, HEAP_END) <==> (ev.Client? || 0x40_0000 <= ev.virtual < 0x8000_0000)
  {
  }

  /** The four bytes of an entry. */
  function WordBytes(e: Entry): (b: seq<byte>)
    ensures |b| == 4 && Get32(b, 0) == e as int
  {
    FromWord(e);
    Encode32(e as int)
  }

  lemma PutIsWrite(m: Memory, a: nat, e: Entry)
    requires a + 4 <= |m|
    ensures T.PutEntry(m, a, e) == m[..a] + WordBytes(e) + m[a + 4..]
  {
    FromWord(e);
  }

  /** Writing an entry that lies in somebody's block is a write to this block. */
  lemma EntryIsWrite(s: System, lo: nat, hi: nat, a: nat, e: Entry, c: Chunk, at: nat, s': System)
    requires H.Invariant(H.State(s.m, s.cs), lo, hi) && s.held == s'.held == {} && s'.cs == s.cs && a + 4 <= |s.m|
    requires c in Live(s.cs) && a == c.Payload() + at && at + 4 <= c.size && s'.m == T.PutEntry(s.m, a, e)
    ensures H.Invariant(H.State(s'.m, s'.cs), lo, hi)
    ensures ClientStore(s') == H.Effect(ClientStore(s), H.Write(c, at, WordBytes(e)))
  {
    hide Tiles, Coalesced, Linked, H.Effect, H.Contents, WordBytes, ClientStore, T.PutEntry;
    var ev := H.Write(c, at, WordBytes(e));
    PutIsWrite(s.m, a, e);
    InHeap(s.cs, lo, hi, c);
    H.WriteRefines(H.State(s.m, s.cs), c, ev.at, ev.data, H.State(s'.m, s'.cs), lo, hi);
    ClientEffect(s, ev, s');
  }

  /** Mapping a page with its entry in somebody's block is a write to this block: the heap stays well formed
      and four bytes of the block become the entry. */
  lemma EntryInBlock(s: System, lo: nat, hi: nat, v: nat, physical: nat, flags: Entry, c: Chunk, at: nat, s': System)
    requires Booted(s, lo, hi) && v < 0x10_0000 && physical < WORD && MapStep(s, 0, lo, hi, v, physical, flags, s')
    requires c in Live(s.cs) && 4 * v == c.Payload() + at && at + 4 <= c.size
    ensures Booted(s', lo, hi)
    ensures var e := MapWord(T.LeafOf(s.m, 0, v), physical, flags);
            ClientStore(s') == H.Effect(ClientStore(s), H.Write(c, at, WordBytes(e)))
  {
    hide T.LeafOf, MapWord, MapStep, Flat, Tiles, Coalesced, Linked, H.Effect, H.Contents, WordBytes, LeafSet,
      T.PutEntry, ClientStore;
    BootRange(s, lo, hi);
    MapStores(s, lo, hi, v, physical, flags, s');
    var e := MapWord(T.LeafOf(s.m, 0, v), physical, flags);
    FlatStore(s.m, v, e);
    InHeap(s.cs, lo, hi, c);
    EntryIsWrite(s, lo, hi, 4 * v, e, c, at, s');
  }

  /** The entry of 0x80000000 is the link of the heap's first header. Mapping this page keeps the headers in
      step with the chunks only if the entry happens to be the address of the second chunk; never in a heap
      of one chunk. */
  lemma EntryInHeader(s: System, physical: nat, flags: Entry, s': System)
    requires Booted(s, HEAP_START, HEAP_END) && physical < WORD
    requires MapStep(s, 0, HEAP_START, HEAP_END, 0x8_0000, physical, flags, s')
    ensures Linked(s'.m, s'.cs) <==> MapWord(T.LeafOf(s.m, 0, 0x8_0000), physical, flags) as int == NextOf(s.cs, 0)
    ensures |s.cs| == 1 ==> !Linked(s'.m, s'.cs)
  {
    hide T.LeafOf, T.EntryAt, MapWord, MapStep, Tiles, Coalesced, Linked, T.PutEntry, Flat, Present, Bit31, Shown;
    var e := MapWord(T.LeafOf(s.m, 0, 0x8_0000), physical, flags);
    StartsHere(s.cs, HEAP_START, HEAP_END);
    MapStores(s, HEAP_START, HEAP_END, 0x8_0000, physical, flags, s');
    FirstLink(s.m, s.cs, e);
    MappedEntry(T.LeafOf(s.m, 0, 0x8_0000), physical, flags);
    NotNull(e);
  }

  lemma StartsHere(cs: seq<Chunk>, lo: nat, hi: nat)
    requires Tiles(cs, lo, hi)
    ensures cs != [] && cs[0].addr == lo
  {
  }

  lemma NotNull(e: Entry)
    requires Present(e)
    ensures e as int != 0
  {
    ZeroEntry();
  }

  /** The first word of the first header is the link to the second chunk. */
  lemma FirstLink(m: Memory, cs: seq<Chunk>, e: Entry)
    requires Linked(m, cs) && cs != []
    ensures cs[0].addr + 4 <= |m|
    ensures Linked(T.PutEntry(m, cs[0].addr, e), cs) <==> e as int == NextOf(cs, 0)
  {
    hide Get32;
    var a := cs[0].addr;
    assert LinkedAt(m, cs, 0);
    var m' := T.PutEntry(m, a, e);
    LinkIsEntry(m, a, e);
    if Linked(m', cs) {
      assert LinkedAt(m', cs, 0);
    }
  }

  lemma LinkIsEntry(m: Memory, a: nat, e: Entry)
    requires a + 4 <= |m|
    ensures Get32(T.PutEntry(m, a, e), a) == e as int
    ensures Get32(m, a) == e as int ==> T.PutEntry(m, a, e) == m
  {
    FromWord(e);
    PutIsWrite(m, a, e);
    if Get32(m, a) == e as int {
      PutChanges(m, a, e);
    }
  }
}
