/** A page directory and its tables as they lie in memory, and the map from pages to frames they mean. */
module PageTables {
  import opened Bytes
  import opened BlockBits
  import opened PageBits
  import opened HeapLayout

  datatype Translation = Unmapped | Mapped(e: Entry)

  function EntryAt(m: Memory, a: nat): Entry
    requires a + 4 <= |m|
  {
    Get32(m, a) as bv32
  }

  /** Where the directory at `pd` keeps entry `i`, and where a table at `t` keeps entry `j`. */
  function EntryPos(t: nat, j: nat): nat { t + 4 * j }

  /** The two-level walk for page number `v`, the upper 20 bits of a virtual address. */
  function Translate(m: Memory, pd: nat, v: nat): Translation
    requires pd + PAGE <= |m| && v < 0x10_0000
  {
    var e := EntryAt(m, EntryPos(pd, v / 1024));
    if !Present(e) then Unmapped else
      var a := EntryPos(FrameOf(e), v % 1024);
      if a + 4 <= |m| && Present(EntryAt(m, a)) then Mapped(EntryAt(m, a)) else Unmapped
  }

  /** The walk in words: the upper ten bits of the page number select a word of the directory, its upper
      twenty bits the page of the table, the lower ten bits of the page number a word there. */
  lemma WalkInWords(m: Memory, pd: nat, v: nat)
    requires pd + 4096 <= |m| && v < 0x10_0000
    ensures var pde := EntryAt(m, pd + 4 * (v / 1024));
            var a := FrameOf(pde) + 4 * (v % 1024);
            Translate(m, pd, v) == if Present(pde) && a + 4 <= |m| && Present(EntryAt(m, a)) then Mapped(EntryAt(m, a))
                                   else Unmapped
  {
    hide EntryAt, Present, FrameOf;
  }

  /** Entries are little-endian words. */
  lemma EntryIsWord(m: Memory, a: nat)
    requires a + 4 <= |m|
    ensures EntryAt(m, a) == Get32(m, a) as bv32
  {
  }

  type Space = map<nat, Entry>

  function SpaceOf(m: Memory, pd: nat): Space
    requires pd + PAGE <= |m|
  {
    map v | 0 <= v < 0x10_0000 && Translate(m, pd, v).Mapped? :: Translate(m, pd, v).e
  }

  // ----- well-formed tables -----

  predicate ApartPages(a: nat, b: nat) { a + PAGE <= b || b + PAGE <= a }

  /** Nothing the heap does touches the page at `a`: it lies outside the heap or inside a live block. */
  ghost predicate Safe(live: set<Chunk>, lo: nat, hi: nat, a: nat) {
    a + PAGE <= lo || hi <= a || exists c :: c in live && c.Payload() <= a && a + PAGE <= c.End()
  }

  ghost predicate TableOk(m: Memory, pd: nat, live: set<Chunk>, lo: nat, hi: nat, t: nat) {
    PAGE <= t && t + PAGE <= |m| && ApartPages(t, pd) && Safe(live, lo, hi, t)
  }

  ghost predicate SlotOk(m: Memory, pd: nat, live: set<Chunk>, lo: nat, hi: nat, i: nat)
    requires i < 1024 && pd + PAGE <= |m|
  {
    var e := EntryAt(m, EntryPos(pd, i));
    if Present(e) then TableOk(m, pd, live, lo, hi, FrameOf(e)) else FrameOf(e) == 0
  }

  predicate HasTable(m: Memory, pd: nat, i: nat)
    requires pd + PAGE <= |m|
  {
    i < 1024 && Present(EntryAt(m, EntryPos(pd, i)))
  }

  function TableOf(m: Memory, pd: nat, i: nat): nat
    requires pd + PAGE <= |m| && i < 1024
  {
    FrameOf(EntryAt(m, EntryPos(pd, i)))
  }

  /** Directory and tables are pages of their own, outside the reach of the heap; page 0 holds none. */
  ghost predicate Paging(m: Memory, pd: nat, live: set<Chunk>, lo: nat, hi: nat) {
    && PAGE <= pd && pd + PAGE <= |m| <= WORD && (pd + PAGE <= lo || hi <= pd)
    && (forall i :: 0 <= i < 1024 ==> SlotOk(m, pd, live, lo, hi, i))
    && forall i, j :: 0 <= i < j && HasTable(m, pd, i) && HasTable(m, pd, j) ==>
         ApartPages(TableOf(m, pd, i), TableOf(m, pd, j))
  }

  /** The word that the two-level walk for page `v` ends in; 0 when there is no table for it. */
  function LeafOf(m: Memory, pd: nat, v: nat): Entry
    requires pd + PAGE <= |m| && v < 0x10_0000
  {
    var a := EntryPos(TableOf(m, pd, v / 1024), v % 1024);
    if HasTable(m, pd, v / 1024) && a + 4 <= |m| then EntryAt(m, a) else 0
  }

  /** The leaf decides the translation. */
  lemma LeafDecides(m: Memory, pd: nat, v: nat)
    requires pd + PAGE <= |m| && v < 0x10_0000
    ensures Translate(m, pd, v) == if Present(LeafOf(m, pd, v)) then Mapped(LeafOf(m, pd, v)) else Unmapped
  {
    hide EntryAt, FrameOf;
    ZeroEntry();
  }

  /** The directory slots that have tables keep them, except that slot `i` may be new. */
  ghost predicate SlotsKept(m: Memory, m': Memory, pd: nat, i: nat) {
    && pd + PAGE <= |m| == |m'|
    && forall k :: 0 <= k < 1024 && k != i ==>
         HasTable(m', pd, k) == HasTable(m, pd, k) && TableOf(m', pd, k) == TableOf(m, pd, k)
  }

  /** No slot changes. */
  const NO_SLOT: nat := 1024

  // ----- changes that leave the tables alone -----

  ghost predicate SamePage(m: Memory, m': Memory, t: nat) {
    |m| == |m'| && t + PAGE <= |m| && forall a :: t <= a < t + PAGE ==> m'[a] == m[a]
  }

  lemma SameEntry(m: Memory, m': Memory, t: nat, j: nat)
    requires SamePage(m, m', t) && j < 1024
    ensures EntryAt(m', EntryPos(t, j)) == EntryAt(m, EntryPos(t, j))
  {
    var a := EntryPos(t, j);
    assert m[a..a + 4] == m'[a..a + 4];
    Get32Same(m, a, m', a);
  }

  /** If directory and tables keep their bytes and stay safe, so does every leaf. */
  lemma PagingFrame(m: Memory, m': Memory, pd: nat, live: set<Chunk>, live': set<Chunk>, lo: nat, hi: nat)
    requires Paging(m, pd, live, lo, hi) && SamePage(m, m', pd)
    requires forall i :: 0 <= i < 1024 && HasTable(m, pd, i) ==>
               SamePage(m, m', TableOf(m, pd, i)) && Safe(live', lo, hi, TableOf(m, pd, i))
    ensures Paging(m', pd, live', lo, hi) && SlotsKept(m, m', pd, NO_SLOT)
    ensures forall v :: 0 <= v < 0x10_0000 ==> LeafOf(m', pd, v) == LeafOf(m, pd, v)
  {
    hide EntryAt, Present, FrameOf, Safe;
    forall i | 0 <= i < 1024
      ensures HasTable(m', pd, i) == HasTable(m, pd, i) && TableOf(m', pd, i) == TableOf(m, pd, i)
      ensures EntryAt(m', EntryPos(pd, i)) == EntryAt(m, EntryPos(pd, i))
    {
      SameEntry(m, m', pd, i);
    }
    forall i | 0 <= i < 1024 ensures SlotOk(m', pd, live', lo, hi, i) {
      SlotFrame(m, m', pd, live, live', lo, hi, i);
    }
    forall v | 0 <= v < 0x10_0000 ensures LeafOf(m', pd, v) == LeafOf(m, pd, v) {
      assert SlotOk(m, pd, live, lo, hi, v / 1024);
      if HasTable(m, pd, v / 1024) {
        SameEntry(m, m', TableOf(m, pd, v / 1024), v % 1024);
      }
    }
  }

  lemma SlotFrame(m: Memory, m': Memory, pd: nat, live: set<Chunk>, live': set<Chunk>, lo: nat, hi: nat, i: nat)
    requires pd + PAGE <= |m| && |m'| == |m| && i < 1024 && SlotOk(m, pd, live, lo, hi, i)
    requires EntryAt(m', EntryPos(pd, i)) == EntryAt(m, EntryPos(pd, i))
    requires HasTable(m, pd, i) ==> SamePage(m, m', TableOf(m, pd, i)) && Safe(live', lo, hi, TableOf(m, pd, i))
    ensures SlotOk(m', pd, live', lo, hi, i)
  {
    hide EntryAt, Present, FrameOf, Safe;
  }

  // ----- one entry changes -----

  function PutEntry(m: Memory, a: nat, e: Entry): (m': Memory)
    requires a + 4 <= |m|
    ensures |m'| == |m| && EntryAt(m', a) == e
    ensures forall b :: 0 <= b < |m| && !(a <= b < a + 4) ==> m'[b] == m[b]
    ensures forall b: nat {:trigger EntryAt(m', b)} ::
              b + 4 <= |m| && (b + 4 <= a || a + 4 <= b) ==> EntryAt(m', b) == EntryAt(m, b)
  {
    FromWord(e);
    Put32(m, a, e as int)
  }

  /** Writing entry `j` of the table in slot `i` changes the leaf of page `1024 * i + j` and of no other page. */
  lemma TableWrite(m: Memory, pd: nat, live: set<Chunk>, lo: nat, hi: nat, i: nat, j: nat, e: Entry)
    requires Paging(m, pd, live, lo, hi) && HasTable(m, pd, i) && j < 1024
    requires TableOf(m, pd, i) + PAGE <= |m|
    ensures var m' := PutEntry(m, EntryPos(TableOf(m, pd, i), j), e);
            && Paging(m', pd, live, lo, hi) && SlotsKept(m, m', pd, NO_SLOT)
            && forall v :: 0 <= v < 0x10_0000 ==>
                 LeafOf(m', pd, v) == if v == 1024 * i + j then e else LeafOf(m, pd, v)
  {
    hide EntryAt, Present, FrameOf, Safe, PutEntry;
    var t := TableOf(m, pd, i);
    var m' := PutEntry(m, EntryPos(t, j), e);
    assert SlotOk(m, pd, live, lo, hi, i);
    forall k | 0 <= k < 1024
      ensures HasTable(m', pd, k) == HasTable(m, pd, k) && TableOf(m', pd, k) == TableOf(m, pd, k)
      ensures EntryAt(m', EntryPos(pd, k)) == EntryAt(m, EntryPos(pd, k))
      ensures SlotOk(m', pd, live, lo, hi, k)
    {
      TableWriteSlot(m, pd, live, lo, hi, i, j, e, k);
    }
    forall v | 0 <= v < 0x10_0000
      ensures LeafOf(m', pd, v) == if v == 1024 * i + j then e else LeafOf(m, pd, v)
    {
      assert SlotOk(m, pd, live, lo, hi, v / 1024);
      if HasTable(m, pd, v / 1024) && v / 1024 != i {
        assert ApartPages(TableOf(m, pd, v / 1024), t);
      }
    }
  }

  lemma TableWriteSlot(m: Memory, pd: nat, live: set<Chunk>, lo: nat, hi: nat, i: nat, j: nat, e: Entry, k: nat)
    requires Paging(m, pd, live, lo, hi) && HasTable(m, pd, i) && j < 1024 && k < 1024
    requires TableOf(m, pd, i) + PAGE <= |m|
    ensures var m' := PutEntry(m, EntryPos(TableOf(m, pd, i), j), e);
            EntryAt(m', EntryPos(pd, k)) == EntryAt(m, EntryPos(pd, k)) && SlotOk(m', pd, live, lo, hi, k)
  {
    hide EntryAt, Present, FrameOf, Safe, PutEntry;
    var t := TableOf(m, pd, i);
    var m' := PutEntry(m, EntryPos(t, j), e);
    assert SlotOk(m, pd, live, lo, hi, i) && SlotOk(m, pd, live, lo, hi, k);
    if HasTable(m, pd, k) {
      var u := TableOf(m, pd, k);
      assert k != i ==> ApartPages(u, t);
    }
  }

  /** Hanging a zeroed page into an empty directory slot changes no leaf. */
  lemma InstallTable(m: Memory, pd: nat, live: set<Chunk>, lo: nat, hi: nat, i: nat, e: Entry)
    requires Paging(m, pd, live, lo, hi) && i < 1024 && !HasTable(m, pd, i)
    requires Present(e) && TableOk(m, pd, live, lo, hi, FrameOf(e))
    requires forall j :: 0 <= j < 1024 ==> EntryAt(m, EntryPos(FrameOf(e), j)) == 0
    requires forall k :: 0 <= k < 1024 && HasTable(m, pd, k) ==> ApartPages(TableOf(m, pd, k), FrameOf(e))
    ensures var m' := PutEntry(m, EntryPos(pd, i), e);
            && Paging(m', pd, live, lo, hi) && SlotsKept(m, m', pd, i)
            && HasTable(m', pd, i) && TableOf(m', pd, i) == FrameOf(e)
            && forall v :: 0 <= v < 0x10_0000 ==> LeafOf(m', pd, v) == LeafOf(m, pd, v)
  {
    hide EntryAt, Present, FrameOf, Safe, PutEntry;
    var m' := PutEntry(m, EntryPos(pd, i), e);
    forall k | 0 <= k < 1024
      ensures k != i ==> HasTable(m', pd, k) == HasTable(m, pd, k) && TableOf(m', pd, k) == TableOf(m, pd, k)
      ensures SlotOk(m', pd, live, lo, hi, k)
    {
      assert SlotOk(m, pd, live, lo, hi, k);
    }
    forall v | 0 <= v < 0x10_0000 ensures LeafOf(m', pd, v) == LeafOf(m, pd, v) {
      assert SlotOk(m, pd, live, lo, hi, v / 1024);
    }
  }

  /** Writing into page 0, where `unmap_page` ends up for a slot without a table, changes no leaf. */
  lemma PageZeroWrite(m: Memory, pd: nat, live: set<Chunk>, lo: nat, hi: nat, a: nat, e: Entry)
    requires Paging(m, pd, live, lo, hi) && a + 4 <= PAGE
    ensures var m' := PutEntry(m, a, e);
            && Paging(m', pd, live, lo, hi) && SlotsKept(m, m', pd, NO_SLOT)
            && forall v :: 0 <= v < 0x10_0000 ==> LeafOf(m', pd, v) == LeafOf(m, pd, v)
  {
    hide EntryAt, Present, FrameOf, Safe, PutEntry;
    var m' := PutEntry(m, a, e);
    forall i | 0 <= i < 1024 && HasTable(m, pd, i)
      ensures SamePage(m, m', TableOf(m, pd, i)) && Safe(live, lo, hi, TableOf(m, pd, i))
    {
      assert SlotOk(m, pd, live, lo, hi, i);
    }
    PagingFrame(m, m', pd, live, live, lo, hi);
  }

  // ----- the map -----

  /** One leaf changed, all others stayed: one update of the map. */
  lemma SpaceUpdate(m: Memory, m': Memory, pd: nat, v: nat, e: Entry)
    requires pd + PAGE <= |m| && |m'| == |m| && v < 0x10_0000
    requires forall u :: 0 <= u < 0x10_0000 ==> LeafOf(m', pd, u) == if u == v then e else LeafOf(m, pd, u)
    ensures SpaceOf(m', pd) == if Present(e) then SpaceOf(m, pd)[v := e] else SpaceOf(m, pd) - {v}
  {
    hide Translate, Present, LeafOf;
    forall u | 0 <= u < 0x10_0000
      ensures Translate(m', pd, u) ==
              if u == v then (if Present(e) then Mapped(e) else Unmapped) else Translate(m, pd, u)
    {
      LeafDecides(m, pd, u);
      LeafDecides(m', pd, u);
    }
  }

  lemma InSpace(m: Memory, pd: nat, v: nat)
    requires pd + PAGE <= |m| && v < 0x10_0000
    ensures v in SpaceOf(m, pd) <==> Present(LeafOf(m, pd, v))
    ensures v in SpaceOf(m, pd) ==> SpaceOf(m, pd)[v] == LeafOf(m, pd, v)
  {
    hide Translate, Present, LeafOf;
    LeafDecides(m, pd, v);
  }
}
