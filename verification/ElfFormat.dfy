/** The parts of a 32-bit ELF file that the loader reads, and the image it is meant to build. */
module ElfFormat {
  import opened Bytes
  import opened MemOps
  import opened Patches
  import opened SymTable

  const EHDR_SIZE: nat := 52
  const PHDR_SIZE: nat := 32
  const SHDR_SIZE: nat := 40
  const SYM_SIZE: nat := 16
  const REL_SIZE: nat := 8

  const PT_LOAD: nat := 1
  const SHT_SYMTAB: nat := 2
  const SHT_REL: nat := 9
  const SHT_DYNSYM: nat := 11
  const R_386_JMP_SLOT: nat := 7

  /** The word or half-word at an offset of the file; 0 where the file has ended. */
  function W(elf: Memory, at: nat): (v: nat)
    ensures v < WORD
  {
    if at + 4 <= |elf| then Get32(elf, at) else 0
  }

  function H(elf: Memory, at: nat): nat { if at + 2 <= |elf| then Get16(elf, at) else 0 }

  // File header.
  function PhOff(elf: Memory): nat { W(elf, 28) }
  function ShOff(elf: Memory): nat { W(elf, 32) }
  function PhNum(elf: Memory): nat { H(elf, 44) }
  function ShNum(elf: Memory): nat { H(elf, 48) }

  // Program header `i`.
  function Ph(elf: Memory, i: nat): nat { PhOff(elf) + PHDR_SIZE * i }
  function PType(elf: Memory, i: nat): nat { W(elf, Ph(elf, i)) }
  function POffset(elf: Memory, i: nat): nat { W(elf, Ph(elf, i) + 4) }
  function PVaddr(elf: Memory, i: nat): nat { W(elf, Ph(elf, i) + 8) }
  function PFilesz(elf: Memory, i: nat): nat { W(elf, Ph(elf, i) + 16) }

  // Section header `i`.
  function Sh(elf: Memory, i: nat): nat { ShOff(elf) + SHDR_SIZE * i }
  function SType(elf: Memory, i: nat): nat { W(elf, Sh(elf, i) + 4) }
  function SOffset(elf: Memory, i: nat): nat { W(elf, Sh(elf, i) + 16) }
  function SSize(elf: Memory, i: nat): nat { W(elf, Sh(elf, i) + 20) }
  function SLink(elf: Memory, i: nat): nat { W(elf, Sh(elf, i) + 24) }

  /** The C string at an offset of the file. */
  function Name(elf: Memory, at: nat): seq<byte>
    decreases |elf| - at
  {
    if at < |elf| && elf[at] != 0 then [elf[at]] + Name(elf, at + 1) else []
  }

  ghost predicate Terminated(elf: Memory, at: nat) {
    at + |Name(elf, at)| < |elf|
  }

  lemma {:induction false} NameIsCString(elf: Memory, at: nat)
    requires Terminated(elf, at)
    ensures CString(elf, at, Name(elf, at))
    decreases |elf| - at
  {
    if elf[at] == 0 {
    } else {
      NameIsCString(elf, at + 1);
      var s := Name(elf, at);
      assert s[1..] == Name(elf, at + 1) == elf[at + 1..at + |s|];
      assert s == [elf[at]] + s[1..] == elf[at..at + |s|];
    }
  }

  /** The first section of a type, or -1. */
  function FindSection(elf: Memory, t: nat, i: nat): (r: int)
    requires i <= ShNum(elf)
    ensures r == -1 || (i <= r < ShNum(elf) && SType(elf, r) == t)
    ensures forall j :: i <= j < (if r == -1 then ShNum(elf) else r) ==> SType(elf, j) != t
    decreases ShNum(elf) - i
  {
    if i == ShNum(elf) then -1
    else if SType(elf, i) == t then i
    else FindSection(elf, t, i + 1)
  }

  /** Where the symbols of section `t` and their names lie. */
  function SymsAt(elf: Memory, t: nat): nat { SOffset(elf, t) }
  function StringsAt(elf: Memory, t: nat): nat { SOffset(elf, SLink(elf, t)) }

  /** The name of symbol `k` of the table at `syms` with names at `strings`. */
  function SymNameAt(elf: Memory, syms: nat, strings: nat, k: nat): nat {
    strings + W(elf, syms + SYM_SIZE * k)
  }

  // ----- the image -----

  function Loads(elf: Memory, i: nat): bool {
    PType(elf, i) == PT_LOAD && PFilesz(elf, i) != 0
  }

  function Segment(elf: Memory, i: nat): Patch {
    var from, n := POffset(elf, i), PFilesz(elf, i);
    Patch(PVaddr(elf, i), if from + n <= |elf| then elf[from..from + n] else [])
  }

  /** The first `k` program headers, as patches of the image. */
  function Segments(elf: Memory, k: nat): seq<Patch> {
    if k == 0 then []
    else Segments(elf, k - 1) + if Loads(elf, k - 1) then [Segment(elf, k - 1)] else []
  }

  // Relocation `j` of section `i`.
  function Rel(elf: Memory, i: nat, j: nat): nat { SOffset(elf, i) + REL_SIZE * j }
  function ROffset(elf: Memory, i: nat, j: nat): nat { W(elf, Rel(elf, i, j)) }
  function RType(elf: Memory, i: nat, j: nat): nat { W(elf, Rel(elf, i, j) + 4) % 0x100 }
  function RSym(elf: Memory, i: nat, j: nat): nat { W(elf, Rel(elf, i, j) + 4) / 0x100 }
  function RelCount(elf: Memory, i: nat): nat { SSize(elf, i) / REL_SIZE }

  function RName(elf: Memory, dyn: nat, i: nat, j: nat): nat {
    SymNameAt(elf, SymsAt(elf, dyn), StringsAt(elf, dyn), RSym(elf, i, j))
  }

  function Slot(elf: Memory, entries: seq<Symbol>, dyn: nat, i: nat, j: nat): Patch {
    Patch(ROffset(elf, i, j), Encode32(Resolve(entries, Name(elf, RName(elf, dyn, i, j))) % WORD))
  }

  function SectionSlots(elf: Memory, entries: seq<Symbol>, dyn: nat, i: nat, k: nat): seq<Patch> {
    if k == 0 then []
    else SectionSlots(elf, entries, dyn, i, k - 1)
         + if RType(elf, i, k - 1) == R_386_JMP_SLOT then [Slot(elf, entries, dyn, i, k - 1)] else []
  }

  /** The jump slots of the first `k` sections. */
  function Slots(elf: Memory, entries: seq<Symbol>, dyn: nat, k: nat): seq<Patch> {
    if k == 0 then []
    else Slots(elf, entries, dyn, k - 1)
         + if SType(elf, k - 1) == SHT_REL then SectionSlots(elf, entries, dyn, k - 1, RelCount(elf, k - 1)) else []
  }

  // ----- what the loader takes for granted -----

  ghost predicate SegmentOk(elf: Memory, size: nat, i: nat) {
    Loads(elf, i) ==> POffset(elf, i) + PFilesz(elf, i) <= |elf| && PVaddr(elf, i) + PFilesz(elf, i) <= size
  }

  ghost predicate RelOk(elf: Memory, size: nat, dyn: nat, i: nat, j: nat) {
    && Rel(elf, i, j) + REL_SIZE <= |elf|
    && SymsAt(elf, dyn) + SYM_SIZE * (RSym(elf, i, j) + 1) <= |elf|
    && (RType(elf, i, j) == R_386_JMP_SLOT ==> ROffset(elf, i, j) + 4 <= size && Terminated(elf, RName(elf, dyn, i, j)))
  }

  ghost predicate RelSectionOk(elf: Memory, size: nat, dyn: nat, i: nat) {
    SType(elf, i) == SHT_REL ==> forall j :: 0 <= j < RelCount(elf, i) ==> RelOk(elf, size, dyn, i, j)
  }

  ghost predicate SymbolOk(elf: Memory, t: nat, k: nat) {
    && SymsAt(elf, t) + SYM_SIZE * (k + 1) <= |elf|
    && Terminated(elf, SymNameAt(elf, SymsAt(elf, t), StringsAt(elf, t), k))
  }

  /** Tables inside the file, segments and slots inside the image, names terminated; a dynamic and a
      static symbol table exist. */
  ghost predicate WellFormed(elf: Memory, size: nat) {
    && EHDR_SIZE <= |elf|
    && Ph(elf, PhNum(elf)) <= |elf| && Sh(elf, ShNum(elf)) <= |elf|
    && (forall i :: 0 <= i < PhNum(elf) ==> SegmentOk(elf, size, i))
    && var dyn, sym := FindSection(elf, SHT_DYNSYM, 0), FindSection(elf, SHT_SYMTAB, 0);
    && dyn >= 0 && SLink(elf, dyn) < ShNum(elf)
    && (forall i :: 0 <= i < ShNum(elf) ==> RelSectionOk(elf, size, dyn, i))
    && sym >= 0 && SLink(elf, sym) < ShNum(elf)
    && (forall k :: 0 <= k < SSize(elf, sym) / SYM_SIZE ==> SymbolOk(elf, sym, k))
  }

  ghost predicate HasMagic(elf: Memory) {
    |elf| >= 4 && elf[0] == 0x7F && elf[1] == 0x45 && elf[2] == 0x4C && elf[3] == 0x46
  }

  lemma {:induction false} SegmentsFit(elf: Memory, size: nat, k: nat)
    requires k <= PhNum(elf) && forall i :: 0 <= i < PhNum(elf) ==> SegmentOk(elf, size, i)
    ensures Fit(Segments(elf, k), size)
  {
    if k == 0 {
    } else {
      SegmentsFit(elf, size, k - 1);
      assert SegmentOk(elf, size, k - 1);
    }
  }

  lemma {:induction false} SectionSlotsFit(elf: Memory, size: nat, entries: seq<Symbol>, dyn: nat, i: nat, k: nat)
    requires k <= RelCount(elf, i) && forall j :: 0 <= j < RelCount(elf, i) ==> RelOk(elf, size, dyn, i, j)
    ensures Fit(SectionSlots(elf, entries, dyn, i, k), size)
  {
    if k == 0 {
    } else {
      SectionSlotsFit(elf, size, entries, dyn, i, k - 1);
      assert RelOk(elf, size, dyn, i, k - 1);
    }
  }

  lemma {:induction false} SlotsFit(elf: Memory, size: nat, entries: seq<Symbol>, dyn: nat, k: nat)
    requires k <= ShNum(elf) && forall i :: 0 <= i < ShNum(elf) ==> RelSectionOk(elf, size, dyn, i)
    ensures Fit(Slots(elf, entries, dyn, k), size)
  {
    if k == 0 {
    } else {
      SlotsFit(elf, size, entries, dyn, k - 1);
      assert RelSectionOk(elf, size, dyn, k - 1);
      if SType(elf, k - 1) == SHT_REL {
        SectionSlotsFit(elf, size, entries, dyn, k - 1, RelCount(elf, k - 1));
      }
    }
  }

  function Zeros(n: nat): (r: seq<byte>)
    ensures |r| == n
  {
    seq(n, _ => 0 as byte)
  }

  /** The image: zeros, under the loadable segments in order, under the jump slots in order. */
  ghost function Image(elf: Memory, size: nat, entries: seq<Symbol>): (img: seq<byte>)
    requires WellFormed(elf, size)
    ensures |img| == size
  {
    var dyn := FindSection(elf, SHT_DYNSYM, 0);
    SegmentsFit(elf, size, PhNum(elf));
    SlotsFit(elf, size, entries, dyn, ShNum(elf));
    ApplyAll(ApplyAll(Zeros(size), Segments(elf, PhNum(elf))), Slots(elf, entries, dyn, ShNum(elf)))
  }

  // ----- what the image holds, stated without the order of construction -----

  /** Program header `i` is the last loadable segment to cover address `a`; -1 when none does. */
  ghost predicate LastSegment(elf: Memory, a: nat, i: int) {
    && -1 <= i < PhNum(elf)
    && (i >= 0 ==> Loads(elf, i) && Segment(elf, i).Covers(a))
    && forall j :: i < j < PhNum(elf) ==> !(Loads(elf, j) && Segment(elf, j).Covers(a))
  }

  lemma {:induction false} SegmentsLast(elf: Memory, a: nat, i: int, k: nat)
    requires -1 <= i < k
    requires i >= 0 ==> Loads(elf, i) && Segment(elf, i).Covers(a)
    requires forall j :: i < j < k ==> !(Loads(elf, j) && Segment(elf, j).Covers(a))
    ensures var ps := Segments(elf, k); var c := LastCovering(ps, a);
            if i >= 0 then c >= 0 && ps[c] == Segment(elf, i) else c == -1
  {
    hide Segment, Loads, LastCovering;
    LastCoveringNone(a);
    if k == 0 {
    } else {
      var p := Segment(elf, k - 1);
      LastCoveringOne(p, a);
      LastCoveringConcat(Segments(elf, k - 1), if Loads(elf, k - 1) then [p] else [], a);
      if i < k - 1 {
        SegmentsLast(elf, a, i, k - 1);
      }
    }
  }

  lemma LastCoveringNone(a: nat)
    ensures LastCovering([], a) == -1
  {
  }

  /** A jump slot among the first `k` sections: relocation `j` of section `i`. */
  ghost predicate SlotBefore(elf: Memory, k: nat, i: nat, j: nat) {
    i < k && SType(elf, i) == SHT_REL && j < RelCount(elf, i) && RType(elf, i, j) == R_386_JMP_SLOT
  }

  ghost predicate IsSlot(elf: Memory, i: nat, j: nat) {
    SlotBefore(elf, ShNum(elf), i, j)
  }

  lemma {:induction false} SectionSlotMember(elf: Memory, entries: seq<Symbol>, dyn: nat, i: nat, k: nat, p: Patch)
    ensures p in SectionSlots(elf, entries, dyn, i, k) <==>
            exists j :: 0 <= j < k && RType(elf, i, j) == R_386_JMP_SLOT && p == Slot(elf, entries, dyn, i, j)
  {
    hide Slot, RType;
    if k == 0 {
    } else {
      SectionSlotMember(elf, entries, dyn, i, k - 1, p);
    }
  }

  lemma {:induction false} SlotMember(elf: Memory, entries: seq<Symbol>, dyn: nat, k: nat, p: Patch)
    ensures p in Slots(elf, entries, dyn, k) <==>
            exists i: nat, j: nat :: SlotBefore(elf, k, i, j) && p == Slot(elf, entries, dyn, i, j)
  {
    hide Slot, RType, SType, RelCount, SectionSlots;
    if k == 0 {
    } else {
      SlotMember(elf, entries, dyn, k - 1, p);
      SectionSlotMember(elf, entries, dyn, k - 1, RelCount(elf, k - 1), p);
      assert forall i: nat, j: nat :: SlotBefore(elf, k, i, j) <==>
        SlotBefore(elf, k - 1, i, j) || (i == k - 1 && SlotBefore(elf, k, k - 1, j));
    }
  }

  /** Every slot that reaches byte `a` is one of the file's. */
  lemma CoveringSlot(elf: Memory, entries: seq<Symbol>, dyn: nat, a: nat)
    ensures var slots := Slots(elf, entries, dyn, ShNum(elf)); var c := LastCovering(slots, a);
            c >= 0 ==> exists i: nat, j: nat :: IsSlot(elf, i, j) && slots[c] == Slot(elf, entries, dyn, i, j)
                                               && ROffset(elf, i, j) <= a < ROffset(elf, i, j) + 4
    ensures forall i: nat, j: nat :: IsSlot(elf, i, j) && ROffset(elf, i, j) <= a < ROffset(elf, i, j) + 4
                                     ==> LastCovering(Slots(elf, entries, dyn, ShNum(elf)), a) >= 0
  {
    var slots := Slots(elf, entries, dyn, ShNum(elf));
    var c := LastCovering(slots, a);
    if c >= 0 {
      SlotMember(elf, entries, dyn, ShNum(elf), slots[c]);
      var i: nat, j: nat :| SlotBefore(elf, ShNum(elf), i, j) && slots[c] == Slot(elf, entries, dyn, i, j);
      assert IsSlot(elf, i, j);
    }
    forall i: nat, j: nat | IsSlot(elf, i, j) && ROffset(elf, i, j) <= a < ROffset(elf, i, j) + 4
      ensures LastCovering(slots, a) >= 0
    {
      SlotMember(elf, entries, dyn, ShNum(elf), Slot(elf, entries, dyn, i, j));
      SomeCovering(slots, a, Slot(elf, entries, dyn, i, j));
    }
  }

  /** Outside all jump slots a byte comes from the last loadable segment that covers it, or is 0. */
  lemma ImageOutsideSlots(elf: Memory, size: nat, entries: seq<Symbol>, a: nat, s: int)
    requires WellFormed(elf, size) && a < size && LastSegment(elf, a, s)
    requires forall i: nat, j: nat :: IsSlot(elf, i, j) ==> !(ROffset(elf, i, j) <= a < ROffset(elf, i, j) + 4)
    ensures Image(elf, size, entries)[a] == if s >= 0 then elf[POffset(elf, s) + (a - PVaddr(elf, s))] else 0
  {
    hide Slots, Segments, ApplyAll, LastCovering, IsSlot;
    var dyn := FindSection(elf, SHT_DYNSYM, 0);
    var segs, slots := Segments(elf, PhNum(elf)), Slots(elf, entries, dyn, ShNum(elf));
    var zeros := Zeros(size);
    SegmentsFit(elf, size, PhNum(elf));
    SlotsFit(elf, size, entries, dyn, ShNum(elf));
    LastWins(ApplyAll(zeros, segs), slots, a);
    CoveringSlot(elf, entries, dyn, a);
    LastWins(zeros, segs, a);
    SegmentsLast(elf, a, s, PhNum(elf));
    if s >= 0 {
      assert SegmentOk(elf, size, s);
    }
  }

  lemma SlotInImage(elf: Memory, size: nat, i: nat, j: nat)
    requires WellFormed(elf, size) && IsSlot(elf, i, j)
    ensures ROffset(elf, i, j) + 4 <= size
  {
    var dyn := FindSection(elf, SHT_DYNSYM, 0);
    assert RelSectionOk(elf, size, dyn, i) && RelOk(elf, size, dyn, i, j);
  }

  /** No other jump slot reaches into this one. */
  ghost predicate Alone(elf: Memory, i: nat, j: nat) {
    forall i': nat, j': nat :: IsSlot(elf, i', j') && (i', j') != (i, j) ==>
      ROffset(elf, i', j') + 4 <= ROffset(elf, i, j) || ROffset(elf, i, j) + 4 <= ROffset(elf, i', j')
  }

  lemma SlotByte(elf: Memory, size: nat, entries: seq<Symbol>, i: nat, j: nat, a: nat)
    requires WellFormed(elf, size) && IsSlot(elf, i, j) && Alone(elf, i, j)
    requires ROffset(elf, i, j) <= a < ROffset(elf, i, j) + 4 <= size
    ensures Image(elf, size, entries)[a] ==
            Slot(elf, entries, FindSection(elf, SHT_DYNSYM, 0), i, j).data[a - ROffset(elf, i, j)]
  {
    hide Slots, Segments, ApplyAll, LastCovering, IsSlot, ROffset, FindSection, Encode32, Resolve, Name;
    var dyn := FindSection(elf, SHT_DYNSYM, 0);
    SegmentsFit(elf, size, PhNum(elf));
    SlotsFit(elf, size, entries, dyn, ShNum(elf));
    LastWins(ApplyAll(Zeros(size), Segments(elf, PhNum(elf))), Slots(elf, entries, dyn, ShNum(elf)), a);
    CoveringSlot(elf, entries, dyn, a);
  }

  /** A jump slot that meets no other one holds the first address registered for its symbol, or 0. */
  lemma ImageAtSlot(elf: Memory, size: nat, entries: seq<Symbol>, i: nat, j: nat)
    requires WellFormed(elf, size) && Sound(entries)
    requires IsSlot(elf, i, j) && Alone(elf, i, j)
    ensures ROffset(elf, i, j) + 4 <= size
    ensures var name := Name(elf, RName(elf, FindSection(elf, SHT_DYNSYM, 0), i, j));
            Get32(Image(elf, size, entries), ROffset(elf, i, j)) == Resolve(entries, name)
  {
    hide Image, IsSlot, Alone, ROffset, FindSection, Resolve, Name, Get32;
    var at, img := ROffset(elf, i, j), Image(elf, size, entries);
    var dyn := FindSection(elf, SHT_DYNSYM, 0);
    SlotInImage(elf, size, i, j);
    ResolveBound(entries, Name(elf, RName(elf, dyn, i, j)));
    var data := Slot(elf, entries, dyn, i, j).data;
    forall a | at <= a < at + 4 ensures img[a] == data[a - at] {
      SlotByte(elf, size, entries, i, j, a);
    }
    assert img[at..at + 4] == data[0..4];
    Get32Same(img, at, data, 0);
  }

  lemma {:induction false} ResolveBound(entries: seq<Symbol>, name: seq<byte>)
    requires Sound(entries)
    ensures Resolve(entries, name) < WORD
  {
    if entries == [] {
    } else {
      assert forall i :: 1 <= i < |entries| ==> entries[i] == entries[1..][i - 1];
      ResolveBound(entries[1..], name);
    }
  }
}
