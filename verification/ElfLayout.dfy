/** The structures of an ELF file word by word, and what the loader makes of them. */
module ElfLayout {
  import opened Bytes
  import opened MemOps
  import opened Patches
  import opened SymTable
  import opened ElfFormat
  import opened ElfLoader

  type word = x: nat | x < 0x1_0000_0000
  type half = x: nat | x < 0x1_0000

  /** Words and half-words as they lie in the file. */
  function Words(ws: seq<word>): (b: seq<byte>)
    ensures |b| == 4 * |ws|
  {
    if ws == [] then [] else Encode32(ws[0]) + Words(ws[1..])
  }

  function Halves(hs: seq<half>): (b: seq<byte>)
    ensures |b| == 2 * |hs|
  {
    if hs == [] then [] else [hs[0] % 256, hs[0] / 256] + Halves(hs[1..])
  }

  lemma {:induction false} WordAt(b: seq<byte>, ws: seq<word>, k: nat)
    requires b == Words(ws) && k < |ws|
    ensures Get32(b, 4 * k) == ws[k]
    decreases |ws|
  {
    hide Get32, Encode32;
    var rest := Words(ws[1..]);
    if k == 0 {
      assert b[0..4] == Encode32(ws[0])[0..4];
      Get32Same(b, 0, Encode32(ws[0]), 0);
    } else {
      WordAt(rest, ws[1..], k - 1);
      assert b[4 * k..4 * k + 4] == rest[4 * (k - 1)..4 * (k - 1) + 4];
      Get32Same(b, 4 * k, rest, 4 * (k - 1));
    }
  }

  lemma {:induction false} HalfAt(b: seq<byte>, hs: seq<half>, k: nat)
    requires b == Halves(hs) && k < |hs|
    ensures Get16(b, 2 * k) == hs[k]
    decreases |hs|
  {
    var rest := Halves(hs[1..]);
    if k == 0 {
    } else {
      HalfAt(rest, hs[1..], k - 1);
      assert b[2 * k] == rest[2 * (k - 1)] && b[2 * k + 1] == rest[2 * (k - 1) + 1];
    }
  }

  /** Word `k` of a table that lies at `at`. */
  lemma WordOfTable(elf: Memory, at: nat, ws: seq<word>, k: nat)
    requires at + 4 * |ws| <= |elf| && elf[at..at + 4 * |ws|] == Words(ws) && k < |ws|
    ensures W(elf, at + 4 * k) == ws[k]
  {
    hide Get32, Words;
    var table := elf[at..at + 4 * |ws|];
    WordAt(table, ws, k);
    WordInside(elf, at, 4 * |ws|, 4 * k);
  }

  lemma WordInside(elf: Memory, at: nat, n: nat, k: nat)
    requires at + n <= |elf| && k + 4 <= n
    ensures W(elf, at + k) == Get32(elf[at..at + n], k)
  {
    hide Get32;
    SubSlice(elf, at, n, k, 4);
    Get32Same(elf, at + k, elf[at..at + n], k);
  }

  lemma HalfOfTable(elf: Memory, at: nat, hs: seq<half>, k: nat)
    requires at + 2 * |hs| <= |elf| && elf[at..at + 2 * |hs|] == Halves(hs) && k < |hs|
    ensures H(elf, at + 2 * k) == hs[k]
  {
    HalfAt(Halves(hs), hs, k);
    assert elf[at + 2 * k] == Halves(hs)[2 * k] && elf[at + 2 * k + 1] == Halves(hs)[2 * k + 1];
  }

  // ----- the structures -----

  /** The file header behind its 16 bytes of identification. */
  lemma FileHeader(elf: Memory, etype: half, machine: half, version: word, entry: word, phoff: word, shoff: word,
                   flags: word, ehsize: half, phentsize: half, phnum: half, shentsize: half, shnum: half,
                   shstrndx: half)
    requires |elf| >= 52
    requires elf[16..20] == Halves([etype, machine])
    requires elf[20..40] == Words([version, entry, phoff, shoff, flags])
    requires elf[40..52] == Halves([ehsize, phentsize, phnum, shentsize, shnum, shstrndx])
    ensures PhOff(elf) == phoff && ShOff(elf) == shoff && PhNum(elf) == phnum && ShNum(elf) == shnum
  {
    hide W, H, Words, Halves;
    var ws: seq<word> := [version, entry, phoff, shoff, flags];
    var hs: seq<half> := [ehsize, phentsize, phnum, shentsize, shnum, shstrndx];
    WordOfTable(elf, 20, ws, 2);
    WordOfTable(elf, 20, ws, 3);
    HalfOfTable(elf, 40, hs, 2);
    HalfOfTable(elf, 40, hs, 4);
  }

  datatype ProgramHeader = ProgramHeader(ptype: word, offset: word, vaddr: word, paddr: word, filesz: word,
                                         memsz: word, flags: word, align: word) {
    function Fields(): seq<word> { [ptype, offset, vaddr, paddr, filesz, memsz, flags, align] }
  }

  ghost predicate HasProgramHeader(elf: Memory, i: nat, h: ProgramHeader) {
    var at := PhOff(elf) + 32 * i;
    at + 32 <= |elf| && elf[at..at + 32] == Words(h.Fields())
  }

  lemma ProgramHeaderFields(elf: Memory, i: nat, h: ProgramHeader)
    requires HasProgramHeader(elf, i, h)
    ensures PType(elf, i) == h.ptype && POffset(elf, i) == h.offset
    ensures PVaddr(elf, i) == h.vaddr && PFilesz(elf, i) == h.filesz
  {
    hide W, Words;
    var at := PhOff(elf) + 32 * i;
    WordOfTable(elf, at, h.Fields(), 0);
    WordOfTable(elf, at, h.Fields(), 1);
    WordOfTable(elf, at, h.Fields(), 2);
    WordOfTable(elf, at, h.Fields(), 4);
  }

  /** A section header: ten words, of which the loader reads type, offset, size and link. */
  lemma SectionHeaderFields(elf: Memory, i: nat, name: word, stype: word, flags: word, addr: word, offset: word,
                            size: word, link: word, info: word, addralign: word, entsize: word)
    requires var at := ShOff(elf) + 40 * i;
             && at + 40 <= |elf|
             && elf[at..at + 40] == Words([name, stype, flags, addr, offset, size, link, info, addralign, entsize])
    ensures SType(elf, i) == stype && SOffset(elf, i) == offset && SSize(elf, i) == size && SLink(elf, i) == link
  {
    hide W, Words;
    var at := ShOff(elf) + 40 * i;
    var ws: seq<word> := [name, stype, flags, addr, offset, size, link, info, addralign, entsize];
    WordOfTable(elf, at, ws, 1);
    WordOfTable(elf, at, ws, 4);
    WordOfTable(elf, at, ws, 5);
    WordOfTable(elf, at, ws, 6);
  }

  /** A relocation: the place, and the symbol's index above eight bits of type. */
  lemma RelocationFields(elf: Memory, i: nat, j: nat, offset: word, sym: nat, rtype: nat)
    requires sym < 0x100_0000 && rtype < 0x100
    requires var at := SOffset(elf, i) + 8 * j;
             at + 8 <= |elf| && elf[at..at + 8] == Words([offset, 256 * sym + rtype])
    ensures ROffset(elf, i, j) == offset && RSym(elf, i, j) == sym && RType(elf, i, j) == rtype
  {
    hide W, Words;
    var at := SOffset(elf, i) + 8 * j;
    var ws: seq<word> := [offset, 256 * sym + rtype];
    WordOfTable(elf, at, ws, 0);
    WordOfTable(elf, at, ws, 1);
  }

  // ----- the image in these fields -----

  /** Byte `a` of the image lies in the part of the segment that the file holds. */
  predicate Filled(h: ProgramHeader, a: nat) { h.ptype == 1 && h.vaddr <= a < h.vaddr + h.filesz }

  ghost predicate NoSlotAt(elf: Memory, a: nat) {
    forall i: nat, j: nat :: IsSlot(elf, i, j) ==> !(ROffset(elf, i, j) <= a < ROffset(elf, i, j) + 4)
  }

  lemma FilledIsCovered(elf: Memory, size: nat, i: nat, h: ProgramHeader, a: nat)
    requires HasProgramHeader(elf, i, h) && SegmentOk(elf, size, i)
    ensures Filled(h, a) <==> Loads(elf, i) && Segment(elf, i).Covers(a)
  {
    hide W, HasProgramHeader;
    ProgramHeaderFields(elf, i, h);
  }

  /** A byte of the image outside the jump slots: byte `a - p_vaddr` of the last segment that is filled there;
      0 if none is, in particular behind the `p_filesz` bytes of a segment alone in its place. */
  lemma ImageOfHeaders(elf: Memory, size: nat, entries: seq<Symbol>, hs: seq<ProgramHeader>, a: nat, i: int)
    requires WellFormed(elf, size) && a < size && NoSlotAt(elf, a)
    requires |hs| == PhNum(elf) && forall j :: 0 <= j < |hs| ==> HasProgramHeader(elf, j, hs[j])
    requires -1 <= i < |hs| && (i >= 0 ==> Filled(hs[i], a))
    requires forall j :: i < j < |hs| ==> !Filled(hs[j], a)
    ensures i >= 0 ==> hs[i].offset + (a - hs[i].vaddr) < |elf|
    ensures Image(elf, size, entries)[a] == if i >= 0 then elf[hs[i].offset + (a - hs[i].vaddr)] else 0
  {
    hide HasProgramHeader, IsSlot, ROffset, Image, Segment, FindSection, Loads, W, H;
    forall j | 0 <= j < |hs|
      ensures Filled(hs[j], a) <==> Loads(elf, j) && Segment(elf, j).Covers(a)
      ensures Filled(hs[j], a) ==> hs[j].offset + (a - hs[j].vaddr) < |elf|
    {
      assert SegmentOk(elf, size, j);
      FilledIsCovered(elf, size, j, hs[j], a);
      ProgramHeaderFields(elf, j, hs[j]);
    }
    assert LastSegment(elf, a, i);
    ImageOutsideSlots(elf, size, entries, a, i);
    if i >= 0 {
      ProgramHeaderFields(elf, i, hs[i]);
    }
  }

  /** Jump slots: relocations of type 7 in sections of type 9, eight bytes each. */
  lemma SlotMeans(elf: Memory, i: nat, j: nat)
    ensures IsSlot(elf, i, j) <==>
            i < ShNum(elf) && SType(elf, i) == 9 && j < SSize(elf, i) / 8 && RType(elf, i, j) == 7
  {
  }

  /** Section `t` is the first of its type. */
  ghost predicate FirstOfType(elf: Memory, t: nat, stype: nat) {
    t < ShNum(elf) && SType(elf, t) == stype && forall k :: 0 <= k < t ==> SType(elf, k) != stype
  }

  lemma FirstFound(elf: Memory, t: nat, stype: nat)
    requires FirstOfType(elf, t, stype)
    ensures FindSection(elf, stype, 0) == t
  {
    hide W, H;
  }

  /** Where the name of symbol `k` of section `t` is: its first word is an offset in the linked section. */
  function NamePlace(elf: Memory, t: nat, k: nat): nat {
    SOffset(elf, SLink(elf, t)) + W(elf, SOffset(elf, t) + 16 * k)
  }

  /** A lone jump slot holds the address registered for the name of its symbol in the first section of
      type 11. */
  lemma SlotHolds(elf: Memory, size: nat, entries: seq<Symbol>, dyn: nat, i: nat, j: nat, name: seq<byte>)
    requires WellFormed(elf, size) && SymTable.Sound(entries) && FirstOfType(elf, dyn, 11)
    requires IsSlot(elf, i, j) && Alone(elf, i, j)
    requires CString(elf, NamePlace(elf, dyn, RSym(elf, i, j)), name)
    ensures ROffset(elf, i, j) + 4 <= size
    ensures Get32(Image(elf, size, entries), ROffset(elf, i, j)) == Resolve(entries, name)
  {
    hide W, H, Image, IsSlot, Alone, Name, Get32, Resolve, WellFormed;
    FirstFound(elf, dyn, 11);
    ImageAtSlot(elf, size, entries, i, j);
    NameRead(elf, NamePlace(elf, dyn, RSym(elf, i, j)), name);
  }

  /** The name read at a C string is that string. */
  lemma {:induction false} NameRead(elf: Memory, at: nat, name: seq<byte>)
    requires CString(elf, at, name)
    ensures Name(elf, at) == name && Terminated(elf, at)
    decreases |name|
  {
    if name == [] {
    } else {
      Inside(elf, at, name, 0);
      assert elf[at + 1..at + 1 + |name[1..]|] == name[1..];
      NameRead(elf, at + 1, name[1..]);
    }
  }

  /** The entry point: the value of the first symbol called "main" in the first section of type 2, which is
      its second word, from the start of the image. */
  lemma EntryOfMain(elf: Memory, t: nat, dst: nat, names: seq<seq<byte>>, k: nat)
    requires FirstOfType(elf, t, 2) && k < |names| <= SSize(elf, t) / 16
    requires forall j :: 0 <= j < |names| ==> CString(elf, NamePlace(elf, t, j), names[j])
    requires names[k] == [0x6D, 0x61, 0x69, 0x6E] && names[k] !in names[..k]
    ensures EntryOf(elf, FindSection(elf, SHT_SYMTAB, 0), MAIN, dst, 0) ==
            (dst + W(elf, SOffset(elf, t) + 16 * k + 4)) % 4294967296
  {
    hide W, H, Name;
    FirstFound(elf, t, 2);
    forall j | 0 <= j <= k ensures Name(elf, SymNameAt(elf, SymsAt(elf, t), StringsAt(elf, t), j)) == names[j] {
      NameRead(elf, NamePlace(elf, t, j), names[j]);
    }
    forall j | 0 <= j < k ensures names[j] != names[k] {
      assert names[..k][j] == names[j];
    }
    EntryIsFirst(elf, t, MAIN, dst, 0, k);
  }

  // ----- which files the loader can take -----

  ghost predicate EndsSomewhere(elf: Memory, at: nat) {
    exists e :: at <= e < |elf| && elf[e] == 0
  }

  lemma {:induction false} EndsMeansTerminated(elf: Memory, at: nat)
    ensures Terminated(elf, at) <==> EndsSomewhere(elf, at)
    decreases |elf| - at
  {
    if at < |elf| && elf[at] != 0 {
      EndsMeansTerminated(elf, at + 1);
    } else if at < |elf| {
      assert elf[at] == 0;
    }
  }

  /** Tables inside the file; every segment that is to be loaded inside the file and the image; first sections
      of types 11 and 2, each linked to a section; every jump slot inside the image, every symbol inside the
      file, every name ended by a zero. */
  lemma WellFormedWhen(elf: Memory, size: nat, hs: seq<ProgramHeader>, dyn: nat, sym: nat)
    requires |elf| >= 52 && PhOff(elf) + 32 * PhNum(elf) <= |elf| && ShOff(elf) + 40 * ShNum(elf) <= |elf|
    requires |hs| == PhNum(elf) && forall i :: 0 <= i < |hs| ==> HasProgramHeader(elf, i, hs[i])
    requires FirstOfType(elf, dyn, 11) && SLink(elf, dyn) < ShNum(elf)
    requires FirstOfType(elf, sym, 2) && SLink(elf, sym) < ShNum(elf)
    requires forall i: nat, j: nat :: i < ShNum(elf) && SType(elf, i) == 9 && j < SSize(elf, i) / 8 ==>
               && SOffset(elf, i) + 8 * j + 8 <= |elf| && SOffset(elf, dyn) + 16 * RSym(elf, i, j) + 16 <= |elf|
               && (RType(elf, i, j) == 7 ==>
                     ROffset(elf, i, j) + 4 <= size && EndsSomewhere(elf, NamePlace(elf, dyn, RSym(elf, i, j))))
    requires forall k: nat :: k < SSize(elf, sym) / 16 ==>
               SOffset(elf, sym) + 16 * k + 16 <= |elf| && EndsSomewhere(elf, NamePlace(elf, sym, k))
    ensures WellFormed(elf, size) <==>
            forall i :: 0 <= i < |hs| && hs[i].ptype == 1 && hs[i].filesz > 0 ==>
              hs[i].offset + hs[i].filesz <= |elf| && hs[i].vaddr + hs[i].filesz <= size
  {
    hide W, H, Terminated, HasProgramHeader, EndsSomewhere, Name;
    FirstFound(elf, dyn, 11);
    FirstFound(elf, sym, 2);
    forall i | 0 <= i < |hs|
      ensures SegmentOk(elf, size, i) <==> (hs[i].ptype == 1 && hs[i].filesz > 0 ==>
                hs[i].offset + hs[i].filesz <= |elf| && hs[i].vaddr + hs[i].filesz <= size)
    {
      ProgramHeaderFields(elf, i, hs[i]);
    }
    forall i | 0 <= i < ShNum(elf) ensures RelSectionOk(elf, size, dyn, i) {
      forall j | 0 <= j < RelCount(elf, i) && SType(elf, i) == 9 ensures RelOk(elf, size, dyn, i, j) {
        EndsMeansTerminated(elf, NamePlace(elf, dyn, RSym(elf, i, j)));
      }
    }
    forall k | 0 <= k < SSize(elf, sym) / SYM_SIZE ensures SymbolOk(elf, sym, k) {
      EndsMeansTerminated(elf, NamePlace(elf, sym, k));
    }
  }

  lemma MagicMeans(elf: Memory)
    ensures HasMagic(elf) <==> |elf| >= 4 && elf[..4] == [0x7F, 0x45, 0x4C, 0x46]
  {
  }
}
