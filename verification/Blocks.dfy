/** The block manager: a bitmap of 4 KiB blocks and a separately kept count of the blocks in use. */
module Blocks {
  import opened Bytes
  import opened BlockBits
  import opened BlockRuns

  const BLOCK_SIZE: nat := 4096

  class BlockManager {
    const memoryMap: array<bv32>
    var maxBlocks: nat
    var usedBlocks: nat

    /** The search looks at the word behind the map as well, so the array has to hold it. */
    ghost predicate Valid()
      reads this, memoryMap
    {
      maxBlocks < 0x10_0000 && maxBlocks / 32 < memoryMap.Length && usedBlocks < WORD
    }

    /** The map proper. */
    ghost function Map(): BlockMap
      reads this, memoryMap
      requires Valid()
    {
      Flags(memoryMap[..], maxBlocks)
    }

    /** The map with every bit of the word behind it. */
    ghost function Extended(): BlockMap
      reads this, memoryMap
      requires Valid()
    {
      Flags(memoryMap[..], 32 * (maxBlocks / 32 + 1))
    }

    method SetBlock(bit: nat)
      requires Valid() && bit < 32 * (maxBlocks / 32 + 1)
      modifies memoryMap
      ensures Valid() && Extended() == old(Extended())[bit := true]
      ensures memoryMap[bit / 32] == Marked(old(memoryMap[bit / 32]), bit % 32, true)
      ensures forall k :: 0 <= k < memoryMap.Length && k != bit / 32 ==> memoryMap[k] == old(memoryMap[k])
      ensures bit < maxBlocks ==> Map() == old(Map())[bit := true]
      ensures bit >= maxBlocks ==> Map() == old(Map())
    {
      hide Mask, Flags, Or, AndNot;
      ghost var ws := memoryMap[..];
      FlagsUpdate(ws, 32 * (maxBlocks / 32 + 1), bit, true);
      memoryMap[bit / 32] := Or(memoryMap[bit / 32], Mask(bit % 32));
      assert memoryMap[..] == ws[bit / 32 := Marked(ws[bit / 32], bit % 32, true)];
      MapOfExtended(ws);
      MapOfExtended(memoryMap[..]);
    }

    lemma MapOfExtended(ws: seq<bv32>)
      requires maxBlocks / 32 < |ws|
      ensures Flags(ws, maxBlocks) == Flags(ws, 32 * (maxBlocks / 32 + 1))[..maxBlocks]
    {
    }

    method UnsetBlock(bit: nat)
      requires Valid() && bit < 32 * (maxBlocks / 32 + 1)
      modifies memoryMap
      ensures Valid() && Extended() == old(Extended())[bit := false]
      ensures memoryMap[bit / 32] == Marked(old(memoryMap[bit / 32]), bit % 32, false)
      ensures forall k :: 0 <= k < memoryMap.Length && k != bit / 32 ==> memoryMap[k] == old(memoryMap[k])
      ensures bit < maxBlocks ==> Map() == old(Map())[bit := false]
      ensures bit >= maxBlocks ==> Map() == old(Map())
    {
      hide Mask, Flags, Or, AndNot;
      ghost var ws := memoryMap[..];
      FlagsUpdate(ws, 32 * (maxBlocks / 32 + 1), bit, false);
      memoryMap[bit / 32] := AndNot(memoryMap[bit / 32], Mask(bit % 32));
      assert memoryMap[..] == ws[bit / 32 := Marked(ws[bit / 32], bit % 32, false)];
      MapOfExtended(ws);
      MapOfExtended(memoryMap[..]);
    }

    /** The innermost loop of the search: are the `n` bits from bit `j` of word `i` all clear? Bits past
        the end of the word are taken from the next one. */
    method RunIsFree(i: nat, j: nat, n: nat) returns (free: bool)
      requires Valid() && i < maxBlocks / 32 && j < 32 && 1 <= n <= 33
      ensures free == FreeRun(Extended(), 32 * i + j, n)
    {
      hide Mask, Meets;
      ghost var m := Extended();
      var count, freeBlocks := 0, 0;
      while count < n
        invariant count <= n && freeBlocks <= count && freeBlocks < n
        invariant freeBlocks == count <==> FreeRun(m, 32 * i + j, count)
      {
        ghost var b := 32 * i + j + count;
        assert m[b] == BitAt(memoryMap[..], b);
        if j + count > 31 && i + 1 <= maxBlocks / 32 {
          assert b / 32 == i + 1 && b % 32 == j + count - 32;
          if !Meets(memoryMap[i + 1], Mask(j + count - 32)) {
            freeBlocks := freeBlocks + 1;
          }
        } else {
          assert b / 32 == i && b % 32 == j + count;
          if !Meets(memoryMap[i], Mask(j + count)) {
            freeBlocks := freeBlocks + 1;
          }
        }
        if freeBlocks == n {
          return true;
        }
        count := count + 1;
      }
      free := false;
    }

    /** The lowest run of `n` free blocks, runs across words included, or -1. */
    method FindFirstFreeBlocks(n: nat) returns (r: int)
      requires Valid() && n <= 33
      ensures n == 0 ==> r == -1
      ensures n > 0 ==> FirstFreeRun(Extended(), 32 * (maxBlocks / 32), n, r)
    {
      hide Mask, Meets;
      if n == 0 {
        return -1;
      }
      ghost var m := Extended();
      var i := 0;
      while i < maxBlocks / 32
        invariant i <= maxBlocks / 32
        invariant forall s: nat :: s < 32 * i ==> !FreeRun(m, s, n)
      {
        if memoryMap[i] != 0xFFFF_FFFF {
          var j := 0;
          while j < 32
            invariant j <= 32
            invariant forall s: nat :: s < 32 * i + j ==> !FreeRun(m, s, n)
          {
            assert m[32 * i + j] == BitAt(memoryMap[..], 32 * i + j) by {
              assert (32 * i + j) / 32 == i && (32 * i + j) % 32 == j;
            }
            if !Meets(memoryMap[i], Mask(j)) {
              var free := RunIsFree(i, j, n);
              if free {
                return 32 * i + j;
              }
            }
            j := j + 1;
          }
        } else {
          FullWordUsed(memoryMap[..], i, m, n);
        }
        i := i + 1;
      }
      r := -1;
    }

    lemma FullWordUsed(ws: seq<bv32>, i: nat, m: BlockMap, n: nat)
      requires i < maxBlocks / 32 < |ws| && ws[i] == 0xFFFF_FFFF && n > 0
      requires m == Flags(ws, 32 * (maxBlocks / 32 + 1))
      ensures forall s: nat :: 32 * i <= s < 32 * i + 32 ==> !FreeRun(m, s, n)
    {
      forall s: nat | 32 * i <= s < 32 * i + 32 ensures !FreeRun(m, s, n) {
        assert s / 32 == i;
        FullWord(s % 32);
        assert m[s];
      }
    }

    // ----- the operations, on a map of whole words followed by a word that is never free -----

    ghost predicate Guarded()
      reads this, memoryMap
    {
      && Valid() && 0 < maxBlocks && maxBlocks % 32 == 0
      && memoryMap[maxBlocks / 32] == 0xFFFF_FFFF
    }

    ghost function TheBooks(): Books
      reads this, memoryMap
      requires Valid()
    {
      Books(Map(), usedBlocks)
    }

    lemma GuardedRuns(ws: seq<bv32>, n: nat, s: nat)
      requires maxBlocks / 32 < |ws| && maxBlocks % 32 == 0 && ws[maxBlocks / 32] == 0xFFFF_FFFF && n > 0
      ensures FreeRun(Flags(ws, 32 * (maxBlocks / 32 + 1)), s, n) <==> FreeRun(Flags(ws, maxBlocks), s, n)
    {
      var x, m := Flags(ws, 32 * (maxBlocks / 32 + 1)), Flags(ws, maxBlocks);
      MapOfExtended(ws);
      if s + n > maxBlocks && s + n <= |x| {
        var b := s + n - 1;
        assert b / 32 == maxBlocks / 32;
        FullWord(b % 32);
        assert x[b];
      }
      assert forall k :: 0 <= k < maxBlocks ==> x[k] == m[k];
    }

    lemma GuardedSearch(ws: seq<bv32>, n: nat, r: int)
      requires maxBlocks / 32 < |ws| && maxBlocks % 32 == 0 && ws[maxBlocks / 32] == 0xFFFF_FFFF && n > 0
      requires FirstFreeRun(Flags(ws, 32 * (maxBlocks / 32 + 1)), maxBlocks, n, r)
      ensures FirstFreeRun(Flags(ws, maxBlocks), maxBlocks, n, r)
    {
      forall k: nat
        ensures FreeRun(Flags(ws, 32 * (maxBlocks / 32 + 1)), k, n) <==> FreeRun(Flags(ws, maxBlocks), k, n) {
        GuardedRuns(ws, n, k);
      }
    }

    lemma FullMap(ws: seq<bv32>)
      requires maxBlocks <= 32 * |ws| && forall k :: 0 <= k < maxBlocks / 32 ==> ws[k] == 0xFFFF_FFFF
      requires maxBlocks % 32 == 0
      ensures Uniform(Flags(ws, maxBlocks), 0, maxBlocks, true) && Count(Flags(ws, maxBlocks)) == maxBlocks
    {
      forall b | 0 <= b < maxBlocks ensures Flags(ws, maxBlocks)[b] {
        FullWord(b % 32);
      }
      CountBounds(Flags(ws, maxBlocks));
    }

    /** `init_memory_manager` on the words at the start address: everything is in use. */
    constructor (words: array<bv32>, size: nat)
      requires size < WORD && size % (32 * BLOCK_SIZE) == 0 && size / BLOCK_SIZE / 32 < words.Length && size > 0
      requires words[size / BLOCK_SIZE / 32] == 0xFFFF_FFFF
      modifies words
      ensures Guarded() && memoryMap == words && maxBlocks == size / BLOCK_SIZE
      ensures Agrees(TheBooks()) && usedBlocks == maxBlocks && forall b :: 0 <= b < size / 4096 ==> Map()[b]
    {
      hide Flags, Count;
      memoryMap := words;
      maxBlocks := size / BLOCK_SIZE;
      usedBlocks := size / BLOCK_SIZE;
      new;
      for i := 0 to maxBlocks / 32
        invariant maxBlocks == usedBlocks == size / BLOCK_SIZE && memoryMap == words
        invariant i <= maxBlocks / 32 && words[maxBlocks / 32] == 0xFFFF_FFFF
        invariant forall k :: 0 <= k < i ==> words[k] == 0xFFFF_FFFF
      {
        words[i] := 0xFFFF_FFFF;
      }
      FullMap(words[..]);
    }

    method SetRange(lo: nat, n: nat)
      requires Guarded() && lo + n <= maxBlocks
      modifies memoryMap
      ensures Guarded() && Map() == Fill(old(Map()), lo, n, true)
    {
      hide Flags, Fill;
      ghost var m := Map();
      FillNone(m, lo, true);
      for i := 0 to n
        invariant Guarded() && Map() == Fill(m, lo, i, true)
      {
        SetBlock(lo + i);
        FillStep(m, lo, i, true);
      }
    }

    method UnsetRange(lo: nat, n: nat)
      requires Guarded() && lo + n <= maxBlocks
      modifies memoryMap
      ensures Guarded() && Map() == Fill(old(Map()), lo, n, false)
    {
      hide Flags, Fill;
      ghost var m := Map();
      FillNone(m, lo, false);
      for i := 0 to n
        invariant Guarded() && Map() == Fill(m, lo, i, false)
      {
        UnsetBlock(lo + i);
        FillStep(m, lo, i, false);
      }
    }

    method InitMemoryRegion(base: nat, size: nat)
      requires Guarded() && base / BLOCK_SIZE + size / BLOCK_SIZE <= maxBlocks
      modifies this`usedBlocks, memoryMap
      ensures Guarded() && TheBooks() == AfterRegion(old(TheBooks()), base / BLOCK_SIZE, size / BLOCK_SIZE)
    {
      hide Flags, Fill, U32;
      ghost var m, used := Map(), usedBlocks;
      var align, left := base / BLOCK_SIZE, size / BLOCK_SIZE;
      ghost var lo, n := align, left;
      FillNone(m, lo, false);
      while left > 0
        invariant 0 <= left <= n && align == lo + (n - left)
        invariant Guarded() && Map() == Fill(m, lo, n - left, false)
        invariant usedBlocks == U32(used - (n - left))
      {
        UnsetBlock(align);
        FillStep(m, lo, n - left, false);
        align := align + 1;
        U32Sum(used - (n - left), -1);
        usedBlocks := U32(usedBlocks - 1);
        left := left - 1;
      }
      SetBlock(0);
    }

    method DeinitMemoryRegion(base: nat, size: nat)
      requires Guarded() && base / BLOCK_SIZE + size / BLOCK_SIZE <= maxBlocks
      modifies this`usedBlocks, memoryMap
      ensures Guarded() && TheBooks() == AfterTake(old(TheBooks()), base / BLOCK_SIZE, size / BLOCK_SIZE)
    {
      hide Flags, Fill, U32;
      ghost var m, used := Map(), usedBlocks;
      var align, left := base / BLOCK_SIZE, size / BLOCK_SIZE;
      ghost var lo, n := align, left;
      FillNone(m, lo, true);
      while left > 0
        invariant 0 <= left <= n && align == lo + (n - left)
        invariant Guarded() && Map() == Fill(m, lo, n - left, true)
        invariant usedBlocks == U32(used + (n - left))
      {
        SetBlock(align);
        FillStep(m, lo, n - left, true);
        align := align + 1;
        U32Sum(used + (n - left), 1);
        usedBlocks := U32(usedBlocks + 1);
        left := left - 1;
      }
    }

    method AllocBlocks(n: nat) returns (address: nat)
      requires Guarded() && n <= 33
      modifies this`usedBlocks, memoryMap
      ensures Guarded() && Alloc(old(TheBooks()), n, address, TheBooks())
    {
      hide Flags, Fill, FirstFreeRun, FreeRun;
      if U32(maxBlocks - usedBlocks) <= n {
        return 0;
      }
      var s := FindFirstFreeBlocks(n);
      if n > 0 {
        GuardedSearch(memoryMap[..], n, s);
        SearchOutcome(Map(), n, s);
      }
      if s == -1 {
        return 0;
      }
      SetRange(s, n);
      usedBlocks := U32(usedBlocks + n);
      address := U32(s * BLOCK_SIZE);
    }

    method FreeBlocks(address: nat, n: nat)
      requires Guarded() && address / BLOCK_SIZE + n <= maxBlocks
      modifies this`usedBlocks, memoryMap
      ensures Guarded() && TheBooks() == AfterGive(old(TheBooks()), address / BLOCK_SIZE, n)
    {
      UnsetRange(address / BLOCK_SIZE, n);
      usedBlocks := U32(usedBlocks - n);
    }
  }
}
