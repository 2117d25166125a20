/** The kernel heap: `heap_init`, `malloc`, `free` and `malloc_aligned` over the bytes of memory. */
module Heap {
  import opened Arith
  import opened Bytes
  import opened HeapLayout
  import opened HeapLinks
  import opened HeapRuns
  import opened Masks

  // ----- the writes of malloc and free, on memory values -----

  function Inserted(m: Memory, t: nat, size: nat, prev: nat, next: nat): (m': Memory)
    requires t + HEADER <= |m| && size < WORD && prev < WORD && next < WORD
    ensures |m'| == |m| && Get32(m', t + NEXT) == next
  {
    Put32(Put32(Put32(Put32(m, t + USED, 0), t + SIZE, size), t + PREV, prev), t + NEXT, next)
  }

  /** The seven stores that split the chunk at `r`: a new header at `t`, linked in before `next`. */
  function Carved(m: Memory, r: nat, n: nat, size: nat, next: nat): (m': Memory)
    requires n + HEADER < size && size < WORD && r + HEADER + size <= |m| <= WORD
    requires next < WORD && next + HEADER <= |m|
    ensures |m'| == |m|
  {
    var t := r + HEADER + n;
    var m1 := Inserted(m, t, size - n - HEADER, r, next);
    var m2 := if next != 0 then Put32(m1, next + PREV, t) else m1;
    Put32(Put32(m2, r + SIZE, n), r + NEXT, t)
  }

  lemma StartsAt(cs: seq<Chunk>, start: nat, end: nat)
    requires Tiles(cs, start, end)
    ensures |cs| > 0 && cs[0].addr == start
  {
  }

  lemma IsolatedTrans(m: Memory, m': Memory, m'': Memory, start: nat, end: nat, kept: set<Chunk>)
    requires Isolated(m, m', start, end, kept) && Isolated(m', m'', start, end, kept)
    ensures Isolated(m, m'', start, end, kept)
  {
  }

  ghost predicate Splittable(m: Memory, cs: seq<Chunk>, start: nat, end: nat, n: nat, i: nat) {
    && Tiles(cs, start, end) && Linked(m, cs) && end <= |m| <= WORD
    && i < |cs| && Fits(cs[i], n) && cs[i].size >= n + HEADER + 1
    && cs[i].End() <= |m|
  }

  /** Memory after `malloc` has split chunk `i` and taken its first part. */
  function SplitMemory(m: Memory, cs: seq<Chunk>, n: nat, i: nat): (m': Memory)
    requires InMemory(m, cs) && |m| <= WORD
    requires i < |cs| && cs[i].size >= n + HEADER + 1 && cs[i].End() <= |m|
    ensures |m'| == |m|
  {
    Put32(Carved(m, cs[i].addr, n, cs[i].size, NextOf(cs, i)), cs[i].addr + USED, 1)
  }

  lemma SplitWords(m: Memory, cs: seq<Chunk>, start: nat, end: nat, n: nat, i: nat)
    requires Splittable(m, cs, start, end, n, i)
    ensures var m', c, t, e := SplitMemory(m, cs, n, i), cs[i].addr, cs[i].addr + HEADER + n, NextOf(cs, i);
            && Get32(m', c + NEXT) == t && Get32(m', c + SIZE) == n && Get32(m', c + USED) == 1
            && Get32(m', t + USED) == 0 && Get32(m', t + SIZE) == cs[i].size - n - HEADER
            && Get32(m', t + PREV) == c && Get32(m', t + NEXT) == e
            && Untouched(m, m', c + PREV)
            && (e != 0 ==> Get32(m', e + PREV) == t && Untouched(m, m', e + NEXT)
                           && Untouched(m, m', e + USED) && Untouched(m, m', e + SIZE))
  {
    hide Get32, Put32;
    Disjoint(cs, start, end);
  }

  lemma SplitOthers(m: Memory, cs: seq<Chunk>, start: nat, end: nat, n: nat, i: nat, j: nat)
    requires Splittable(m, cs, start, end, n, i)
    requires j < |cs| && (j < i || j > i + 1)
    ensures OtherUntouched(m, SplitMemory(m, cs, n, i), cs, j)
  {
    hide Get32, Put32;
    Disjoint(cs, start, end);
    assert j < i ==> cs[j].End() <= cs[i].addr;
    assert j > i + 1 ==> cs[i].End() <= cs[i + 1].addr && cs[i + 1].End() <= cs[j].addr;
  }

  /** After a split the headers represent `AfterMalloc`, and no byte in use has changed. */
  lemma SplitCorrect(m: Memory, cs: seq<Chunk>, start: nat, end: nat, n: nat, i: nat)
    requires Splittable(m, cs, start, end, n, i)
    ensures Linked(SplitMemory(m, cs, n, i), AfterMalloc(cs, n, i))
    ensures Isolated(m, SplitMemory(m, cs, n, i), start, end, Live(cs))
  {
    SplitIsWritten(m, cs, start, end, n, i);
    SplitIsolated(m, cs, start, end, n, i);
    hide SplitMemory, SplitWritten, LinkedAt, Isolated, Tiles;
    SplitLinked(m, SplitMemory(m, cs, n, i), cs, n, i);
  }

  lemma SplitIsWritten(m: Memory, cs: seq<Chunk>, start: nat, end: nat, n: nat, i: nat)
    requires Splittable(m, cs, start, end, n, i)
    ensures InMemory(m, cs) && SplitWritten(m, SplitMemory(m, cs, n, i), cs, n, i)
  {
    hide Get32, Put32, Carved, OtherUntouched, SplitMemory;
    var m' := SplitMemory(m, cs, n, i);
    SplitWords(m, cs, start, end, n, i);
    forall j | 0 <= j < |cs| && (j < i || j > i + 1) ensures OtherUntouched(m, m', cs, j) {
      SplitOthers(m, cs, start, end, n, i, j);
    }
    NextChunk(m, cs, i);
  }

  lemma NextChunk(m: Memory, cs: seq<Chunk>, i: nat)
    requires InMemory(m, cs) && i < |cs|
    ensures i + 1 < |cs| ==> NextOf(cs, i) == cs[i + 1].addr != 0
  {
  }

  lemma SplitIsolated(m: Memory, cs: seq<Chunk>, start: nat, end: nat, n: nat, i: nat)
    requires Splittable(m, cs, start, end, n, i)
    ensures Isolated(m, SplitMemory(m, cs, n, i), start, end, Live(cs))
  {
    hide Get32, Put32;
    Disjoint(cs, start, end);
  }

  /** The same for a chunk that is taken whole. */
  lemma TakeCorrect(m: Memory, cs: seq<Chunk>, start: nat, end: nat, n: nat, i: nat)
    requires Tiles(cs, start, end) && Linked(m, cs) && end <= |m| <= WORD
    requires i < |cs| && Fits(cs[i], n) && cs[i].size < n + HEADER + 1
    ensures var m' := Put32(m, cs[i].addr + USED, 1);
            Linked(m', AfterMalloc(cs, n, i)) && Isolated(m, m', start, end, Live(cs))
  {
    hide Get32, Put32;
    Disjoint(cs, start, end);
    TilesSpaced(cs, start, end);
    MarkLinked(m, cs, i, true);
  }

  /** What a header says of its chunk. */
  lemma ReadHeader(m: Memory, cs: seq<Chunk>, start: nat, end: nat, i: nat)
    requires Tiles(cs, start, end) && Linked(m, cs) && end <= |m| <= WORD && i < |cs|
    ensures 0 < cs[i].addr && cs[i].addr + HEADER <= |m| && cs[i].End() <= |m|
    ensures Get32(m, cs[i].addr + NEXT) == NextOf(cs, i) && Get32(m, cs[i].addr + PREV) == PrevOf(cs, i)
    ensures Get32(m, cs[i].addr + USED) == Flag(cs[i].used) && Get32(m, cs[i].addr + SIZE) == cs[i].size
    ensures NextOf(cs, i) == 0 || (i + 1 < |cs| && cs[i].End() == NextOf(cs, i) && NextOf(cs, i) + HEADER <= |m|)
    ensures PrevOf(cs, i) == 0 || (i > 0 && cs[i - 1].End() == cs[i].addr)
  {
    hide Get32;
    Disjoint(cs, start, end);
    assert LinkedAt(m, cs, i);
    if i > 0 {
      assert cs[i - 1].End() == cs[i - 1 + 1].addr;
    }
  }

  predicate Apart(a: nat, b: nat) { a + 4 <= b || b + 4 <= a }

  /** The three words at `x`, `y` and `z` are all that was written. */
  ghost predicate Elsewhere(m: Memory, m': Memory, x: nat, y: nat, z: nat) {
    && |m| == |m'|
    && (forall a :: 0 <= a < |m| && !(x <= a < x + 4) && !(y <= a < y + 4) && !(z <= a < z + 4) ==> m'[a] == m[a])
    && (forall b: nat {:trigger Get32(m', b)} ::
          b + 4 <= |m| && Apart(b, x) && Apart(b, y) && Apart(b, z) ==> Get32(m', b) == Get32(m, b))
  }

  /** The stores of a merge, in either order: words `x` and `y` of the chunk, then the back link at
      `e + PREV` unless `e` is null. */
  function JoinMemory(m: Memory, x: nat, vx: nat, y: nat, vy: nat, e: nat, c: nat): (m': Memory)
    requires x + 4 <= |m| && y + 4 <= |m| && Apart(x, y) && e + HEADER <= |m|
    requires vx < WORD && vy < WORD && c < WORD
    requires e != 0 ==> Apart(e + PREV, x) && Apart(e + PREV, y)
    ensures |m'| == |m|
  {
    var m2 := Put32(Put32(m, x, vx), y, vy);
    if e != 0 then Put32(m2, e + PREV, c) else m2
  }

  lemma JoinWords(m: Memory, x: nat, vx: nat, y: nat, vy: nat, e: nat, c: nat)
    requires x + 4 <= |m| && y + 4 <= |m| && Apart(x, y) && e + HEADER <= |m|
    requires vx < WORD && vy < WORD && c < WORD
    requires e != 0 ==> Apart(e + PREV, x) && Apart(e + PREV, y)
    ensures var m' := JoinMemory(m, x, vx, y, vy, e, c);
            && Get32(m', x) == vx && Get32(m', y) == vy && (e != 0 ==> Get32(m', e + PREV) == c)
            && Elsewhere(m, m', x, y, if e == 0 then y else e + PREV)
            && Elsewhere(m, m', y, x, if e == 0 then x else e + PREV)
  {
    hide Get32, Put32;
  }

  lemma MergeIsolated(m: Memory, m': Memory, cs: seq<Chunk>, start: nat, end: nat, k: nat)
    requires Tiles(cs, start, end) && end <= |m|
    requires k + 1 < |cs|
    requires var c, e := cs[k].addr, NextOf(cs, k + 1);
             Elsewhere(m, m', c + NEXT, c + SIZE, if e == 0 then c + SIZE else e + PREV)
    ensures Isolated(m, m', start, end, Live(cs))
  {
    hide Get32;
    Disjoint(cs, start, end);
  }

  /** After the writes of a merge the headers represent `Merge`. */
  lemma MergeCorrect(m: Memory, m': Memory, cs: seq<Chunk>, start: nat, end: nat, k: nat)
    requires Tiles(cs, start, end) && Linked(m, cs) && end <= |m| <= WORD && |m'| == |m|
    requires k + 1 < |cs|
    requires var c, e := cs[k].addr, NextOf(cs, k + 1);
             && c + HEADER <= |m| && e + HEADER <= |m|
             && Elsewhere(m, m', c + NEXT, c + SIZE, if e == 0 then c + SIZE else e + PREV)
             && Get32(m', c + NEXT) == e && Get32(m', c + SIZE) == cs[k].size + cs[k + 1].size + HEADER
             && (e != 0 ==> Get32(m', e + PREV) == c)
    ensures Linked(m', Merge(cs, k))
  {
    hide Get32;
    Disjoint(cs, start, end);
    ReadHeader(m, cs, start, end, k + 1);
    assert cs[k].End() <= cs[k + 1].addr;
    forall j | 0 <= j < |cs| && (j < k || j > k + 2) ensures OtherUntouched(m, m', cs, j) {
      assert j < k ==> cs[j].End() <= cs[k].addr;
      assert j > k + 2 ==> cs[k + 1].End() <= cs[k + 2].addr && cs[k + 2].End() <= cs[j].addr;
    }
    MergeLinked(m, m', cs, k);
  }

  /** Two free neighbours and the place behind them: what the merge reads. */
  ghost predicate Joinable(m: Memory, cs: seq<Chunk>, k: nat) {
    && k + 1 < |cs| && cs[k].End() == cs[k + 1].addr && cs[k + 1].End() <= |m| <= WORD && 0 < cs[k].addr
    && Get32(m, cs[k].addr + SIZE) == cs[k].size
    && Get32(m, cs[k + 1].addr + SIZE) == cs[k + 1].size
    && Get32(m, cs[k + 1].addr + NEXT) == NextOf(cs, k + 1)
    && NextOf(cs, k + 1) + HEADER <= |m|
    && (NextOf(cs, k + 1) != 0 ==> cs[k + 1].End() == NextOf(cs, k + 1))
  }

  lemma TilesJoinable(m: Memory, cs: seq<Chunk>, start: nat, end: nat, k: nat)
    requires Tiles(cs, start, end) && Linked(m, cs) && end <= |m| <= WORD && k + 1 < |cs|
    ensures Joinable(m, cs, k)
  {
    ReadHeader(m, cs, start, end, k);
    ReadHeader(m, cs, start, end, k + 1);
  }

  function MergeMemory(m: Memory, cs: seq<Chunk>, k: nat, sizeFirst: bool): (m': Memory)
    requires Joinable(m, cs, k)
    ensures |m'| == |m|
  {
    var c, e, total := cs[k].addr, NextOf(cs, k + 1), cs[k].size + cs[k + 1].size + HEADER;
    if sizeFirst then JoinMemory(m, c + SIZE, total, c + NEXT, e, e, c)
    else JoinMemory(m, c + NEXT, e, c + SIZE, total, e, c)
  }

  lemma JoinCorrect(m: Memory, cs: seq<Chunk>, start: nat, end: nat, k: nat, sizeFirst: bool)
    requires Tiles(cs, start, end) && Linked(m, cs) && end <= |m| <= WORD
    requires Joinable(m, cs, k)
    ensures Linked(MergeMemory(m, cs, k, sizeFirst), Merge(cs, k))
    ensures Isolated(m, MergeMemory(m, cs, k, sizeFirst), start, end, Live(cs))
  {
    hide Get32, JoinMemory, Elsewhere, Isolated, Linked, Merge;
    var c, e, total := cs[k].addr, NextOf(cs, k + 1), cs[k].size + cs[k + 1].size + HEADER;
    if sizeFirst {
      JoinWords(m, c + SIZE, total, c + NEXT, e, e, c);
    } else {
      JoinWords(m, c + NEXT, e, c + SIZE, total, e, c);
    }
    MergeCorrect(m, MergeMemory(m, cs, k, sizeFirst), cs, start, end, k);
    MergeIsolated(m, MergeMemory(m, cs, k, sizeFirst), cs, start, end, k);
  }

  // ----- aligned allocation -----

  /** Where `malloc_aligned` puts the block inside the payload at `p`. */
  function AlignedAt(p: nat, a: nat): nat
    requires a > 0
  {
    WithoutBits(p + a + 3, a - 1)
  }

  /** For a power of two: the payload address and room for a pointer, rounded up. */
  lemma AlignedRounds(p: nat, a: nat)
    requires IsPowerOfTwo(a)
    ensures AlignedAt(p, a) == (p + a + 3) / a * a
  {
    MaskRounds(p + a + 3, a);
    hide IsPowerOfTwo, WithoutBits;
    RoundDownTimes(p + a + 3, a);
  }

  /** For every alignment the block lies behind room for a pointer and inside the payload it was cut from. */
  lemma AlignedInside(p: nat, a: nat, n: nat)
    requires a > 0
    ensures p + 4 <= AlignedAt(p, a) && AlignedAt(p, a) + n <= p + (n + a + 3)
  {
    MaskSplits(p + a + 3, a - 1);
  }

  /** The block of `n` bytes fits the bytes that the enlarged request asks `malloc` for exactly when that
      request does not wrap; otherwise it ends behind them. */
  lemma ContainedExactly(p: nat, a: nat, n: nat)
    requires 0 < a < WORD && n < WORD
    ensures AlignedAt(p, a) + n <= p + U32(n + a - 1 + 4) <==> n + a + 3 < WORD
  {
    AlignedInside(p, a, n);
  }

  /** All addresses that can be delivered are aligned exactly when the alignment is a power of two. */
  lemma AlignedExactly(a: nat)
    requires 0 < a && a + 3 < WORD
    ensures (forall p: nat :: p + a + 3 < WORD ==> AlignedAt(p, a) % a == 0) <==> IsPowerOfTwo(a)
  {
    if IsPowerOfTwo(a) {
      forall p: nat | p + a + 3 < WORD ensures AlignedAt(p, a) % a == 0 {
        MaskRounds(p + a + 3, a);
        RoundDownAligned(p + a + 3, a);
      }
    } else {
      MaskMisses(a);
      assert AlignedAt(WORD - 1 - a - 3, a) % a != 0;
    }
  }

  /** `free_aligned` reads the word below the block. That is where `malloc_aligned` saved the pointer if
      and only if the mask had nothing to remove. */
  lemma SavedPointerFound(p: nat, a: nat)
    requires a > 0
    ensures AlignedAt(p, a) - 4 == p + a - 1 <==> Common(p + a + 3, a - 1) == 0
    ensures IsPowerOfTwo(a) ==> (Common(p + a + 3, a - 1) == 0 <==> (p + 3) % a == 0)
  {
    MaskSplits(p + a + 3, a - 1);
    if IsPowerOfTwo(a) {
      MaskRounds(p + a + 3, a);
      hide WithoutBits, Common, IsPowerOfTwo;
      SameRemainder(p + 3, a);
    }
  }

  lemma SameRemainder(x: nat, a: nat)
    requires a > 0
    ensures (x + a) % a == x % a
  {
    assert (x / a + 1) * a == x / a * a + a;
    UniqueQuotient(x + a, a, x / a + 1, x % a);
  }

  /** When `malloc` fails, `malloc_aligned` still returns an address, never null. It is the alignment
      itself exactly for the powers of two from 4 on. */
  lemma FailureAddress(a: nat)
    requires a > 0
    ensures AlignedAt(0, a) >= 4
    ensures AlignedAt(0, a) == a <==> IsPowerOfTwo(a) && a >= 4
  {
    AlignedInside(0, a, 0);
    if IsPowerOfTwo(a) && a >= 4 {
      MaskRounds(a + 3, a);
      UniqueQuotient(a + 3, a, 1, 3);
    }
    if AlignedAt(0, a) == a {
      NothingLeft(a + 3, a - 1);
      ApartFromPredecessor(a);
    }
  }

  /** A first allocation of the running kernel: the heap starts at 2 MiB and pages are 4 KiB. */
  lemma SavedPointerLost()
    ensures AlignedAt(0x20_0010, 0x1000) - 4 != 0x20_0010 + 0x1000 - 1
  {
    MaskRounds(0x20_0010 + 0x1000 + 3, 0x1000);
  }

  /** The bytes the enlarged request leaves behind the aligned block. */
  lemma PayloadRoom(cs: seq<Chunk>, start: nat, end: nat, n: nat, i: nat)
    requires Tiles(cs, start, end) && i < |cs| && Fits(cs[i], n)
    ensures cs[i].Payload() + n < end && Granted(cs[i], n).End() <= end
    ensures Granted(cs[i], n) in Live(AfterMalloc(cs, n, i)) && Granted(cs[i], n).Payload() == cs[i].Payload()
    ensures Granted(cs[i], n) !in Live(cs) && Live(cs) <= Live(AfterMalloc(cs, n, i))
  {
    Disjoint(cs, start, end);
    MallocLive(cs, start, end, n, i);
  }

  /** A write inside one live block disturbs neither the headers nor any other block. */
  lemma WriteInside(m: Memory, cs: seq<Chunk>, start: nat, end: nat, c: Chunk, kept: set<Chunk>,
                    at: nat, data: seq<byte>)
    requires Invariant(State(m, cs), start, end)
    requires c in Live(cs) && at + |data| <= c.size
    requires kept <= Live(cs) && c !in kept
    ensures c.End() <= end
    ensures var m' := m[..c.Payload() + at] + data + m[c.Payload() + at + |data|..];
            Linked(m', cs) && Isolated(m, m', start, end, kept)
  {
    InHeap(cs, start, end, c);
    var m' := m[..c.Payload() + at] + data + m[c.Payload() + at + |data|..];
    var s, s' := State(m, cs), State(m', cs);
    assert WriteStep(s, c, at, data, s');
    WriteRefines(s, c, at, data, s', start, end);
    forall d, a | d in kept && d.Payload() <= a < d.End() && a < |m| ensures m'[a] == m[a] {
      ChunksApart(cs, start, end, c, d);
    }
  }

  /** What a caller learns from the result of `malloc`. */
  lemma GrantKnown(m: Memory, cs: seq<Chunk>, n: nat, p: nat, m1: Memory, cs1: seq<Chunk>, lo: nat, hi: nat)
    requires cs == [] || Invariant(State(m, cs), lo, hi)
    requires MallocStep(State(m, cs), n, p, State(m1, cs1), lo, hi)
    ensures p == 0 <==> FirstFit(cs, n) == |cs|
    ensures p == 0 ==> m1 == m && cs1 == cs
    ensures p != 0 ==> Invariant(State(m, cs), lo, hi) && p + n <= |m1|
  {
    hide Linked, Coalesced, AfterMalloc;
    var i := FirstFit(cs, n);
    if i < |cs| {
      Disjoint(cs, lo, hi);
      PayloadRoom(cs, lo, hi, n, i);
    }
  }

  /** Filling the block just granted is still a `malloc` step as far as the rest of the heap can tell. */
  lemma GrantFilled(m: Memory, cs: seq<Chunk>, n: nat, p: nat, m1: Memory, cs1: seq<Chunk>, lo: nat, hi: nat,
                    data: seq<byte>)
    requires Invariant(State(m, cs), lo, hi) && MallocStep(State(m, cs), n, p, State(m1, cs1), lo, hi)
    requires p != 0 && |data| == n && p + n <= |m1|
    ensures Invariant(State(Place(m1, p, data), cs1), lo, hi)
    ensures MallocStep(State(m, cs), n, p, State(Place(m1, p, data), cs1), lo, hi)
    ensures Place(m1, p, data)[p..p + n] == data
  {
    hide Linked, Tiles, Coalesced, AfterMalloc, Isolated;
    var i := FirstFit(cs, n);
    MallocTiles(cs, lo, hi, n, i);
    PayloadRoom(cs, lo, hi, n, i);
    MallocRefines(State(m, cs), n, p, State(m1, cs1), lo, hi);
    WriteInside(m1, cs1, lo, hi, Granted(cs[i], n), Live(cs), 0, data);
    IsolatedTrans(m, m1, Place(m1, p, data), lo, hi, Live(cs));
  }

  /** Storing below the heap disturbs nothing in it. */
  lemma SavedBelow(m: Memory, cs: seq<Chunk>, start: nat, end: nat, a: nat, v: nat)
    requires cs == [] || Tiles(cs, start, end)
    requires Linked(m, cs) && v < WORD && a + 4 <= start <= end <= |m|
    ensures Linked(Put32(m, a, v), cs)
  {
    hide Get32;
    if cs != [] {
      Disjoint(cs, start, end);
    }
    LinkedFrame(m, Put32(m, a, v), cs);
  }

  // ----- the heap -----

  class Heap {
    const ram: array<byte>
    const start: nat
    const size: nat
    var first: nat
    ghost var chunks: seq<Chunk>

    ghost predicate Valid()
      reads this, ram
    {
      && 0 < start && start + size <= ram.Length <= WORD
      && first == (if chunks == [] then 0 else chunks[0].addr)
      && (if size < HEADER then chunks == [] else Tiles(chunks, start, start + size) && Coalesced(chunks))
      && Linked(ram[..], chunks)
    }

    /** `heap_init`: one free chunk over the whole region, or no chunk when the header does not fit. */
    constructor (ram: array<byte>, start: nat, size: nat)
      requires 0 < start && start + size <= ram.Length <= WORD
      modifies ram
      ensures Valid() && this.ram == ram && this.start == start && this.size == size
      ensures chunks == if size < HEADER then [] else [Chunk(start, size - HEADER, false)]
      ensures forall a :: 0 <= a < ram.Length && !(start <= a < start + HEADER) ==> ram[a] == old(ram[a])
    {
      hide Get32, Put32;
      this.ram := ram;
      this.start := start;
      this.size := size;
      if size < HEADER {
        first := 0;
        chunks := [];
      } else {
        first := start;
        chunks := [Chunk(start, size - HEADER, false)];
      }
      new;
      if size >= HEADER {
        Store32(ram, first + USED, 0);
        Store32(ram, first + PREV, 0);
        Store32(ram, first + NEXT, 0);
        Store32(ram, first + SIZE, U32(size - HEADER));
      }
    }

    /** The scan of `malloc`: the lowest chunk that fits, or null. */
    method FindFit(n: nat) returns (result: nat)
      requires Valid() && n < WORD
      ensures var i := FirstFit(chunks, n); result == if i < |chunks| then chunks[i].addr else 0
    {
      ghost var m := ram[..];
      assert Linked(m, chunks);
      result := 0;
      var chunk := first;
      ghost var i := 0;
      while chunk != 0 && result == 0
        invariant i <= |chunks|
        invariant result == 0 ==> forall j :: 0 <= j < i ==> !Fits(chunks[j], n)
        invariant result == 0 ==> chunk == if i < |chunks| then chunks[i].addr else 0
        invariant result != 0 ==> i > 0 && result == chunks[i - 1].addr && Fits(chunks[i - 1], n)
        invariant result != 0 ==> forall j :: 0 <= j < i - 1 ==> !Fits(chunks[j], n)
        decreases |chunks| - i
      {
        assert LinkedAt(m, chunks, i);
        var s := Load32(ram, chunk + SIZE);
        var u := Load32(ram, chunk + USED);
        if s > n && u == 0 {
          result := chunk;
        }
        chunk := Load32(ram, chunk + NEXT);
        i := i + 1;
      }
      if result != 0 {
        assert i - 1 == FirstFit(chunks, n);
      }
    }

    /** `malloc`: first fit, split when a further header and one byte remain. */
    method Malloc(n: nat) returns (p: nat)
      requires Valid() && n < WORD
      modifies this, ram
      ensures Valid() && first == old(first)
      ensures MallocStep(State(old(ram[..]), old(chunks)), n, p, State(ram[..], chunks), start, start + size)
      ensures p == 0 <==> forall c :: c in old(chunks) ==> c.used || c.size <= n
      ensures p != 0 ==>
                exists i ::
                  && 0 <= i < |old(chunks)| && p == old(chunks)[i].addr + 16
                  && !old(chunks)[i].used && old(chunks)[i].size > n
                  && forall j :: 0 <= j < i ==> old(chunks)[j].used || old(chunks)[j].size <= n
    {
      hide Get32, Put32, Linked, Live, Tiles, Coalesced, AfterMalloc;
      var result := FindFit(n);
      ghost var i := FirstFit(chunks, n);
      if i < |chunks| {
        ReadHeader(ram[..], chunks, start, start + size, i);
      }
      ghost var before := State(ram[..], chunks);
      if result == 0 {
        MallocOutcome(before, n, 0, before, start, start + size);
        return 0;
      }
      Take(result, n, i);
      p := U32(result + HEADER);
      MallocOutcome(before, n, p, State(ram[..], chunks), start, start + size);
    }

    /** The second half of `malloc`: take the chunk at `result`, split if there is room. */
    method Take(result: nat, n: nat, ghost i: nat)
      requires Valid() && i < |chunks| && Fits(chunks[i], n) && result == chunks[i].addr
      modifies this, ram
      ensures Valid() && first == old(first)
      ensures chunks == AfterMalloc(old(chunks), n, i)
      ensures Isolated(old(ram[..]), ram[..], start, start + size, Live(old(chunks)))
    {
      hide Get32, Put32, Carved, Isolated, AfterMalloc, Live, Tiles, Coalesced, NextOf;
      ghost var m, cs := ram[..], chunks;
      ReadHeader(m, cs, start, start + size, i);
      MallocTiles(cs, start, start + size, n, i);
      hide Linked;
      chunks := AfterMalloc(cs, n, i);
      StartsAt(cs, start, start + size);
      StartsAt(chunks, start, start + size);
      var s := Load32(ram, result + SIZE);
      assert U32(U32(n + HEADER) + 1) == n + HEADER + 1;
      if s >= U32(U32(n + HEADER) + 1) {
        Split(result, n, s, NextOf(cs, i));
        Store32(ram, result + USED, 1);
        SplitCorrect(m, cs, start, start + size, n, i);
      } else {
        Store32(ram, result + USED, 1);
        TakeCorrect(m, cs, start, start + size, n, i);
      }
    }

    method WriteHeader(t: nat, size: nat, prev: nat, next: nat)
      requires t + HEADER <= ram.Length && size < WORD && prev < WORD && next < WORD
      modifies ram
      ensures ram[..] == Inserted(old(ram[..]), t, size, prev, next)
    {
      Store32(ram, t + USED, 0);
      Store32(ram, t + SIZE, size);
      Store32(ram, t + PREV, prev);
      Store32(ram, t + NEXT, next);
    }

    /** The part of `malloc` that cuts `n` bytes off the front of a larger chunk. */
    method Split(result: nat, n: nat, ghost size: nat, ghost next: nat)
      requires n + HEADER < size && result + HEADER + size <= ram.Length <= WORD
      requires next == 0 || (result + HEADER + size <= next && next + HEADER <= ram.Length)
      requires Get32(ram[..], result + SIZE) == size && Get32(ram[..], result + NEXT) == next
      modifies ram
      ensures next + HEADER <= ram.Length
      ensures ram[..] == Carved(old(ram[..]), result, n, size, next)
    {
      hide Get32, Put32, Inserted;
      var temp := U32(U32(result + HEADER) + n);
      var s := Load32(ram, result + SIZE);
      var following := Load32(ram, result + NEXT);
      WriteHeader(temp, U32(s - n - HEADER), result, following);
      following := Load32(ram, temp + NEXT);
      if following != 0 {
        Store32(ram, following + PREV, temp);
      }
      Store32(ram, result + SIZE, n);
      Store32(ram, result + NEXT, temp);
    }

    /** `Valid`, but for free neighbours that are still to be merged. */
    ghost predicate Shaped()
      reads this, ram
    {
      && start + size <= ram.Length <= WORD
      && Tiles(chunks, start, start + size) && first == start
      && Linked(ram[..], chunks)
    }

    /** `free` of the live chunk `i`: release it and merge it with its free neighbours. */
    method Free(ptr: nat, ghost i: nat)
      requires Valid() && i < |chunks| && chunks[i].used && ptr == chunks[i].Payload()
      modifies this, ram
      ensures Valid() && first == old(first)
      ensures FreeStep(State(old(ram[..]), old(chunks)), i, State(ram[..], chunks), start, start + size)
    {
      hide Get32, Put32, Isolated, Live, Tiles, Coalesced, Merge;
      ghost var cs, m := chunks, ram[..];
      StartsAt(cs, start, start + size);
      FreeCorrect(cs, start, start + size, i);
      StartsAt(AfterFree(cs, i), start, start + size);
      var chunk := U32(ptr - HEADER);
      Release(chunk, i);
      ghost var m1, k := ram[..], i;
      var prev := ReadPrev(chunk, i);
      var merge := false;
      if prev != 0 {
        merge := IsFree(prev, i - 1);
      }
      if merge {
        JoinPrev(chunk, prev, i - 1);
        IsolatedTrans(m, m1, ram[..], start, start + size, Live(chunks));
        chunk := prev;
        k := i - 1;
      }
      ghost var m2 := ram[..];
      var next := ReadNext(chunk, k);
      merge := false;
      if next != 0 {
        merge := IsFree(next, k + 1);
      }
      if merge {
        JoinNext(chunk, next, k);
        IsolatedTrans(m, m2, ram[..], start, start + size, Live(chunks));
      }
    }

    method Release(chunk: nat, ghost i: nat)
      requires Valid() && i < |chunks| && chunks[i].used && chunk == chunks[i].addr
      modifies this`chunks, ram
      ensures Shaped() && chunks == old(chunks)[i := old(chunks)[i].(used := false)]
      ensures Isolated(old(ram[..]), ram[..], start, start + size, Live(chunks))
    {
      hide Get32, Put32, Coalesced;
      ghost var cs := chunks;
      Disjoint(cs, start, start + size);
      TilesSpaced(cs, start, start + size);
      Store32(ram, chunk + USED, 0);
      MarkLinked(old(ram[..]), cs, i, false);
      ReleaseTiles(cs, start, start + size, i);
      ReleaseLive(cs, start, start + size, i);
      chunks := cs[i := cs[i].(used := false)];
    }

    method ReadPrev(chunk: nat, ghost i: nat) returns (prev: nat)
      requires Shaped() && i < |chunks| && chunk == chunks[i].addr
      ensures prev == PrevOf(chunks, i)
      ensures prev == 0 <==> i == 0
    {
      ReadHeader(ram[..], chunks, start, start + size, i);
      prev := Load32(ram, chunk + PREV);
    }

    method ReadNext(chunk: nat, ghost i: nat) returns (next: nat)
      requires Shaped() && i < |chunks| && chunk == chunks[i].addr
      ensures next == NextOf(chunks, i)
      ensures next == 0 <==> i == |chunks| - 1
    {
      ReadHeader(ram[..], chunks, start, start + size, i);
      next := Load32(ram, chunk + NEXT);
    }

    method IsFree(chunk: nat, ghost i: nat) returns (free: bool)
      requires Shaped() && i < |chunks| && chunk == chunks[i].addr
      ensures free == !chunks[i].used
    {
      ReadHeader(ram[..], chunks, start, start + size, i);
      var used := Load32(ram, chunk + USED);
      free := used == 0;
    }

    /** The first merge of `free`: the free predecessor takes over the chunk. */
    method JoinPrev(chunk: nat, prev: nat, ghost k: nat)
      requires Shaped() && k + 1 < |chunks| && prev == chunks[k].addr && chunk == chunks[k + 1].addr
      requires !chunks[k].used && !chunks[k + 1].used
      modifies this`chunks, ram
      ensures Shaped() && chunks == Merge(old(chunks), k) && Live(chunks) == Live(old(chunks))
      ensures k < |chunks| && chunks[k].addr == old(chunks)[k].addr && !chunks[k].used
      ensures Isolated(old(ram[..]), ram[..], start, start + size, Live(chunks))
    {
      hide Get32, Put32, Linked, Tiles, Live, Isolated, Merge, Elsewhere;
      ghost var m, cs := ram[..], chunks;
      TilesJoinable(m, cs, start, start + size, k);
      var next := Load32(ram, chunk + NEXT);
      Store32(ram, prev + NEXT, next);
      var s := Load32(ram, chunk + SIZE);
      var t := Load32(ram, prev + SIZE);
      Store32(ram, prev + SIZE, U32(t + U32(s + HEADER)));
      next := Load32(ram, chunk + NEXT);
      if next != 0 {
        Store32(ram, next + PREV, prev);
      }
      JoinCorrect(m, cs, start, start + size, k, false);
      MergeTiles(cs, start, start + size, k);
      MergeNeighbours(cs, k, k);
      chunks := Merge(cs, k);
      StartsAt(chunks, start, start + size);
    }

    /** The second merge of `free`: the chunk absorbs its free successor. */
    method JoinNext(chunk: nat, next: nat, ghost k: nat)
      requires Shaped() && k + 1 < |chunks| && chunk == chunks[k].addr && next == chunks[k + 1].addr
      requires !chunks[k].used && !chunks[k + 1].used
      modifies this`chunks, ram
      ensures Shaped() && chunks == Merge(old(chunks), k) && Live(chunks) == Live(old(chunks))
      ensures k < |chunks| && chunks[k].addr == old(chunks)[k].addr && !chunks[k].used
      ensures Isolated(old(ram[..]), ram[..], start, start + size, Live(chunks))
    {
      hide Get32, Put32, Linked, Tiles, Live, Isolated, Merge, Elsewhere;
      ghost var m, cs := ram[..], chunks;
      TilesJoinable(m, cs, start, start + size, k);
      var s := Load32(ram, next + SIZE);
      var t := Load32(ram, chunk + SIZE);
      Store32(ram, chunk + SIZE, U32(t + U32(s + HEADER)));
      var following := Load32(ram, next + NEXT);
      Store32(ram, chunk + NEXT, following);
      following := Load32(ram, chunk + NEXT);
      if following != 0 {
        Store32(ram, following + PREV, chunk);
      }
      JoinCorrect(m, cs, start, start + size, k, true);
      MergeTiles(cs, start, start + size, k);
      MergeNeighbours(cs, k, k);
      chunks := Merge(cs, k);
      StartsAt(chunks, start, start + size);
    }

    /** `malloc_aligned`. Null is not checked: when `malloc` fails the saved pointer goes to the bytes
        below address `a + 3` and the result is that address, rounded down. */
    method MallocAligned(a: nat, n: nat, ghost i: nat) returns (r: nat)
      requires Valid() && a > 0 && n + a + 3 < WORD && i == FirstFit(chunks, n + a + 3)
      requires i == |chunks| ==> a + 3 <= start
      modifies this, ram
      ensures Valid() && first == old(first)
      ensures i == |old(chunks)| ==>
                && chunks == old(chunks) && r == AlignedAt(0, a) && a + 3 <= ram.Length
                && ram[..] == Put32(old(ram[..]), a - 1, 0)
      ensures i < |old(chunks)| ==>
                && chunks == AfterMalloc(old(chunks), n + a + 3, i)
                && r == AlignedAt(old(chunks)[i].addr + 16, a)
                && old(chunks)[i].addr + a + 19 <= ram.Length
                && Get32(ram[..], old(chunks)[i].addr + a + 15) == old(chunks)[i].addr + 16
                && Isolated(old(ram[..]), ram[..], start, start + size, Live(old(chunks)))
    {
      hide Get32, Encode32, Linked, Tiles, Coalesced, AfterMalloc, FirstFit, WithoutBits, Isolated;
      ghost var m, cs := ram[..], chunks;
      var p := Malloc(U32(n + a - 1 + 4));
      ghost var m1 := ram[..];
      if i < |cs| {
        PayloadRoom(cs, start, start + size, n + a + 3, i);
      }
      assert p + a + 3 < WORD;
      var slot := U32(p + a - 1 + 4) - 4;
      assert slot == p + a - 1;
      Store32(ram, slot, p);
      if i < |cs| {
        WriteInside(m1, chunks, start, start + size, Granted(cs[i], n + a + 3), Live(cs), a - 1, Encode32(p));
        assert ram[..] == m1[..slot] + Encode32(p) + m1[slot + 4..];
        IsolatedTrans(m, m1, ram[..], start, start + size, Live(cs));
      } else {
        SavedBelow(m1, cs, start, start + size, slot, p);
      }
      r := WithoutBits(U32(p + a - 1 + 4), U32(a - 1));
    }

    /** `free_aligned`, where the word below the pointer is that of a block in use. */
    method FreeAligned(ptr: nat, ghost i: nat)
      requires Valid() && 4 <= ptr <= ram.Length
      requires i < |chunks| && chunks[i].used && Get32(ram[..], ptr - 4) == chunks[i].addr + 16
      modifies this, ram
      ensures Valid() && first == old(first)
      ensures FreeStep(State(old(ram[..]), old(chunks)), i, State(ram[..], chunks), start, start + size)
    {
      var original := Load32(ram, ptr - 4);
      Free(original, i);
    }
  }
}
