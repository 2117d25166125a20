/** The chunk headers as they lie in memory, and what each group of pointer writes does to the list
    they represent. */
module HeapLinks {
  import opened Bytes
  import opened HeapLayout

  // Offsets of the fields of a packed `MemoryChunk`.
  const NEXT: nat := 0
  const PREV: nat := 4
  const USED: nat := 8
  const SIZE: nat := 12

  function NextOf(cs: seq<Chunk>, i: nat): nat
    requires i < |cs|
  {
    if i + 1 < |cs| then cs[i + 1].addr else 0
  }

  function PrevOf(cs: seq<Chunk>, i: nat): nat
    requires i < |cs|
  {
    if i > 0 then cs[i - 1].addr else 0
  }

  function Flag(used: bool): nat { if used then 1 else 0 }

  ghost predicate HeaderAt(m: Memory, c: Chunk, next: nat, prev: nat)
    requires c.addr + HEADER <= |m|
  {
    && Get32(m, c.addr + NEXT) == next
    && Get32(m, c.addr + PREV) == prev
    && Get32(m, c.addr + USED) == Flag(c.used)
    && Get32(m, c.addr + SIZE) == c.size
  }

  /** The headers in memory represent the chunk list: links mirror neighbours, ends are null. */
  ghost predicate Linked(m: Memory, cs: seq<Chunk>) {
    && InMemory(m, cs)
    && forall i :: 0 <= i < |cs| ==> LinkedAt(m, cs, i)
  }

  ghost predicate InMemory(m: Memory, cs: seq<Chunk>) {
    forall i :: 0 <= i < |cs| ==> 0 < cs[i].addr && cs[i].addr + HEADER <= |m|
  }

  ghost predicate LinkedAt(m: Memory, cs: seq<Chunk>, i: nat)
    requires i < |cs| && cs[i].addr + HEADER <= |m|
  {
    HeaderAt(m, cs[i], NextOf(cs, i), PrevOf(cs, i))
  }

  /** The four words of a header, in the order of the C structure: the chunk behind, the chunk before, 1 for
      a chunk in use, and the size. */
  lemma HeaderWords(m: Memory, cs: seq<Chunk>, i: nat)
    requires Linked(m, cs) && i < |cs|
    ensures 0 < cs[i].addr && cs[i].addr + 16 <= |m|
    ensures Get32(m, cs[i].addr) == if i + 1 < |cs| then cs[i + 1].addr else 0
    ensures Get32(m, cs[i].addr + 4) == if i > 0 then cs[i - 1].addr else 0
    ensures Get32(m, cs[i].addr + 8) == if cs[i].used then 1 else 0
    ensures Get32(m, cs[i].addr + 12) == cs[i].size
  {
    hide Get32;
    assert LinkedAt(m, cs, i);
  }

  /** No two headers overlap. */
  ghost predicate Spaced(cs: seq<Chunk>) {
    forall i, j :: 0 <= i < j < |cs| ==> cs[i].addr + HEADER <= cs[j].addr
  }

  lemma TilesSpaced(cs: seq<Chunk>, start: nat, end: nat)
    requires Tiles(cs, start, end)
    ensures Spaced(cs)
  {
    Disjoint(cs, start, end);
  }

  /** A word of memory that no write touched. */
  ghost predicate Untouched(m: Memory, m': Memory, a: nat) {
    a + 4 <= |m| == |m'| && Get32(m', a) == Get32(m, a)
  }

  ghost predicate HeaderUntouched(m: Memory, m': Memory, a: nat) {
    Untouched(m, m', a + NEXT) && Untouched(m, m', a + PREV) && Untouched(m, m', a + USED) && Untouched(m, m', a + SIZE)
  }

  ghost predicate OtherUntouched(m: Memory, m': Memory, cs: seq<Chunk>, j: nat)
    requires j < |cs|
  {
    HeaderUntouched(m, m', cs[j].addr)
  }

  lemma MarkLinked(m: Memory, cs: seq<Chunk>, i: nat, used: bool)
    requires Linked(m, cs) && Spaced(cs) && i < |cs|
    ensures Linked(Put32(m, cs[i].addr + USED, Flag(used)), cs[i := cs[i].(used := used)])
  {
    hide Get32, Put32;
    var m', cs' := Put32(m, cs[i].addr + USED, Flag(used)), cs[i := cs[i].(used := used)];
    forall j | 0 <= j < |cs'| ensures LinkedAt(m', cs', j) {
      assert LinkedAt(m, cs, j);
    }
  }

  lemma MergeNeighbours(cs: seq<Chunk>, k: nat, j: nat)
    requires k + 1 < |cs| && j + 1 < |cs|
    ensures var cs' := Merge(cs, k);
            && |cs'| == |cs| - 1
            && cs'[j] == (if j < k then cs[j] else if j == k then Joined(cs[k], cs[k + 1]) else cs[j + 1])
            && NextOf(cs', j) == NextOf(cs, if j < k then j else j + 1)
            && PrevOf(cs', j) == if j <= k then PrevOf(cs, j) else if j == k + 1 then cs[k].addr else PrevOf(cs, j + 1)
  {
  }

  lemma SplitNeighbours(cs: seq<Chunk>, n: nat, i: nat, j: nat)
    requires i < |cs| && Fits(cs[i], n) && cs[i].size >= n + HEADER + 1 && j <= |cs|
    ensures var cs', t := AfterMalloc(cs, n, i), cs[i].addr + HEADER + n;
            && |cs'| == |cs| + 1
            && cs'[j] == (if j < i then cs[j] else if j == i then Granted(cs[i], n)
                          else if j == i + 1 then Chunk(t, cs[i].size - n - HEADER, false) else cs[j - 1])
            && NextOf(cs', j) == (if j < i then NextOf(cs, j) else if j == i then t else NextOf(cs, j - 1))
            && PrevOf(cs', j) == if j <= i then PrevOf(cs, j) else if j == i + 1 then cs[i].addr
                                 else if j == i + 2 then t else PrevOf(cs, j - 1)
  {
  }

  /** What a merge has to write: chunk `k` takes over the successor link and the bytes of chunk
      `k + 1`, the chunk after that points back to it, and no other header changes. */
  ghost predicate MergeWritten(m: Memory, m': Memory, cs: seq<Chunk>, k: nat)
    requires k + 1 < |cs| && InMemory(m, cs) && |m| == |m'|
  {
    var c, d := cs[k].addr, cs[k + 1].addr;
    && Get32(m', c + NEXT) == Get32(m, d + NEXT)
    && Get32(m', c + SIZE) == cs[k].size + cs[k + 1].size + HEADER
    && Untouched(m, m', c + PREV) && Untouched(m, m', c + USED)
    && (k + 2 < |cs| ==>
          var e := cs[k + 2].addr;
          && Get32(m', e + PREV) == c
          && Untouched(m, m', e + NEXT) && Untouched(m, m', e + USED) && Untouched(m, m', e + SIZE))
    && forall j :: 0 <= j < |cs| && (j < k || j > k + 2) ==> OtherUntouched(m, m', cs, j)
  }

  lemma MergeLinkedAt(m: Memory, m': Memory, cs: seq<Chunk>, k: nat, j: nat)
    requires Linked(m, cs) && k + 1 < |cs| && |m| == |m'| && MergeWritten(m, m', cs, k)
    requires j < |cs| - 1
    ensures 0 < Merge(cs, k)[j].addr && Merge(cs, k)[j].addr + HEADER <= |m'| && LinkedAt(m', Merge(cs, k), j)
  {
    hide Get32;
    MergeNeighbours(cs, k, j);
    assert LinkedAt(m, cs, k) && LinkedAt(m, cs, k + 1);
    if j < k {
      assert LinkedAt(m, cs, j) && OtherUntouched(m, m', cs, j);
    } else if j == k + 1 {
      assert LinkedAt(m, cs, k + 2);
    } else if j > k + 1 {
      assert LinkedAt(m, cs, j + 1) && OtherUntouched(m, m', cs, j + 1);
    }
  }

  lemma MergeLinked(m: Memory, m': Memory, cs: seq<Chunk>, k: nat)
    requires Linked(m, cs) && k + 1 < |cs| && |m| == |m'| && MergeWritten(m, m', cs, k)
    ensures Linked(m', Merge(cs, k))
  {
    forall j | 0 <= j < |cs| - 1
      ensures 0 < Merge(cs, k)[j].addr && Merge(cs, k)[j].addr + HEADER <= |m'| && LinkedAt(m', Merge(cs, k), j)
    {
      MergeLinkedAt(m, m', cs, k, j);
    }
  }

  /** What a split has to write: chunk `i` shrinks to `n` bytes and is taken, a new free chunk is linked
      in after it, and no other header changes. */
  ghost predicate SplitWritten(m: Memory, m': Memory, cs: seq<Chunk>, n: nat, i: nat)
    requires i < |cs| && InMemory(m, cs) && |m| == |m'|
  {
    var c, t := cs[i], cs[i].addr + HEADER + n;
    && !c.used && c.size >= n + HEADER + 1 && c.End() <= |m|
    && HeaderAt(m', Chunk(t, c.size - n - HEADER, false), NextOf(cs, i), c.addr)
    && HeaderAt(m', Chunk(c.addr, n, true), t, Get32(m, c.addr + PREV))
    && (i + 1 < |cs| ==>
          var e := cs[i + 1].addr;
          && Get32(m', e + PREV) == t
          && Untouched(m, m', e + NEXT) && Untouched(m, m', e + USED) && Untouched(m, m', e + SIZE))
    && forall j :: 0 <= j < |cs| && (j < i || j > i + 1) ==> OtherUntouched(m, m', cs, j)
  }

  lemma SplitLinkedAt(m: Memory, m': Memory, cs: seq<Chunk>, n: nat, i: nat, j: nat)
    requires Linked(m, cs) && i < |cs| && |m| == |m'| && SplitWritten(m, m', cs, n, i)
    requires j <= |cs|
    ensures var r := AfterMalloc(cs, n, i); 0 < r[j].addr && r[j].addr + HEADER <= |m'| && LinkedAt(m', r, j)
  {
    hide Get32;
    SplitNeighbours(cs, n, i, j);
    assert LinkedAt(m, cs, i);
    if j < i {
      assert LinkedAt(m, cs, j) && OtherUntouched(m, m', cs, j);
    } else if j == i + 2 {
      assert LinkedAt(m, cs, i + 1);
    } else if j > i + 2 {
      assert LinkedAt(m, cs, j - 1) && OtherUntouched(m, m', cs, j - 1);
    }
  }

  lemma SplitLinked(m: Memory, m': Memory, cs: seq<Chunk>, n: nat, i: nat)
    requires Linked(m, cs) && i < |cs| && |m| == |m'| && SplitWritten(m, m', cs, n, i)
    ensures Linked(m', AfterMalloc(cs, n, i))
  {
    var r := AfterMalloc(cs, n, i);
    forall j | 0 <= j < |r|
      ensures 0 < r[j].addr && r[j].addr + HEADER <= |m'| && LinkedAt(m', r, j)
    {
      SplitLinkedAt(m, m', cs, n, i, j);
    }
  }

  lemma HeaderFrame(m: Memory, m': Memory, c: Chunk, next: nat, prev: nat)
    requires c.addr + HEADER <= |m| == |m'| && m[c.addr..c.addr + HEADER] == m'[c.addr..c.addr + HEADER]
    requires HeaderAt(m, c, next, prev)
    ensures HeaderAt(m', c, next, prev)
  {
    hide Get32;
    SameField(m, m', c.addr, NEXT);
    SameField(m, m', c.addr, PREV);
    SameField(m, m', c.addr, USED);
    SameField(m, m', c.addr, SIZE);
  }

  lemma SameField(m: Memory, m': Memory, a: nat, field: nat)
    requires a + HEADER <= |m| == |m'| && field + 4 <= HEADER && m[a..a + HEADER] == m'[a..a + HEADER]
    ensures Get32(m, a + field) == Get32(m', a + field)
  {
    SubSlice(m, a, HEADER, field, 4);
    SubSlice(m', a, HEADER, field, 4);
    Get32Same(m, a + field, m', a + field);
  }

  /** Bytes that no header of the list covers may change freely. */
  lemma LinkedFrame(m: Memory, m': Memory, cs: seq<Chunk>)
    requires Linked(m, cs) && |m| == |m'|
    requires forall i :: 0 <= i < |cs| ==> m[cs[i].addr..cs[i].addr + HEADER] == m'[cs[i].addr..cs[i].addr + HEADER]
    ensures Linked(m', cs)
  {
    hide HeaderAt;
    forall i | 0 <= i < |cs| ensures LinkedAt(m', cs, i) {
      assert LinkedAt(m, cs, i);
      HeaderFrame(m, m', cs[i], NextOf(cs, i), PrevOf(cs, i));
    }
  }
}
