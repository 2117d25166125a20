/** The kernel heap as a list of chunks: the value that the linked headers in memory stand for.

    `AfterMalloc` and `AfterFree` follow the pointer surgery of `malloc` and `free`. What they are
    for is stated independently: a heap without adjacent free chunks is determined by the set of its
    live chunks (`Canonical`), and the two operations add one element to that set and remove it. */
module HeapLayout {
  const HEADER: nat := 16

  /** One chunk: a 16-byte header at `addr`, followed by `size` bytes of payload. */
  datatype Chunk = Chunk(addr: nat, size: nat, used: bool) {
    function Payload(): nat { addr + HEADER }
    function End(): nat { addr + HEADER + size }
  }

  /** The chunks cover [start, end) exactly, in address order. */
  ghost predicate Tiles(cs: seq<Chunk>, start: nat, end: nat) {
    && |cs| > 0
    && cs[0].addr == start
    && cs[|cs| - 1].End() == end
    && forall i :: 0 <= i < |cs| - 1 ==> cs[i].End() == cs[i + 1].addr
  }

  /** No two neighbours are both free. */
  ghost predicate Coalesced(cs: seq<Chunk>) {
    forall i :: 0 <= i < |cs| - 1 ==> cs[i].used || cs[i + 1].used
  }

  function Live(cs: seq<Chunk>): set<Chunk> {
    set c | c in cs && c.used
  }

  function Total(cs: seq<Chunk>): nat {
    if cs == [] then 0 else HEADER + cs[0].size + Total(cs[1..])
  }

  // ----- tilings -----

  lemma {:induction false} Ordered(cs: seq<Chunk>, start: nat, end: nat, i: nat, j: nat)
    requires Tiles(cs, start, end)
    requires i < j < |cs|
    ensures cs[i].End() <= cs[j].addr
    decreases j
  {
    assert cs[j - 1].End() == cs[j].addr;
    if i == j - 1 {
    } else {
      Ordered(cs, start, end, i, j - 1);
    }
  }

  lemma TilesDrop(cs: seq<Chunk>, start: nat, end: nat, k: nat)
    requires Tiles(cs, start, end)
    requires k < |cs|
    ensures Tiles(cs[k..], cs[k].addr, end)
    ensures Coalesced(cs) ==> Coalesced(cs[k..])
  {
    var t := cs[k..];
    assert forall i :: 0 <= i < |t| ==> t[i] == cs[k + i];
    forall i | 0 <= i < |t| - 1
      ensures t[i].End() == t[i + 1].addr && (Coalesced(cs) ==> t[i].used || t[i + 1].used)
    {
      assert cs[k + i].End() == cs[k + i + 1].addr;
    }
  }

  /** Chunks of a tiling, in order and without overlap, within the heap. */
  lemma Disjoint(cs: seq<Chunk>, start: nat, end: nat)
    requires Tiles(cs, start, end)
    ensures forall i :: 0 <= i < |cs| ==> start <= cs[i].addr && cs[i].End() <= end
    ensures forall i, j :: 0 <= i < j < |cs| ==> cs[i].End() <= cs[j].addr
  {
    forall i | 0 <= i < |cs|
      ensures start <= cs[i].addr && cs[i].End() <= end
    {
      if i > 0 {
        Ordered(cs, start, end, 0, i);
      }
      if i < |cs| - 1 {
        Ordered(cs, start, end, i, |cs| - 1);
      }
    }
    forall i, j | 0 <= i < j < |cs|
      ensures cs[i].End() <= cs[j].addr
    {
      Ordered(cs, start, end, i, j);
    }
  }

  lemma InHeap(cs: seq<Chunk>, start: nat, end: nat, c: Chunk)
    requires Tiles(cs, start, end) && c in cs
    ensures start <= c.addr && c.End() <= end
  {
    Disjoint(cs, start, end);
  }

  /** Two chunks never overlap: neither their payloads, nor a payload and a header. */
  lemma ChunksApart(cs: seq<Chunk>, start: nat, end: nat, c: Chunk, d: Chunk)
    requires Tiles(cs, start, end) && c in cs && d in cs && c != d
    ensures c.End() <= d.addr || d.End() <= c.addr
  {
    var i :| 0 <= i < |cs| && cs[i] == c;
    var j :| 0 <= j < |cs| && cs[j] == d;
    Ordered(cs, start, end, if i < j then i else j, if i < j then j else i);
  }

  /** Headers and payloads add up to the heap. */
  lemma {:induction false} Conservation(cs: seq<Chunk>, start: nat, end: nat)
    requires Tiles(cs, start, end)
    ensures Total(cs) == end - start
  {
    if |cs| > 1 {
      TilesDrop(cs, start, end, 1);
      Conservation(cs[1..], cs[1].addr, end);
    } else {
      assert cs[1..] == [];
    }
  }

  // ----- a coalesced heap is determined by its live chunks -----

  lemma LiveTail(cs: seq<Chunk>, start: nat, end: nat)
    requires Tiles(cs, start, end) && |cs| > 1
    ensures cs[0] !in Live(cs[1..])
    ensures Live(cs) == if cs[0].used then Live(cs[1..]) + {cs[0]} else Live(cs[1..])
  {
    Disjoint(cs, start, end);
    assert cs == [cs[0]] + cs[1..];
    forall c | c in cs[1..]
      ensures c.addr > cs[0].addr
    {
      var k :| 0 <= k < |cs[1..]| && cs[1..][k] == c;
      assert cs[k + 1] == c;
    }
  }

  /** A live chunk of one tiling that also appears in another, which has a chunk at its address. */
  lemma SameAddress(cs: seq<Chunk>, start: nat, end: nat, c: Chunk, k: nat)
    requires Tiles(cs, start, end)
    requires c in cs && k < |cs| && cs[k].addr == c.addr
    ensures cs[k] == c
  {
    Disjoint(cs, start, end);
    var j :| 0 <= j < |cs| && cs[j] == c;
    assert j == k;
  }

  lemma HeadsAgree(a: seq<Chunk>, b: seq<Chunk>, start: nat, end: nat)
    requires Tiles(a, start, end) && Tiles(b, start, end)
    requires Coalesced(a) && Coalesced(b)
    requires Live(a) == Live(b)
    ensures a[0] == b[0]
    ensures |a| == 1 <==> |b| == 1
  {
    Disjoint(a, start, end);
    Disjoint(b, start, end);
    if a[0].used {
      assert a[0] in Live(b);
      SameAddress(b, start, end, a[0], 0);
    } else if b[0].used {
      assert b[0] in Live(a);
      SameAddress(a, start, end, b[0], 0);
    } else {
      FreeHeadBound(a, b, start, end);
      FreeHeadBound(b, a, start, end);
    }
    if |a| > 1 {
      assert a[0].End() == a[1].addr;
    }
    if |b| > 1 {
      assert b[0].End() == b[1].addr;
    }
  }

  lemma FreeHeadBound(a: seq<Chunk>, b: seq<Chunk>, start: nat, end: nat)
    requires Tiles(a, start, end) && Tiles(b, start, end)
    requires Coalesced(a) && Live(a) == Live(b)
    requires !a[0].used && !b[0].used
    ensures b[0].End() <= a[0].End()
  {
    Disjoint(a, start, end);
    Disjoint(b, start, end);
    if |a| > 1 {
      assert a[1].used && a[1] in Live(b);
      var j :| 0 <= j < |b| && b[j] == a[1];
      assert j > 0 && a[0].End() == a[1].addr;
    }
  }

  /** Two heaps over the same memory with the same live chunks and no adjacent free chunks are equal. */
  lemma {:induction false} Canonical(a: seq<Chunk>, b: seq<Chunk>, start: nat, end: nat)
    requires Tiles(a, start, end) && Tiles(b, start, end)
    requires Coalesced(a) && Coalesced(b)
    requires Live(a) == Live(b)
    ensures a == b
  {
    HeadsAgree(a, b, start, end);
    if |a| > 1 {
      TilesDrop(a, start, end, 1);
      TilesDrop(b, start, end, 1);
      LiveTail(a, start, end);
      LiveTail(b, start, end);
      assert Live(a[1..]) == Live(b[1..]);
      assert a[0].End() == a[1].addr && b[0].End() == b[1].addr;
      Canonical(a[1..], b[1..], a[1].addr, end);
      assert a == [a[0]] + a[1..] && b == [b[0]] + b[1..];
    } else {
      assert a == [a[0]] && b == [b[0]];
    }
  }

  // ----- malloc -----

  /** The chunk `malloc` picks: the first one that is free and strictly larger than the request. */
  predicate Fits(c: Chunk, n: nat) {
    c.size > n && !c.used
  }

  function FirstFit(cs: seq<Chunk>, n: nat): (i: nat)
    ensures i <= |cs|
    ensures i < |cs| ==> Fits(cs[i], n)
    ensures forall j :: 0 <= j < i ==> !Fits(cs[j], n)
  {
    if cs == [] || Fits(cs[0], n) then 0 else
      var r := FirstFit(cs[1..], n);
      assert forall j :: 1 <= j < 1 + r ==> cs[j] == cs[1..][j - 1];
      1 + r
  }

  function AfterMalloc(cs: seq<Chunk>, n: nat, i: nat): seq<Chunk>
    requires i < |cs| && Fits(cs[i], n)
  {
    var c := cs[i];
    if c.size >= n + HEADER + 1 then
      cs[..i] + [Chunk(c.addr, n, true), Chunk(c.addr + HEADER + n, c.size - n - HEADER, false)] + cs[i + 1..]
    else
      cs[i := c.(used := true)]
  }

  /** The chunk handed out by `AfterMalloc`. */
  function Granted(c: Chunk, n: nat): (g: Chunk)
    requires Fits(c, n)
    ensures g.used && g.addr == c.addr && n <= g.size <= n + HEADER && g.End() <= c.End()
  {
    Chunk(c.addr, if c.size >= n + HEADER + 1 then n else c.size, true)
  }

  lemma MallocTiles(cs: seq<Chunk>, start: nat, end: nat, n: nat, i: nat)
    requires Tiles(cs, start, end) && i < |cs| && Fits(cs[i], n)
    ensures Tiles(AfterMalloc(cs, n, i), start, end)
    ensures Coalesced(cs) ==> Coalesced(AfterMalloc(cs, n, i))
  {
    var r := AfterMalloc(cs, n, i);
    if cs[i].size >= n + HEADER + 1 {
      assert forall k :: 0 <= k < |r| ==>
        (k < i ==> r[k] == cs[k]) && (k > i + 1 ==> r[k] == cs[k - 1]);
      forall k | 0 <= k < |r| - 1
        ensures r[k].End() == r[k + 1].addr && (Coalesced(cs) ==> r[k].used || r[k + 1].used)
      {
        if k < i {
          assert cs[k].End() == cs[k + 1].addr;
        } else if k > i {
          assert cs[k - 1].End() == cs[k].addr;
        }
      }
    } else {
      forall k | 0 <= k < |r| - 1
        ensures r[k].End() == r[k + 1].addr && (Coalesced(cs) ==> r[k].used || r[k + 1].used)
      {
        assert cs[k].End() == cs[k + 1].addr;
      }
    }
  }

  lemma LiveSplice(a: seq<Chunk>, m: seq<Chunk>, b: seq<Chunk>)
    ensures Live(a + m + b) == Live(a) + Live(m) + Live(b)
  {
  }

  lemma LivePair(c: Chunk, d: Chunk)
    ensures Live([c]) == if c.used then {c} else {}
    ensures Live([c, d]) == Live([c]) + Live([d])
  {
    assert [c, d] == [c] + [d];
  }

  /** `malloc` adds exactly the granted chunk to the live ones. */
  lemma MallocLive(cs: seq<Chunk>, start: nat, end: nat, n: nat, i: nat)
    requires Tiles(cs, start, end) && i < |cs| && Fits(cs[i], n)
    ensures Live(AfterMalloc(cs, n, i)) == Live(cs) + {Granted(cs[i], n)}
    ensures Granted(cs[i], n) !in Live(cs)
    ensures AfterMalloc(cs, n, i)[i] == Granted(cs[i], n)
  {
    GrantedNew(cs, start, end, n, i);
    hide Tiles;
    var g := Granted(cs[i], n);
    assert cs == cs[..i] + [cs[i]] + cs[i + 1..];
    LiveSplice(cs[..i], [cs[i]], cs[i + 1..]);
    LivePair(cs[i], g);
    hide Live;
    if cs[i].size >= n + HEADER + 1 {
      var rest := Chunk(cs[i].addr + HEADER + n, cs[i].size - n - HEADER, false);
      LiveSplice(cs[..i], [g, rest], cs[i + 1..]);
      LivePair(g, rest);
      LivePair(rest, rest);
    } else {
      assert AfterMalloc(cs, n, i) == cs[..i] + [g] + cs[i + 1..];
      LiveSplice(cs[..i], [g], cs[i + 1..]);
      LivePair(g, g);
    }
  }

  /** No chunk in use has the address of a free one. */
  lemma GrantedNew(cs: seq<Chunk>, start: nat, end: nat, n: nat, i: nat)
    requires Tiles(cs, start, end) && i < |cs| && Fits(cs[i], n)
    ensures Granted(cs[i], n) !in Live(cs)
  {
    Disjoint(cs, start, end);
  }

  // ----- free -----

  /** Chunk `k` absorbs its successor, header included. */
  function Merge(cs: seq<Chunk>, k: nat): seq<Chunk>
    requires k + 1 < |cs|
  {
    cs[..k] + [Joined(cs[k], cs[k + 1])] + cs[k + 2..]
  }

  function Joined(c: Chunk, next: Chunk): Chunk {
    c.(size := c.size + next.size + HEADER)
  }

  lemma MergePair(before: seq<Chunk>, c: Chunk, d: Chunk, after: seq<Chunk>)
    ensures Merge(before + [c, d] + after, |before|) == before + [Joined(c, d)] + after
  {
    assert (before + [c, d] + after)[..|before|] == before;
    assert (before + [c, d] + after)[|before| + 2..] == after;
  }

  predicate FreeAt(cs: seq<Chunk>, k: int) {
    0 <= k < |cs| && !cs[k].used
  }

  /** `free` of chunk `i`: release it, merge it into a free predecessor, absorb a free successor. */
  function AfterFree(cs: seq<Chunk>, i: nat): seq<Chunk>
    requires i < |cs|
  {
    var released := cs[i := cs[i].(used := false)];
    var back := FreeAt(cs, i - 1);
    var joined := if back then Merge(released, i - 1) else released;
    var k := if back then i - 1 else i;
    if FreeAt(joined, k + 1) then Merge(joined, k) else joined
  }

  lemma MergeTiles(cs: seq<Chunk>, start: nat, end: nat, k: nat)
    requires Tiles(cs, start, end) && k + 1 < |cs|
    requires !cs[k].used && !cs[k + 1].used
    ensures Tiles(Merge(cs, k), start, end)
    ensures Live(Merge(cs, k)) == Live(cs)
  {
    var r := Merge(cs, k);
    assert cs[k].End() == cs[k + 1].addr;
    assert forall j :: 0 <= j < |r| ==> (j < k ==> r[j] == cs[j]) && (j > k ==> r[j] == cs[j + 1]);
    forall j | 0 <= j < |r| - 1 ensures r[j].End() == r[j + 1].addr {
      if j < k {
        assert cs[j].End() == cs[j + 1].addr;
      } else {
        assert cs[j + 1].End() == cs[j + 2].addr;
      }
    }
    assert cs == cs[..k] + [cs[k], cs[k + 1]] + cs[k + 2..];
    LiveSplice(cs[..k], [cs[k], cs[k + 1]], cs[k + 2..]);
    LivePair(cs[k], cs[k + 1]);
    LiveSplice(cs[..k], [r[k]], cs[k + 2..]);
  }

  lemma ReleaseTiles(cs: seq<Chunk>, start: nat, end: nat, i: nat)
    requires Tiles(cs, start, end) && i < |cs| && cs[i].used
    ensures Tiles(cs[i := cs[i].(used := false)], start, end)
  {
    var r := cs[i := cs[i].(used := false)];
    forall k | 0 <= k < |r| - 1 ensures r[k].End() == r[k + 1].addr {
      assert cs[k].End() == cs[k + 1].addr;
    }
  }

  lemma Once(cs: seq<Chunk>, start: nat, end: nat, i: nat)
    requires Tiles(cs, start, end) && i < |cs|
    ensures cs[i] !in cs[..i] && cs[i] !in cs[i + 1..]
  {
    Disjoint(cs, start, end);
  }

  lemma ReleaseLive(cs: seq<Chunk>, start: nat, end: nat, i: nat)
    requires Tiles(cs, start, end) && i < |cs| && cs[i].used
    ensures Live(cs[i := cs[i].(used := false)]) == Live(cs) - {cs[i]}
  {
    Once(cs, start, end, i);
    var before, after, r := cs[..i], cs[i + 1..], cs[i].(used := false);
    assert cs == before + [cs[i]] + after && cs[i := r] == before + [r] + after;
    LiveSplice(before, [cs[i]], after);
    LiveSplice(before, [r], after);
    LivePair(cs[i], r);
    LivePair(r, r);
  }

  lemma Neighbours(cs: seq<Chunk>, j: nat)
    requires Coalesced(cs) && j + 1 < |cs|
    ensures !cs[j].used ==> cs[j + 1].used
    ensures !cs[j + 1].used ==> cs[j].used
  {
  }

  lemma TwoHeads<T>(before: seq<T>, x: T, after: seq<T>)
    requires |after| > 0
    ensures before + [x] + after == before + [x, after[0]] + after[1..]
  {
    assert after == [after[0]] + after[1..];
  }

  /** The first merge of `free`, with the chunk before. */
  lemma JoinBack(cs: seq<Chunk>, i: nat) returns (a: nat, f: Chunk)
    requires Coalesced(cs) && i < |cs| && cs[i].used
    ensures a == if FreeAt(cs, i - 1) then i - 1 else i
    ensures a > 0 ==> cs[a - 1].used
    ensures f == Chunk(cs[a].addr, (if a < i then cs[a].size + 16 else 0) + cs[i].size, false)
    ensures var released := cs[i := cs[i].(used := false)];
            !f.used && (if a < i then Merge(released, a) else released) == cs[..a] + [f] + cs[i + 1..]
  {
    a := if FreeAt(cs, i - 1) then i - 1 else i;
    if 0 < a < i {
      Neighbours(cs, a - 1);
    }
    f := cs[i].(used := false);
    var released := cs[i := f];
    assert released == cs[..i] + [f] + cs[i + 1..];
    if a < i {
      assert cs[..i] == cs[..a] + [cs[a]];
      MergePair(cs[..a], cs[a], f, cs[i + 1..]);
      f := Joined(cs[a], f);
    }
  }

  /** `free` turns the released chunk and its free neighbours into one free chunk. */
  lemma FreeShape(cs: seq<Chunk>, i: nat) returns (a: nat, b: nat, f: Chunk)
    requires Coalesced(cs) && i < |cs| && cs[i].used
    ensures a <= i < b <= |cs|
    ensures a > 0 ==> cs[a - 1].used
    ensures b < |cs| ==> cs[b].used
    ensures a == if i > 0 && !cs[i - 1].used then i - 1 else i
    ensures b == if i + 1 < |cs| && !cs[i + 1].used then i + 2 else i + 1
    ensures f == Chunk(cs[a].addr, (if a < i then cs[i - 1].size + 16 else 0) + cs[i].size
                                   + (if b > i + 1 then cs[i + 1].size + 16 else 0), false)
    ensures !f.used && AfterFree(cs, i) == cs[..a] + [f] + cs[b..]
  {
    a, f := JoinBack(cs, i);
    hide Merge;
    var joined := cs[..a] + [f] + cs[i + 1..];
    assert i + 1 < |cs| ==> joined[a + 1] == cs[i + 1];
    b := i + 1;
    if FreeAt(cs, i + 1) {
      b := i + 2;
      if b < |cs| {
        Neighbours(cs, i + 1);
      }
      TwoHeads(cs[..a], f, cs[i + 1..]);
      MergePair(cs[..a], f, cs[i + 1], cs[b..]);
      f := Joined(f, cs[i + 1]);
    } else if i + 1 < |cs| {
      assert cs[i + 1].used;
    }
  }

  lemma FreeCoalesces(cs: seq<Chunk>, i: nat)
    requires Coalesced(cs) && i < |cs| && cs[i].used
    ensures Coalesced(AfterFree(cs, i))
  {
    var a, b, f := FreeShape(cs, i);
    var r := cs[..a] + [f] + cs[b..];
    forall j | 0 <= j < |r| - 1 ensures r[j].used || r[j + 1].used {
      if j + 1 < a {
        assert cs[j].used || cs[j + 1].used;
      } else if j > a {
        assert cs[j - a - 1 + b].used || cs[j - a + b].used;
      }
    }
  }

  /** `free` keeps the tiling, leaves no adjacent free chunks and removes exactly one live chunk. */
  lemma FreeCorrect(cs: seq<Chunk>, start: nat, end: nat, i: nat)
    requires Tiles(cs, start, end) && Coalesced(cs)
    requires i < |cs| && cs[i].used
    ensures Tiles(AfterFree(cs, i), start, end)
    ensures Coalesced(AfterFree(cs, i))
    ensures Live(AfterFree(cs, i)) == Live(cs) - {cs[i]}
  {
    FreeCoalesces(cs, i);
    ReleaseTiles(cs, start, end, i);
    ReleaseLive(cs, start, end, i);
    var released := cs[i := cs[i].(used := false)];
    var back := FreeAt(cs, i - 1);
    if back {
      MergeTiles(released, start, end, i - 1);
    }
    var joined := if back then Merge(released, i - 1) else released;
    var k := if back then i - 1 else i;
    if FreeAt(joined, k + 1) {
      MergeTiles(joined, start, end, k);
    }
  }

  // ----- what the two operations mean together -----

  /** `free` right after `malloc` gives back exactly the chunk list there was before. */
  lemma MallocThenFree(cs: seq<Chunk>, start: nat, end: nat, n: nat, i: nat)
    requires Tiles(cs, start, end) && Coalesced(cs)
    requires i < |cs| && Fits(cs[i], n)
    ensures AfterFree(AfterMalloc(cs, n, i), i) == cs
  {
    var r := AfterMalloc(cs, n, i);
    MallocTiles(cs, start, end, n, i);
    MallocLive(cs, start, end, n, i);
    FreeCorrect(r, start, end, i);
    assert Live(AfterFree(r, i)) == Live(cs);
    Canonical(AfterFree(r, i), cs, start, end);
  }

  /** With no live chunk left the heap is one free chunk again. */
  lemma NothingLive(cs: seq<Chunk>, start: nat, end: nat)
    requires Tiles(cs, start, end) && Coalesced(cs)
    requires Live(cs) == {} && start + HEADER <= end
    ensures cs == [Chunk(start, end - start - HEADER, false)]
  {
    var one := [Chunk(start, end - start - HEADER, false)];
    Canonical(cs, one, start, end);
  }

  /** The order of two frees does not matter. */
  lemma FreesCommute(cs: seq<Chunk>, start: nat, end: nat, i: nat, j: nat, i': nat, j': nat)
    requires Tiles(cs, start, end) && Coalesced(cs)
    requires i < |cs| && j < |cs| && i != j && cs[i].used && cs[j].used
    requires j' < |AfterFree(cs, i)| && AfterFree(cs, i)[j'] == cs[j]
    requires i' < |AfterFree(cs, j)| && AfterFree(cs, j)[i'] == cs[i]
    ensures AfterFree(AfterFree(cs, i), j') == AfterFree(AfterFree(cs, j), i')
  {
    FreeCorrect(cs, start, end, i);
    FreeCorrect(cs, start, end, j);
    FreeCorrect(AfterFree(cs, i), start, end, j');
    FreeCorrect(AfterFree(cs, j), start, end, i');
    Canonical(AfterFree(AfterFree(cs, i), j'), AfterFree(AfterFree(cs, j), i'), start, end);
  }
}
