/** Whole runs of the heap: any sequence of `malloc`, `free` and client writes.

    A run refines a plain store, a map from live blocks to their bytes, in which allocation adds a
    block, release removes one and a write changes one. */
module HeapRuns {
  import opened Bytes
  import opened HeapLayout
  import opened HeapLinks

  datatype State = State(m: Memory, cs: seq<Chunk>)

  datatype Event =
    | Grant(n: nat, c: Chunk, found: seq<byte>)  // malloc(n) returned the payload of c, holding the bytes `found`
    | Refuse(n: nat)                              // malloc(n) returned null
    | Release(c: Chunk)                           // free of the payload of c
    | Write(c: Chunk, at: nat, data: seq<byte>)    // the owner of c stored data at offset `at`

  /** Only bytes of free chunks and of headers differ; the chunks in `kept` are in use throughout. */
  ghost predicate Isolated(m: Memory, m': Memory, start: nat, end: nat, kept: set<Chunk>) {
    && |m| == |m'|
    && (forall a :: 0 <= a < |m| && !(start <= a < end) ==> m'[a] == m[a])
    && (forall c, a :: c in kept && c.Payload() <= a < c.End() && a < |m| ==> m'[a] == m[a])
  }

  ghost predicate Invariant(s: State, start: nat, end: nat) {
    0 < start && end <= |s.m| <= WORD && Tiles(s.cs, start, end) && Coalesced(s.cs) && Linked(s.m, s.cs)
  }

  function Payload(m: Memory, c: Chunk): seq<byte> {
    if c.End() <= |m| then m[c.Payload()..c.End()] else []
  }

  // ----- the steps, as the contracts of the heap's methods state them -----

  ghost predicate MallocStep(s: State, n: nat, p: nat, s': State, start: nat, end: nat) {
    var i := FirstFit(s.cs, n);
    if i == |s.cs| then
      p == 0 && s' == s
    else
      && p == s.cs[i].Payload()
      && s'.cs == AfterMalloc(s.cs, n, i)
      && Linked(s'.m, s'.cs)
      && Isolated(s.m, s'.m, start, end, Live(s.cs))
  }

  ghost predicate FreeStep(s: State, i: nat, s': State, start: nat, end: nat)
    requires i < |s.cs|
  {
    && s'.cs == AfterFree(s.cs, i)
    && Linked(s'.m, s'.cs)
    && Isolated(s.m, s'.m, start, end, Live(s'.cs))
  }

  ghost predicate WriteStep(s: State, c: Chunk, at: nat, data: seq<byte>, s': State) {
    && c in Live(s.cs) && at + |data| <= c.size && c.End() <= |s.m|
    && s'.cs == s.cs
    && s'.m == s.m[..c.Payload() + at] + data + s.m[c.Payload() + at + |data|..]
  }

  ghost predicate Step(s: State, e: Event, s': State, start: nat, end: nat) {
    match e
    case Grant(n, c, found) =>
      && MallocStep(s, n, c.Payload(), s', start, end)
      && FirstFit(s.cs, n) < |s.cs|
      && c in Live(s'.cs) && found == Payload(s'.m, c)
    case Refuse(n) => MallocStep(s, n, 0, s', start, end)
    case Release(c) => exists i :: 0 <= i < |s.cs| && s.cs[i] == c && c.used && FreeStep(s, i, s', start, end)
    case Write(c, at, data) => WriteStep(s, c, at, data, s')
  }

  ghost predicate Run(ss: seq<State>, es: seq<Event>, start: nat, end: nat) {
    && |ss| == |es| + 1
    && Invariant(ss[0], start, end) && Live(ss[0].cs) == {}
    && forall k :: 0 <= k < |es| ==> Step(ss[k], es[k], ss[k + 1], start, end)
  }

  // ----- the steps in the fields of the chunks -----

  /** Null exactly when every chunk is in use or not larger than the request. Otherwise the payload of the
      lowest free chunk that is larger. */
  lemma MallocOutcome(s: State, n: nat, p: nat, s': State, start: nat, end: nat)
    requires MallocStep(s, n, p, s', start, end)
    ensures p == 0 <==> forall c :: c in s.cs ==> c.used || c.size <= n
    ensures p == 0 ==> s' == s
    ensures p != 0 ==>
              exists i ::
                && 0 <= i < |s.cs| && !s.cs[i].used && s.cs[i].size > n && p == s.cs[i].addr + 16
                && forall j :: 0 <= j < i ==> s.cs[j].used || s.cs[j].size <= n
  {
    hide AfterMalloc, Linked, Isolated;
    if p == 0 {
      Disappointed(s.cs, n);
    } else {
      assert s.cs[FirstFit(s.cs, n)] in s.cs;
    }
  }

  /** A chunk taken is taken whole if at most 16 bytes are left over, and otherwise cut. */
  lemma MallocCuts(s: State, n: nat, p: nat, s': State, start: nat, end: nat, i: nat)
    requires MallocStep(s, n, p, s', start, end)
    requires i < |s.cs| && !s.cs[i].used && s.cs[i].size > n
    requires forall j :: 0 <= j < i ==> s.cs[j].used || s.cs[j].size <= n
    ensures p == s.cs[i].addr + 16
    ensures s'.cs == if s.cs[i].size <= n + 16
                     then s.cs[..i] + [Chunk(s.cs[i].addr, s.cs[i].size, true)] + s.cs[i + 1..]
                     else s.cs[..i] + [Chunk(s.cs[i].addr, n, true)]
                          + [Chunk(s.cs[i].addr + 16 + n, s.cs[i].size - n - 16, false)] + s.cs[i + 1..]
  {
    hide AfterMalloc, Linked, Isolated;
    assert Fits(s.cs[i], n) && i == FirstFit(s.cs, n);
    Cut(s.cs, n, i);
  }

  lemma Disappointed(cs: seq<Chunk>, n: nat)
    requires FirstFit(cs, n) == |cs|
    ensures forall c :: c in cs ==> c.used || c.size <= n
  {
    forall c | c in cs ensures c.used || c.size <= n {
      var j :| 0 <= j < |cs| && cs[j] == c;
      assert !Fits(cs[j], n);
    }
  }

  lemma Cut(cs: seq<Chunk>, n: nat, i: nat)
    requires i < |cs| && Fits(cs[i], n)
    ensures AfterMalloc(cs, n, i) ==
            if cs[i].size <= n + 16 then cs[..i] + [Chunk(cs[i].addr, cs[i].size, true)] + cs[i + 1..]
            else cs[..i] + [Chunk(cs[i].addr, n, true)] + [Chunk(cs[i].addr + 16 + n, cs[i].size - n - 16, false)]
                 + cs[i + 1..]
  {
  }

  /** The chunk freed and its free neighbours become one free chunk, header bytes included. */
  lemma FreeOutcome(s: State, i: nat, s': State, start: nat, end: nat)
    requires Coalesced(s.cs) && i < |s.cs| && s.cs[i].used && FreeStep(s, i, s', start, end)
    ensures var before, behind := i > 0 && !s.cs[i - 1].used, i + 1 < |s.cs| && !s.cs[i + 1].used;
            var a, b := if before then i - 1 else i, if behind then i + 2 else i + 1;
            var size := (if before then s.cs[i - 1].size + 16 else 0) + s.cs[i].size
                        + (if behind then s.cs[i + 1].size + 16 else 0);
            s'.cs == s.cs[..a] + [Chunk(s.cs[a].addr, size, false)] + s.cs[b..]
  {
    hide Linked, Isolated, AfterFree;
    var a, b, f := FreeShape(s.cs, i);
  }

  /** Neither changes a byte outside the heap or in a block that stays in use. */
  lemma MallocKeeps(s: State, n: nat, p: nat, s': State, start: nat, end: nat, a: nat)
    requires MallocStep(s, n, p, s', start, end) && a < |s.m|
    requires a < start || end <= a || exists c :: c in s.cs && c.used && c.addr + 16 <= a < c.addr + 16 + c.size
    ensures |s'.m| == |s.m| && s'.m[a] == s.m[a]
  {
    hide Linked, AfterMalloc;
    if start <= a < end {
      var c :| c in s.cs && c.used && c.addr + 16 <= a < c.addr + 16 + c.size;
      assert c in Live(s.cs);
    }
  }

  lemma FreeKeeps(s: State, i: nat, s': State, start: nat, end: nat, a: nat)
    requires i < |s.cs| && FreeStep(s, i, s', start, end) && a < |s.m|
    requires a < start || end <= a || exists c :: c in s'.cs && c.used && c.addr + 16 <= a < c.addr + 16 + c.size
    ensures |s'.m| == |s.m| && s'.m[a] == s.m[a]
  {
    hide Linked, AfterFree;
    if start <= a < end {
      var c :| c in s'.cs && c.used && c.addr + 16 <= a < c.addr + 16 + c.size;
      assert c in Live(s'.cs);
    }
  }

  // ----- the store that a run implements -----

  type Store = map<Chunk, seq<byte>>

  function Contents(s: State): Store {
    map c | c in Live(s.cs) :: Payload(s.m, c)
  }

  function Effect(store: Store, e: Event): Store {
    match e
    case Grant(n, c, found) => store[c := found]
    case Refuse(n) => store
    case Release(c) => store - {c}
    case Write(c, at, data) =>
      if c in store && at + |data| <= |store[c]| then
        store[c := store[c][..at] + data + store[c][at + |data|..]]
      else store
  }

  function StoreAfter(es: seq<Event>): Store {
    if es == [] then map[] else Effect(StoreAfter(es[..|es| - 1]), es[|es| - 1])
  }

  // ----- one step -----

  lemma KeptPayload(m: Memory, m': Memory, start: nat, end: nat, kept: set<Chunk>, c: Chunk)
    requires Isolated(m, m', start, end, kept) && c in kept
    ensures Payload(m', c) == Payload(m, c)
  {
  }

  lemma MallocRefines(s: State, n: nat, p: nat, s': State, start: nat, end: nat)
    requires Invariant(s, start, end) && MallocStep(s, n, p, s', start, end)
    requires FirstFit(s.cs, n) < |s.cs|
    ensures Invariant(s', start, end)
    ensures exists c :: c in Live(s'.cs) && c !in Live(s.cs) && c.Payload() == p && n <= c.size <= n + HEADER
                        && Contents(s') == Contents(s)[c := Payload(s'.m, c)]
    ensures forall c :: c in Live(s'.cs) && c.Payload() == p ==> Contents(s') == Contents(s)[c := Payload(s'.m, c)]
  {
    var i := FirstFit(s.cs, n);
    var g := Granted(s.cs[i], n);
    MallocTiles(s.cs, start, end, n, i);
    MallocLive(s.cs, start, end, n, i);
    forall c | c in Live(s.cs) ensures Payload(s'.m, c) == Payload(s.m, c) {
      KeptPayload(s.m, s'.m, start, end, Live(s.cs), c);
    }
    assert Contents(s') == Contents(s)[g := Payload(s'.m, g)];
    forall c | c in Live(s'.cs) && c.Payload() == p ensures c == g {
      SameAddress(s'.cs, start, end, c, i);
    }
  }

  lemma FreeRefines(s: State, i: nat, s': State, start: nat, end: nat)
    requires Invariant(s, start, end) && i < |s.cs| && s.cs[i].used && FreeStep(s, i, s', start, end)
    ensures Invariant(s', start, end)
    ensures Contents(s') == Contents(s) - {s.cs[i]}
  {
    FreeCorrect(s.cs, start, end, i);
    forall c | c in Live(s'.cs) ensures Payload(s'.m, c) == Payload(s.m, c) {
      KeptPayload(s.m, s'.m, start, end, Live(s'.cs), c);
    }
  }

  lemma SameOutside(m: Memory, m': Memory, lo: nat, hi: nat, a: nat, b: nat)
    requires a <= b <= |m| == |m'| && (b <= lo || hi <= a)
    requires forall x :: 0 <= x < |m| && !(lo <= x < hi) ==> m'[x] == m[x]
    ensures m[a..b] == m'[a..b]
  {
    assert forall k :: 0 <= k < b - a ==> m[a..b][k] == m[a + k] == m'[a + k];
  }

  /** A write inside one live payload meets no header and no other payload. */
  lemma WriteApart(s: State, c: Chunk, at: nat, data: seq<byte>, s': State, start: nat, end: nat, i: nat)
    requires Invariant(s, start, end) && WriteStep(s, c, at, data, s') && i < |s.cs|
    ensures s.cs[i].Payload() <= |s.m| == |s'.m|
    ensures s.m[s.cs[i].addr..s.cs[i].Payload()] == s'.m[s.cs[i].addr..s.cs[i].Payload()]
    ensures s.cs[i] != c ==> Payload(s'.m, s.cs[i]) == Payload(s.m, s.cs[i])
  {
    hide Linked, Coalesced, Tiles;
    InHeap(s.cs, start, end, s.cs[i]);
    var lo, hi := c.Payload() + at, c.Payload() + at + |data|;
    assert forall a :: 0 <= a < |s.m| && !(lo <= a < hi) ==> s'.m[a] == s.m[a];
    if s.cs[i] != c {
      ChunksApart(s.cs, start, end, c, s.cs[i]);
      SameOutside(s.m, s'.m, lo, hi, s.cs[i].addr, s.cs[i].Payload());
      SameOutside(s.m, s'.m, lo, hi, s.cs[i].Payload(), s.cs[i].End());
    } else {
      SameOutside(s.m, s'.m, lo, hi, c.addr, c.Payload());
    }
  }

  lemma OwnWrite(s: State, c: Chunk, at: nat, data: seq<byte>, s': State)
    requires WriteStep(s, c, at, data, s')
    ensures var was := Payload(s.m, c);
            at + |data| <= |was| && Payload(s'.m, c) == was[..at] + data + was[at + |data|..]
  {
  }

  lemma WriteRefines(s: State, c: Chunk, at: nat, data: seq<byte>, s': State, start: nat, end: nat)
    requires Invariant(s, start, end) && WriteStep(s, c, at, data, s')
    ensures Invariant(s', start, end)
    ensures Contents(s') == Effect(Contents(s), Write(c, at, data))
  {
    hide Coalesced, Tiles, Linked, Payload;
    forall i | 0 <= i < |s.cs|
      ensures s.cs[i].Payload() <= |s.m| == |s'.m|
      ensures s.m[s.cs[i].addr..s.cs[i].Payload()] == s'.m[s.cs[i].addr..s.cs[i].Payload()]
      ensures s.cs[i] != c ==> Payload(s'.m, s.cs[i]) == Payload(s.m, s.cs[i])
    {
      WriteApart(s, c, at, data, s', start, end, i);
    }
    LinkedFrame(s.m, s'.m, s.cs);
    OwnWrite(s, c, at, data, s');
  }

  lemma StepRefines(s: State, e: Event, s': State, start: nat, end: nat)
    requires Invariant(s, start, end) && Step(s, e, s', start, end)
    ensures Invariant(s', start, end)
    ensures Contents(s') == Effect(Contents(s), e)
  {
    match e
    case Grant(n, c, found) =>
      MallocRefines(s, n, c.Payload(), s', start, end);
    case Refuse(n) =>
      assert FirstFit(s.cs, n) == |s.cs| by {
        Disjoint(s.cs, start, end);
      }
    case Release(c) =>
      var i :| 0 <= i < |s.cs| && s.cs[i] == c && c.used && FreeStep(s, i, s', start, end);
      FreeRefines(s, i, s', start, end);
    case Write(c, at, data) =>
      WriteRefines(s, c, at, data, s', start, end);
  }

  // ----- whole runs -----

  /** Every run keeps the heap well formed and implements the store: each live block holds exactly what
      its owner last wrote, whatever was allocated, freed and written elsewhere in between. */
  lemma {:induction false} RunRefines(ss: seq<State>, es: seq<Event>, start: nat, end: nat)
    requires Run(ss, es, start, end)
    ensures Invariant(ss[|es|], start, end)
    ensures Contents(ss[|es|]) == StoreAfter(es)
    decreases |es|
  {
    if es == [] {
    } else {
      var k := |es| - 1;
      assert Run(ss[..k + 1], es[..k], start, end);
      RunRefines(ss[..k + 1], es[..k], start, end);
      assert Step(ss[k], es[k], ss[k + 1], start, end);
      StepRefines(ss[k], es[k], ss[k + 1], start, end);
    }
  }

  /** When everything granted has been released, in whatever order, the heap is one free chunk again. */
  lemma AllReleased(ss: seq<State>, es: seq<Event>, start: nat, end: nat)
    requires Run(ss, es, start, end) && start + HEADER <= end
    requires StoreAfter(es) == map[]
    ensures ss[|es|].cs == [Chunk(start, end - start - HEADER, false)]
  {
    RunRefines(ss, es, start, end);
    assert Contents(ss[|es|]).Keys == Live(ss[|es|].cs);
    NothingLive(ss[|es|].cs, start, end);
  }

  /** The layout of the heap forgets how it came about: two runs that leave the same blocks live end
      with the same chunk list, so the next `malloc` of either gives the same answer. */
  lemma HistoryIndependent(ss: seq<State>, es: seq<Event>, ss': seq<State>, es': seq<Event>, start: nat, end: nat)
    requires Run(ss, es, start, end) && Run(ss', es', start, end)
    requires StoreAfter(es).Keys == StoreAfter(es').Keys
    ensures ss[|es|].cs == ss'[|es'|].cs
  {
    RunRefines(ss, es, start, end);
    RunRefines(ss', es', start, end);
    assert Contents(ss[|es|]).Keys == Live(ss[|es|].cs);
    assert Contents(ss'[|es'|]).Keys == Live(ss'[|es'|].cs);
    Canonical(ss[|es|].cs, ss'[|es'|].cs, start, end);
  }
}
