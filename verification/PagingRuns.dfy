/** Whole runs of one kernel: `map_page`, `unmap_page`, `malloc`, `free` and client writes in any order. */
module PagingRuns {
  import opened Bytes
  import opened BlockBits
  import opened Masks
  import opened PageBits
  import T = PageTables
  import opened HeapLayout
  import opened HeapLinks
  import H = HeapRuns
  import opened PagingSteps
  import KernelHeap = Heap

  type Address = a: nat | a < 0x1_0000_0000

  datatype Event =
    | Map(physical: Address, virtual: Address, flags: Entry)
    | Unmap(virtual: Address)
    | Client(e: H.Event)              // malloc, free or a write by anyone but the pager

  /** A client frees and writes its own blocks only. */
  ghost predicate Own(e: H.Event, clients: set<Chunk>) {
    match e
    case Release(c) => c in clients
    case Write(c, at, data) => c in clients
    case _ => true
  }

  /** One step, as the contracts of pager and heap state it: which bytes are stored where, nothing about
      what that means. */
  ghost predicate Step(s: System, ev: Event, s': System, pd: nat, lo: nat, hi: nat) {
    && pd + PAGE <= |s.m|
    && match ev
       case Map(physical, virtual, flags) => MapStep(s, pd, lo, hi, virtual / PAGE, physical, flags, s')
       case Unmap(virtual) => UnmapStep(s, pd, virtual / PAGE, s')
       case Client(e) =>
         && s'.held == s.held && Own(e, Clients(s))
         && H.Step(H.State(s.m, s.cs), e, H.State(s'.m, s'.cs), lo, hi)
  }

  ghost predicate Run(ss: seq<System>, es: seq<Event>, pd: nat, lo: nat, hi: nat) {
    && |ss| == |es| + 1 && Good(ss[0], pd, lo, hi)
    && forall k :: 0 <= k < |es| ==> Step(ss[k], es[k], ss[k + 1], pd, lo, hi)
  }

  // ----- what a run has to leave -----

  /** The entry of page `v` after one event: only those about the page count. */
  function LeafNext(l: Entry, ev: Event, v: nat): Entry {
    match ev
    case Map(physical, virtual, flags) => if virtual / PAGE == v then MapWord(l, physical, flags) else l
    case Unmap(virtual) => if virtual / PAGE == v then UnmapWord(l) else l
    case Client(e) => l
  }

  /** The entry of page `v` after the first `n` events, from `l` on. */
  function LeafAfter(l: Entry, es: seq<Event>, v: nat, n: nat): Entry
    requires n <= |es|
  {
    if n == 0 then l else LeafNext(LeafAfter(l, es, v, n - 1), es[n - 1], v)
  }

  /** What the blocks of the clients hold. */
  function ClientStore(s: System): H.Store {
    map c | c in Clients(s) :: H.Payload(s.m, c)
  }

  function StoreNext(store: H.Store, ev: Event): H.Store {
    if ev.Client? then H.Effect(store, ev.e) else store
  }

  function StoreAfter(store: H.Store, es: seq<Event>, n: nat): H.Store
    requires n <= |es|
  {
    if n == 0 then store else StoreNext(StoreAfter(store, es, n - 1), es[n - 1])
  }

  // ----- one step -----

  /** Bytes of the tables that a step of the heap leaves alone. */
  lemma TablesKept(s: System, e: H.Event, s': System, pd: nat, lo: nat, hi: nat)
    requires Good(s, pd, lo, hi) && s'.held == s.held && Own(e, Clients(s))
    requires H.Step(H.State(s.m, s.cs), e, H.State(s'.m, s'.cs), lo, hi)
    ensures H.Isolated(s.m, s'.m, lo, hi, s.held) && s.held <= Live(s'.cs)
    ensures H.Invariant(H.State(s'.m, s'.cs), lo, hi)
    ensures H.Contents(H.State(s'.m, s'.cs)) == H.Effect(H.Contents(H.State(s.m, s.cs)), e)
  {
    hide Tiles, Coalesced, Linked, T.Paging, AfterMalloc, AfterFree, H.Effect;
    var before, after := H.State(s.m, s.cs), H.State(s'.m, s'.cs);
    H.StepRefines(before, e, after, lo, hi);
    match e
    case Grant(n, c, found) =>
      MallocLive(s.cs, lo, hi, n, FirstFit(s.cs, n));
      IsolatedLess(s.m, s'.m, lo, hi, Live(s.cs), s.held);
    case Refuse(n) =>
      NothingFits(before, n, after, lo, hi);
    case Release(c) =>
      var i :| 0 <= i < |s.cs| && s.cs[i] == c && c.used && H.FreeStep(before, i, after, lo, hi);
      FreeCorrect(s.cs, lo, hi, i);
      IsolatedLess(s.m, s'.m, lo, hi, Live(s'.cs), s.held);
    case Write(c, at, data) =>
      KernelHeap.WriteInside(s.m, s.cs, lo, hi, c, s.held, at, data);
  }

  lemma NothingFits(s: H.State, n: nat, s': H.State, lo: nat, hi: nat)
    requires H.Invariant(s, lo, hi) && H.MallocStep(s, n, 0, s', lo, hi)
    ensures s' == s
  {
    Disjoint(s.cs, lo, hi);
  }

  /** A step of the heap keeps every leaf and does to the clients' blocks what it says. */
  lemma ClientRefines(s: System, e: H.Event, s': System, pd: nat, lo: nat, hi: nat)
    requires Good(s, pd, lo, hi) && s'.held == s.held && Own(e, Clients(s))
    requires H.Step(H.State(s.m, s.cs), e, H.State(s'.m, s'.cs), lo, hi)
    ensures Good(s', pd, lo, hi) && LeavesKept(s.m, s'.m, pd)
    ensures ClientStore(s') == H.Effect(ClientStore(s), e) && TablesGrow(s.m, s'.m, pd, lo, hi)
  {
    hide T.Paging, T.SlotsKept, TablesGrow, H.Isolated, H.Step, LeavesKept, Tiles, Coalesced, Linked;
    TablesKept(s, e, s', pd, lo, hi);
    HeapKeepsTables(s.m, s'.m, pd, s.held, lo, hi);
    NoSlotNew(s.m, s'.m, pd, lo, hi);
    NewOnly(s, e, s', lo, hi);
    ClientEffect(s, e, s');
  }

  /** What is granted was nobody's before. */
  lemma NewOnly(s: System, e: H.Event, s': System, lo: nat, hi: nat)
    requires H.Invariant(H.State(s.m, s.cs), lo, hi)
    requires H.Step(H.State(s.m, s.cs), e, H.State(s'.m, s'.cs), lo, hi)
    ensures e.Grant? ==> e.c !in Live(s.cs)
  {
    hide Coalesced, Linked, H.Isolated, AfterMalloc, AfterFree;
    if e.Grant? {
      var i := FirstFit(s.cs, e.n);
      MallocLive(s.cs, lo, hi, e.n, i);
      if e.c in Live(s.cs) {
        InHeap(s.cs, lo, hi, e.c);
        ChunksApart(s.cs, lo, hi, e.c, s.cs[i]);
      }
    }
  }

  /** Restricted to the clients' blocks, the effect is the same. */
  lemma ClientEffect(s: System, e: H.Event, s': System)
    requires s.held <= Live(s.cs) && s'.held == s.held && Own(e, Clients(s)) && (e.Grant? ==> e.c !in Live(s.cs))
    requires H.Contents(H.State(s'.m, s'.cs)) == H.Effect(H.Contents(H.State(s.m, s.cs)), e)
    ensures ClientStore(s') == H.Effect(ClientStore(s), e)
  {
    hide H.Payload, Live;
    var was, now := H.Contents(H.State(s.m, s.cs)), H.Contents(H.State(s'.m, s'.cs));
    assert was.Keys == Live(s.cs) && now.Keys == Live(s'.cs);
    assert forall c :: c in ClientStore(s) ==> ClientStore(s)[c] == was[c];
    assert forall c :: c in ClientStore(s') ==> ClientStore(s')[c] == now[c];
  }

  /** Blocks that keep their bytes keep their content. */
  lemma StoreKept(s: System, s': System)
    requires Clients(s') == Clients(s) && KeptBytes(s.m, s'.m, Clients(s))
    ensures ClientStore(s') == ClientStore(s)
  {
    hide Clients;
    forall c | c in Clients(s) ensures H.Payload(s'.m, c) == H.Payload(s.m, c) {
    }
  }

  lemma StepRefines(s: System, ev: Event, s': System, pd: nat, lo: nat, hi: nat)
    requires Good(s, pd, lo, hi) && Step(s, ev, s', pd, lo, hi)
    ensures Good(s', pd, lo, hi) && |s'.m| == |s.m|
    ensures forall v :: 0 <= v < 0x10_0000 ==> T.LeafOf(s'.m, pd, v) == LeafNext(T.LeafOf(s.m, pd, v), ev, v)
    ensures ClientStore(s') == StoreNext(ClientStore(s), ev)
    ensures TablesGrow(s.m, s'.m, pd, lo, hi)
  {
    hide Good, T.LeafOf, MapWord, UnmapWord, MapStep, UnmapStep, ClientStore, Clients, KeptBytes, H.Step, H.Effect;
    hide TablesGrow, T.SlotsKept;
    InRange(s, pd, lo, hi);
    match ev
    case Map(physical, virtual, flags) =>
      MapRefines(s, pd, lo, hi, virtual / PAGE, physical, flags, s');
      StoreKept(s, s');
    case Unmap(virtual) =>
      UnmapRefines(s, pd, lo, hi, virtual / PAGE, s');
      StoreKept(s, s');
    case Client(e) =>
      ClientRefines(s, e, s', pd, lo, hi);
  }

  // ----- runs -----

  /** After any run heap and tables are well formed, the entry of each page is what the events about that
      page make of it, and each client block holds what its owner last wrote. */
  lemma {:induction false} RunRefines(ss: seq<System>, es: seq<Event>, pd: nat, lo: nat, hi: nat, n: nat)
    requires Run(ss, es, pd, lo, hi) && n <= |es|
    ensures Good(ss[n], pd, lo, hi) && pd + PAGE <= |ss[0].m| == |ss[n].m|
    ensures forall v :: 0 <= v < 0x10_0000 ==>
              T.LeafOf(ss[n].m, pd, v) == LeafAfter(T.LeafOf(ss[0].m, pd, v), es, v, n)
    ensures ClientStore(ss[n]) == StoreAfter(ClientStore(ss[0]), es, n)
    ensures TablesGrow(ss[0].m, ss[n].m, pd, lo, hi)
  {
    hide TablesGrow, Good, T.LeafOf, LeafNext, Step, ClientStore, StoreNext;
    InRange(ss[0], pd, lo, hi);
    if n == 0 {
      GrowNot(ss[0].m, pd, lo, hi);
    } else {
      RunRefines(ss, es, pd, lo, hi, n - 1);
      StepRefines(ss[n - 1], es[n - 1], ss[n], pd, lo, hi);
      GrowTrans(ss[0].m, ss[n - 1].m, ss[n].m, pd, lo, hi);
    }
  }

  /** The last event about page `v` among the first `n`, or -1. */
  function LastAbout(es: seq<Event>, v: nat, n: nat): (k: int)
    requires n <= |es|
    ensures -1 <= k < n
    ensures k >= 0 ==> !es[k].Client? && es[k].virtual / PAGE == v
    ensures forall j :: k < j < n ==> es[j].Client? || es[j].virtual / PAGE != v
  {
    if n == 0 then -1
    else if !es[n - 1].Client? && es[n - 1].virtual / PAGE == v then n - 1
    else LastAbout(es, v, n - 1)
  }

  /** Later events about other pages leave the entry alone. */
  lemma {:induction false} LeafSince(l: Entry, es: seq<Event>, v: nat, k: nat, n: nat)
    requires k <= n <= |es| && forall j :: k <= j < n ==> es[j].Client? || es[j].virtual / PAGE != v
    ensures LeafAfter(l, es, v, n) == LeafAfter(l, es, v, k)
  {
    if k == n {
    } else {
      LeafSince(l, es, v, k, n - 1);
    }
  }

  lemma LeafUnfold(l: Entry, es: seq<Event>, v: nat, k: nat)
    requires k < |es|
    ensures LeafAfter(l, es, v, 0) == l
    ensures LeafAfter(l, es, v, k + 1) == LeafNext(LeafAfter(l, es, v, k), es[k], v)
  {
  }

  // ----- bit 31 -----

  /** A map of page `v` that brings bit 31, with the address or with the flags. */
  predicate BringsTop(ev: Event, v: nat) {
    ev.Map? && ev.virtual / PAGE == v && (ev.physical >= 0x8000_0000 || Bit31(ev.flags))
  }

  /** The entry had bit 31 at the start, or one of the first `n` events brought it. */
  ghost predicate EverTop(l: Entry, es: seq<Event>, v: nat, n: nat)
    requires n <= |es|
  {
    Bit31(l) || exists j :: 0 <= j < n && BringsTop(es[j], v)
  }

  /** Once there, bit 31 stays. */
  lemma {:induction false} TopStays(l: Entry, es: seq<Event>, v: nat, n: nat)
    requires n <= |es|
    ensures Bit31(LeafAfter(l, es, v, n)) <==> EverTop(l, es, v, n)
  {
    hide Bit31, MapWord, UnmapWord, Present, FrameOf, And, Or, Shown, LowBits;
    if n == 0 {
    } else {
      TopStays(l, es, v, n - 1);
      var before := LeafAfter(l, es, v, n - 1);
      ClearedEntry(before);
      if es[n - 1].Map? {
        MappedEntry(before, es[n - 1].physical, es[n - 1].flags);
      }
      TopNext(l, es, v, n);
    }
  }

  lemma TopNext(l: Entry, es: seq<Event>, v: nat, n: nat)
    requires 0 < n <= |es|
    ensures EverTop(l, es, v, n) <==> EverTop(l, es, v, n - 1) || BringsTop(es[n - 1], v)
  {
    hide Bit31, BringsTop;
  }

  // ----- translations -----

  /** What the last event about the page makes of its entry. */
  lemma LastDecides(l: Entry, es: seq<Event>, v: nat, n: nat)
    requires n <= |es|
    ensures var k, e := LastAbout(es, v, n), LeafAfter(l, es, v, n);
            if k == -1 then e == l
            else if es[k].Unmap? then !Present(e)
            else
              var stuck := EverTop(l, es, v, k) || Bit31(es[k].flags);
              && Present(e) && FrameOf(e) == Shown(stuck, es[k].physical)
              && (FrameOf(e) == RoundDown(es[k].physical, PAGE) <==> (stuck ==> es[k].physical >= 0x8000_0000))
              && And(e, 0xFFF) == LowBits(LeafAfter(l, es, v, k), es[k].physical, es[k].flags)
  {
    hide MapWord, UnmapWord, FrameOf, And, Or, Bit31, Present, LastAbout, Shown, LowBits, RoundDown, EverTop;
    var k := LastAbout(es, v, n);
    LeafSince(l, es, v, k + 1, n);
    if k >= 0 {
      LeafUnfold(l, es, v, k);
      hide LeafAfter;
      TopStays(l, es, v, k);
      ClearedEntry(LeafAfter(l, es, v, k));
      if es[k].Map? {
        MappedEntry(LeafAfter(l, es, v, k), es[k].physical, es[k].flags);
      }
    }
  }

  /** Each page is translated as the last event about it says: not at all after an unmap; after a map with the
      flags asked for on top of those the entry had, to the frame asked for if and only if that lies from 2^31
      on or bit 31 had never been in the entry; as at the start if there was no event. */
  lemma RunTranslates(ss: seq<System>, es: seq<Event>, pd: nat, lo: nat, hi: nat, n: nat, v: nat)
    requires Run(ss, es, pd, lo, hi) && n <= |es| && v < 0x10_0000
    ensures pd + PAGE <= |ss[0].m| == |ss[n].m|
    ensures var first, last, k := T.SpaceOf(ss[0].m, pd), T.SpaceOf(ss[n].m, pd), LastAbout(es, v, n);
            var l := T.LeafOf(ss[0].m, pd, v);
            if k == -1 then (v in last <==> v in first) && (v in last ==> last[v] == first[v])
            else if es[k].Unmap? then v !in last
            else
              var stuck := EverTop(l, es, v, k) || Bit31(es[k].flags);
              && v in last && FrameOf(last[v]) == Shown(stuck, es[k].physical)
              && (FrameOf(last[v]) == RoundDown(es[k].physical, PAGE) <==> (stuck ==> es[k].physical >= 0x8000_0000))
              && And(last[v], 0xFFF) == LowBits(LeafAfter(l, es, v, k), es[k].physical, es[k].flags)
  {
    hide Good, Step, T.LeafOf, T.SpaceOf, LeafAfter, FrameOf, And, Or, Bit31, Present, ClientStore, StoreAfter;
    hide Shown, LowBits, RoundDown, EverTop, TablesGrow, LastAbout;
    RunRefines(ss, es, pd, lo, hi, n);
    T.InSpace(ss[0].m, pd, v);
    T.InSpace(ss[n].m, pd, v);
    LastDecides(T.LeafOf(ss[0].m, pd, v), es, v, n);
  }

  /** A device page mapped and unmapped, then a low page mapped in its place: the entry points 2^31 too
      high. */
  lemma TopLeftBehind(virtual: Address, flags: Entry)
    requires !Bit31(flags)
    ensures var es := [Map(0xFEBF_1000, virtual, flags), Unmap(virtual), Map(0x5000, virtual, flags)];
            FrameOf(LeafAfter(0, es, virtual / PAGE, 3)) == 0x8000_5000
  {
    hide MapWord, UnmapWord, FrameOf, And, Or, Bit31, Present, LowBits, LeafAfter, LeafNext, EverTop;
    var es := [Map(0xFEBF_1000, virtual, flags), Unmap(virtual), Map(0x5000, virtual, flags)];
    LastDecides(0, es, virtual / PAGE, 3);
    assert BringsTop(es[0], virtual / PAGE);
    TopAmong(0, es, virtual / PAGE, 2, 0);
  }

  lemma TopAmong(l: Entry, es: seq<Event>, v: nat, n: nat, j: nat)
    requires j < n <= |es| && BringsTop(es[j], v)
    ensures EverTop(l, es, v, n)
  {
  }
}
