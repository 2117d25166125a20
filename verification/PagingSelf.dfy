/** The pages through which pager and heap themselves load and store. Once paging is on, their accesses go
    through the tables too; they reach the memory they mean as long as these pages are mapped to themselves. */
module PagingSelf {
  import opened Bytes
  import opened BlockBits
  import opened Masks
  import opened PageBits
  import T = PageTables
  import opened HeapLayout
  import opened Paging
  import opened PagingSteps
  import opened PagingRuns

  /** Page `v` has a byte in [a, b). */
  predicate Touches(v: nat, a: nat, b: nat) { PAGE * v < b && a < PAGE * v + PAGE }

  /** Page 0, the directory, the heap and the tables. */
  ghost predicate Reserved(s: System, pd: nat, lo: nat, hi: nat, v: nat)
    requires pd + PAGE <= |s.m|
  {
    || v == 0 || Touches(v, pd, pd + PAGE) || Touches(v, lo, hi)
    || exists i :: 0 <= i < 1024 && InTable(s.m, pd, i, v)
  }

  ghost predicate InTable(m: Memory, pd: nat, i: nat, v: nat)
    requires pd + PAGE <= |m| && i < 1024
  {
    T.HasTable(m, pd, i) && Touches(v, T.TableOf(m, pd, i), T.TableOf(m, pd, i) + PAGE)
  }

  ghost predicate ToItself(m: Memory, pd: nat, v: nat)
    requires pd + PAGE <= |m|
  {
    v in T.SpaceOf(m, pd) && FrameOf(T.SpaceOf(m, pd)[v]) == PAGE * v
  }

  /** Pager and heap reach their own memory. */
  ghost predicate SelfMapped(s: System, pd: nat, lo: nat, hi: nat)
    requires pd + PAGE <= |s.m|
  {
    forall v :: 0 <= v < 0x10_0000 && Reserved(s, pd, lo, hi, v) ==> ToItself(s.m, pd, v)
  }

  /** No mapping or unmapping concerns a page that is reserved at the start. */
  ghost predicate Avoids(es: seq<Event>, s: System, pd: nat, lo: nat, hi: nat)
    requires pd + PAGE <= |s.m|
  {
    forall j :: 0 <= j < |es| && !es[j].Client? ==> !Reserved(s, pd, lo, hi, es[j].virtual / PAGE)
  }

  /** When a page is mapped to itself after a run: it was at the start and no event was about it, or the last
      one put it there. */
  lemma ItselfExactly(ss: seq<System>, es: seq<Event>, pd: nat, lo: nat, hi: nat, n: nat, v: nat)
    requires Run(ss, es, pd, lo, hi) && n <= |es| && v < 0x10_0000
    ensures pd + PAGE <= |ss[0].m| == |ss[n].m|
    ensures var k, l := LastAbout(es, v, n), T.LeafOf(ss[0].m, pd, v);
            ToItself(ss[n].m, pd, v) <==>
            if k == -1 then ToItself(ss[0].m, pd, v)
            else es[k].Map? && Shown(EverTop(l, es, v, k) || Bit31(es[k].flags), es[k].physical) == PAGE * v
  {
    hide T.SpaceOf, T.LeafOf, FrameOf, Shown, EverTop, Bit31, And, LowBits, LeafAfter, Run, LastAbout;
    RunTranslates(ss, es, pd, lo, hi, n, v);
  }

  /** Tables installed on the way lie in the heap, so no page becomes reserved. */
  lemma NothingMoreReserved(s: System, s': System, pd: nat, lo: nat, hi: nat, v: nat)
    requires TablesGrow(s.m, s'.m, pd, lo, hi) && Reserved(s', pd, lo, hi, v)
    ensures Reserved(s, pd, lo, hi, v)
  {
    hide T.HasTable, T.TableOf;
    if !(v == 0 || Touches(v, pd, pd + PAGE) || Touches(v, lo, hi)) {
      var i :| 0 <= i < 1024 && InTable(s'.m, pd, i, v);
      assert InTable(s.m, pd, i, v);
    }
  }

  /** Along a run that leaves the reserved pages alone, pager and heap reach their own memory at every
      moment: what the steps store goes where they mean it. */
  lemma StaysSelfMapped(ss: seq<System>, es: seq<Event>, pd: nat, lo: nat, hi: nat, n: nat)
    requires Run(ss, es, pd, lo, hi) && n <= |es| && pd + PAGE <= |ss[0].m|
    requires SelfMapped(ss[0], pd, lo, hi) && Avoids(es, ss[0], pd, lo, hi)
    ensures pd + PAGE <= |ss[n].m| && SelfMapped(ss[n], pd, lo, hi)
  {
    hide Reserved, ToItself, Step, T.LeafOf, Shown, EverTop, Bit31, Good, LeafAfter, StoreAfter, ClientStore;
    hide TablesGrow;
    RunRefines(ss, es, pd, lo, hi, n);
    forall v | 0 <= v < 0x10_0000 && Reserved(ss[n], pd, lo, hi, v) ensures ToItself(ss[n].m, pd, v) {
      NothingMoreReserved(ss[0], ss[n], pd, lo, hi, v);
      ItselfExactly(ss, es, pd, lo, hi, n, v);
    }
  }

  /** The first tables map every reserved page to itself if directory, table and heap lie in the first
      4 MiB, where the kernel puts its heap. */
  lemma StartsSelfMapped(m: Memory, m': Memory, d: nat, t: nat, cs: seq<Chunk>, lo: nat, hi: nat)
    requires FirstTables(m, m', d, t) && d % PAGE == 0 && t % PAGE == 0 && CanStart(d, t, lo, hi)
    requires d + PAGE <= 0x40_0000 && t + PAGE <= 0x40_0000 && hi <= 0x40_0000
    ensures SelfMapped(System(m', cs, {}), d, lo, hi)
  {
    hide T.EntryAt, T.SpaceOf, FirstTables, FrameOf, Present, And, Or, IdentityEntry, T.LeafOf;
    var s := System(m', cs, {});
    FirstRange(m, m', d, t);
    IdentityLeaves(m, m', d, t);
    IdentitySpace(m', d);
    forall v | 0 <= v < 0x10_0000 && Reserved(s, d, lo, hi, v) ensures ToItself(m', d, v) {
      if exists i :: 0 <= i < 1024 && InTable(m', d, i, v) {
        var i :| 0 <= i < 1024 && InTable(m', d, i, v);
        OnlyTable(m, m', d, t, i);
      }
      assert v < 1024;
    }
  }

  lemma FirstRange(m: Memory, m': Memory, d: nat, t: nat)
    requires FirstTables(m, m', d, t)
    ensures d + PAGE <= |m'|
  {
  }

  lemma OnlyTable(m: Memory, m': Memory, d: nat, t: nat, i: nat)
    requires FirstTables(m, m', d, t) && d != t && t % PAGE == 0 && i < 1024
    requires d + PAGE <= |m'| && T.HasTable(m', d, i)
    ensures T.TableOf(m', d, i) == t
  {
    hide T.EntryAt, FrameOf, Present, FirstWord, IdentityEntry;
    FirstSlotHas(m, m', d, t);
    SmallWords();
  }
}
