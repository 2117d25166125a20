/** The books of the block manager over whole runs: the map of blocks and the count kept beside it. */
module BlockRuns {
  import opened Bytes
  import opened BlockBits

  datatype Books = Books(blocks: BlockMap, used: nat)

  // ----- what each operation does to the books -----

  /** `init_memory_region`: give `n` blocks from `lo` up for use; block 0 stays reserved. */
  function AfterRegion(b: Books, lo: nat, n: nat): Books
    requires lo + n <= |b.blocks| && |b.blocks| > 0
  {
    Books(Fill(b.blocks, lo, n, false)[0 := true], U32(b.used - n))
  }

  /** `deinit_memory_region` and a granted `alloc_blocks`. */
  function AfterTake(b: Books, lo: nat, n: nat): Books
    requires lo + n <= |b.blocks|
  {
    Books(Fill(b.blocks, lo, n, true), U32(b.used + n))
  }

  /** `free_blocks`. */
  function AfterGive(b: Books, lo: nat, n: nat): Books
    requires lo + n <= |b.blocks|
  {
    Books(Fill(b.blocks, lo, n, false), U32(b.used - n))
  }

  ghost predicate Refused(b: Books, n: nat) {
    n == 0 || U32(|b.blocks| - b.used) <= n || forall s: nat :: s < |b.blocks| ==> !FreeRun(b.blocks, s, n)
  }

  /** `alloc_blocks` takes the lowest free run, but refuses a request for all the blocks that are left. */
  ghost predicate Alloc(b: Books, n: nat, address: nat, b': Books) {
    if Refused(b, n) then
      address == 0 && b' == b
    else
      && address % 4096 == 0
      && FirstFreeRun(b.blocks, |b.blocks|, n, address / 4096)
      && b' == AfterTake(b, address / 4096, n)
  }

  lemma SearchOutcome(m: BlockMap, n: nat, r: int)
    requires n > 0 && FirstFreeRun(m, |m|, n, r)
    ensures r == -1 <==> forall s: nat :: s < |m| ==> !FreeRun(m, s, n)
    ensures r != -1 ==> 0 <= r && r + n <= |m|
  {
  }

  // ----- the operations block by block -----

  /** What handing over, withdrawing and freeing leave of each block and of the count. */
  lemma BooksAfter(b: Books, lo: nat, n: nat, k: nat)
    requires lo + n <= |b.blocks| && k < |b.blocks|
    ensures var r := AfterRegion(b, lo, n);
            |r.blocks| == |b.blocks| && r.blocks[k] == (k == 0 || (b.blocks[k] && !(lo <= k < lo + n)))
            && r.used == (b.used - n) % 4294967296
    ensures var r := AfterTake(b, lo, n);
            |r.blocks| == |b.blocks| && r.blocks[k] == (b.blocks[k] || lo <= k < lo + n)
            && r.used == (b.used + n) % 4294967296
    ensures var r := AfterGive(b, lo, n);
            |r.blocks| == |b.blocks| && r.blocks[k] == (b.blocks[k] && !(lo <= k < lo + n))
            && r.used == (b.used - n) % 4294967296
  {
  }

  /** With block 0 in use a request yields 0 exactly when it is for none, for as many as the count leaves or
      more, or for a longer run than there is. */
  lemma AllocRefuses(b: Books, n: nat, address: nat, b': Books)
    requires 0 < |b.blocks| && b.blocks[0] && Alloc(b, n, address, b')
    ensures address == 0 <==>
            || n == 0 || (|b.blocks| - b.used) % 4294967296 <= n
            || forall s: nat :: s < |b.blocks| && !b.blocks[s] ==>
                 s + n > |b.blocks| || exists k :: s < k < s + n && b.blocks[k]
    ensures address == 0 ==> b' == b
  {
    if n > 0 {
      NoRun(b.blocks, n);
    }
  }

  /** No run of `n` free blocks: each free block is followed too soon by one in use or by the end. */
  lemma NoRun(m: BlockMap, n: nat)
    requires n > 0
    ensures (forall s: nat :: s < |m| ==> !FreeRun(m, s, n)) <==>
            forall s: nat :: s < |m| && !m[s] ==> s + n > |m| || exists k :: s < k < s + n && m[k]
  {
    forall s: nat | s < |m|
      ensures FreeRun(m, s, n) <==> !m[s] && s + n <= |m| && forall k :: s < k < s + n ==> !m[k]
    {
      RunFrom(m, s, n);
    }
  }

  lemma RunFrom(m: BlockMap, s: nat, n: nat)
    requires n > 0 && s < |m|
    ensures FreeRun(m, s, n) <==> !m[s] && s + n <= |m| && forall k :: s < k < s + n ==> !m[k]
  {
  }

  /** Otherwise it takes the lowest run of free blocks that is long enough. */
  lemma AllocTakes(b: Books, n: nat, address: nat, b': Books)
    requires 0 < |b.blocks| && b.blocks[0] && Alloc(b, n, address, b') && address != 0
    ensures address % 4096 == 0 && address / 4096 + n <= |b.blocks| == |b'.blocks|
    ensures forall k :: 0 <= k < |b.blocks| ==>
              if address / 4096 <= k < address / 4096 + n then !b.blocks[k] && b'.blocks[k]
              else b'.blocks[k] == b.blocks[k]
    ensures forall s: nat :: s < address / 4096 && !b.blocks[s] ==> exists k :: s < k < s + n && b.blocks[k]
    ensures b'.used == (b.used + n) % 4294967296
  {
    var r := address / 4096;
    assert FreeRun(b.blocks, r, n) && n > 0;
    forall s: nat | s < r && !b.blocks[s] ensures exists k :: s < k < s + n && b.blocks[k] {
      RunFrom(b.blocks, s, n);
    }
  }

  // ----- the count and the map agree -----

  ghost predicate Agrees(b: Books) {
    0 < |b.blocks| < 0x10_0000 && b.used == Count(b.blocks) && b.blocks[0]
  }

  predicate Uniform(m: BlockMap, lo: nat, n: nat, used: bool)
    requires lo + n <= |m|
  {
    forall k :: lo <= k < lo + n ==> m[k] == used
  }

  lemma UniformCount(m: BlockMap, lo: nat, n: nat)
    requires lo + n <= |m|
    ensures Count(m[lo..lo + n]) <= n
    ensures Count(m[lo..lo + n]) == n <==> Uniform(m, lo, n, true)
    ensures Count(m[lo..lo + n]) == 0 <==> Uniform(m, lo, n, false)
  {
    var r := m[lo..lo + n];
    CountBounds(r);
    assert forall k :: lo <= k < lo + n ==> m[k] == r[k - lo];
  }

  /** Freeing keeps the books in agreement exactly when every freed block was in use and block 0 is
      not among them. */
  lemma GiveAgrees(b: Books, lo: nat, n: nat)
    requires Agrees(b) && lo + n <= |b.blocks|
    ensures Agrees(AfterGive(b, lo, n)) <==> n == 0 || (lo > 0 && Uniform(b.blocks, lo, n, true))
  {
    CountFill(b.blocks, lo, n, false);
    CountBounds(b.blocks);
    UniformCount(b.blocks, lo, n);
  }

  /** The same condition for handing a region over: block 0 is set again, but not counted again. */
  lemma RegionAgrees(b: Books, lo: nat, n: nat)
    requires Agrees(b) && lo + n <= |b.blocks|
    ensures Agrees(AfterRegion(b, lo, n)) <==> n == 0 || (lo > 0 && Uniform(b.blocks, lo, n, true))
  {
    hide Count;
    var given := AfterGive(b, lo, n);
    GiveAgrees(b, lo, n);
    if given.blocks[0] {
      assert AfterRegion(b, lo, n) == given;
    } else {
      CountFill(b.blocks, lo, n, false);
      CountFill(given.blocks, 0, 1, true);
      assert Fill(given.blocks, 0, 1, true) == AfterRegion(b, lo, n).blocks;
      UniformCount(given.blocks, 0, 1);
      UniformCount(b.blocks, lo, n);
    }
  }

  /** A region that starts at address 0: block 0 is counted as given and stays in use. */
  lemma RegionAtZero(b: Books, n: nat)
    requires Agrees(b) && 0 < n <= |b.blocks|
    ensures !Agrees(AfterRegion(b, 0, n)) && AfterRegion(b, 0, n).blocks[0]
    ensures Uniform(b.blocks, 0, n, true) ==> Count(AfterRegion(b, 0, n).blocks) == AfterRegion(b, 0, n).used + 1
  {
    RegionAgrees(b, 0, n);
    var given := Fill(b.blocks, 0, n, false);
    CountFill(b.blocks, 0, n, false);
    CountFill(given, 0, 1, true);
    UniformCount(b.blocks, 0, n);
    UniformCount(given, 0, 1);
    CountBounds(b.blocks);
    hide Count;
    assert AfterRegion(b, 0, n).blocks == Fill(given, 0, 1, true);
  }

  /** Taking blocks keeps the books in agreement exactly when none of them was in use. */
  lemma TakeAgrees(b: Books, lo: nat, n: nat)
    requires Agrees(b) && lo + n <= |b.blocks|
    ensures Agrees(AfterTake(b, lo, n)) <==> Uniform(b.blocks, lo, n, false)
  {
    CountFill(b.blocks, lo, n, true);
    CountBounds(b.blocks);
    UniformCount(b.blocks, lo, n);
  }

  /** A granted request never yields address 0, and freeing it gives back the very same books. */
  lemma AllocThenFree(b: Books, n: nat, address: nat, b': Books)
    requires Agrees(b) && Alloc(b, n, address, b')
    ensures Agrees(b')
    ensures address == 0 <==> Refused(b, n)
    ensures Refused(b, n)
            <==> n == 0 || |b.blocks| - b.used <= n || forall s: nat :: s < |b.blocks| ==> !FreeRun(b.blocks, s, n)
    ensures address != 0 ==> address / 4096 + n <= |b.blocks| && AfterGive(b', address / 4096, n) == b
  {
    hide Count;
    CountBounds(b.blocks);
    if !Refused(b, n) {
      var s := address / 4096;
      assert FreeRun(b.blocks, s, n);
      TakeAgrees(b, s, n);
      assert !b.blocks[s];
      CountFill(b.blocks, s, n, true);
      CountBounds(b'.blocks);
      assert Fill(Fill(b.blocks, s, n, true), s, n, false) == b.blocks;
    }
  }

  /** A map with nothing but block 0 in use: the other blocks form a free run, and a request for them is
      refused. */
  lemma LastBlocksRefused(n: nat)
    requires n < 0x10_0000 - 1
    ensures var b := Books([true] + Clear(n), 1);
            Agrees(b) && FreeRun(b.blocks, 1, n) && Refused(b, n) && Alloc(b, n, 0, b)
  {
    var m := [true] + Clear(n);
    OneUsed(n);
    hide Count;
    assert forall k :: 1 <= k < |m| ==> !m[k];
  }

  lemma OneUsed(n: nat)
    ensures Count([true] + Clear(n)) == 1
  {
    assert Count([true]) == 1;
    hide Count;
    CountConcat([true], Clear(n));
    UniformCount(Clear(n), 0, n);
    assert Clear(n)[0..n] == Clear(n);
  }

  /** Before the block manager is initialised it has no blocks, and every request yields 0. */
  lemma NoBlocksYet(n: nat)
    ensures Alloc(Books([], 0), n, 0, Books([], 0))
  {
  }

  function Clear(n: nat): (m: BlockMap)
    ensures |m| == n && forall k :: 0 <= k < n ==> !m[k]
  {
    seq(n, _ => false)
  }

  // ----- whole runs -----

  datatype Event =
    | Region(lo: nat, n: nat)
    | Deinit(lo: nat, n: nat)
    | Request(n: nat, address: nat)
    | Free(address: nat, n: nat)

  ghost predicate Step(b: Books, e: Event, b': Books) {
    match e
    case Region(lo, n) => lo + n <= |b.blocks| && |b.blocks| > 0 && b' == AfterRegion(b, lo, n)
    case Deinit(lo, n) => lo + n <= |b.blocks| && b' == AfterTake(b, lo, n)
    case Request(n, address) => Alloc(b, n, address, b')
    case Free(address, n) => address / 4096 + n <= |b.blocks| && b' == AfterGive(b, address / 4096, n)
  }

  /** What callers have to respect: only blocks in use are given up, never block 0, and only free blocks
      are withdrawn. Requests are free of conditions. */
  ghost predicate Respects(b: Books, e: Event) {
    match e
    case Region(lo, n) => n == 0 || (lo > 0 && lo + n <= |b.blocks| && Uniform(b.blocks, lo, n, true))
    case Deinit(lo, n) => lo + n <= |b.blocks| && Uniform(b.blocks, lo, n, false)
    case Request(n, address) => true
    case Free(address, n) =>
      var lo := address / 4096;
      n == 0 || (lo > 0 && lo + n <= |b.blocks| && Uniform(b.blocks, lo, n, true))
  }

  lemma StepAgrees(b: Books, e: Event, b': Books)
    requires Agrees(b) && Step(b, e, b')
    ensures e.Request? ==> Agrees(b')
    ensures !e.Request? ==> (Agrees(b') <==> Respects(b, e))
  {
    match e
    case Region(lo, n) => RegionAgrees(b, lo, n);
    case Deinit(lo, n) => TakeAgrees(b, lo, n);
    case Request(n, address) => AllocThenFree(b, n, address, b');
    case Free(address, n) => GiveAgrees(b, address / 4096, n);
  }

  ghost predicate Run(bs: seq<Books>, es: seq<Event>) {
    && |bs| == |es| + 1 && Agrees(bs[0])
    && forall k :: 0 <= k < |es| ==> Step(bs[k], es[k], bs[k + 1])
  }

  /** Along a run the books agree all the way exactly when every caller respected the rules. */
  lemma {:induction false} RunAgrees(bs: seq<Books>, es: seq<Event>)
    requires Run(bs, es)
    ensures (forall k :: 0 <= k < |bs| ==> Agrees(bs[k])) <==> forall k :: 0 <= k < |es| ==> Respects(bs[k], es[k])
  {
    if es == [] {
    } else {
      var n := |es| - 1;
      assert Run(bs[..n + 1], es[..n]);
      RunAgrees(bs[..n + 1], es[..n]);
      assert Step(bs[n], es[n], bs[n + 1]);
      if Agrees(bs[n]) {
        StepAgrees(bs[n], es[n], bs[n + 1]);
      }
    }
  }
}
