/** Single bits of 32-bit words, and maps of blocks as sequences of flags (true: in use). */
module BlockBits {
  type BlockMap = seq<bool>

  // ----- bits of a word -----

  function Mask(k: nat): bv32
    requires k < 32
  {
    (1 as bv32) << k
  }

  function Or(w: bv32, m: bv32): bv32 { w | m }

  function AndNot(w: bv32, m: bv32): bv32 { w & !m }

  predicate Meets(w: bv32, m: bv32) { w & m != 0 }

  predicate Bit(w: bv32, k: nat)
    requires k < 32
  {
    Meets(w, Mask(k))
  }

  lemma MaskDistinct(j: nat, k: nat)
    requires j < 32 && k < 32 && j != k
    ensures !Meets(Mask(j), Mask(k))
  {
  }

  lemma MaskNonzero(k: nat)
    requires k < 32
    ensures Mask(k) != 0
  {
  }

  lemma OrOther(w: bv32, m: bv32, n: bv32)
    requires !Meets(m, n)
    ensures Meets(Or(w, m), n) == Meets(w, n)
  {
  }

  lemma AndNotOther(w: bv32, m: bv32, n: bv32)
    requires !Meets(m, n)
    ensures Meets(AndNot(w, m), n) == Meets(w, n)
  {
  }

  lemma OrOwn(w: bv32, m: bv32)
    requires m != 0
    ensures Meets(Or(w, m), m)
  {
  }

  lemma AndNotOwn(w: bv32, m: bv32)
    ensures !Meets(AndNot(w, m), m)
  {
  }

  lemma SetBit(w: bv32, k: nat, j: nat)
    requires k < 32 && j < 32
    ensures Bit(Or(w, Mask(k)), j) <==> j == k || Bit(w, j)
  {
    hide Mask, Meets, Or;
    if j != k {
      MaskDistinct(k, j);
      OrOther(w, Mask(k), Mask(j));
    } else {
      MaskNonzero(k);
      OrOwn(w, Mask(k));
    }
  }

  lemma ClearBit(w: bv32, k: nat, j: nat)
    requires k < 32 && j < 32
    ensures Bit(AndNot(w, Mask(k)), j) <==> j != k && Bit(w, j)
  {
    hide Mask, Meets, AndNot;
    if j != k {
      MaskDistinct(k, j);
      AndNotOther(w, Mask(k), Mask(j));
    } else {
      AndNotOwn(w, Mask(k));
    }
  }

  lemma FullWord(k: nat)
    requires k < 32
    ensures Bit(0xFFFF_FFFF, k)
  {
  }

  // ----- bits of a map -----

  predicate BitAt(ws: seq<bv32>, b: nat)
    requires b < 32 * |ws|
  {
    Bit(ws[b / 32], b % 32)
  }

  /** The first `n` bits of the words as flags. */
  function Flags(ws: seq<bv32>, n: nat): (m: BlockMap)
    requires n <= 32 * |ws|
    ensures |m| == n
  {
    seq(n, b requires 0 <= b < n => BitAt(ws, b))
  }

  function Fill(m: BlockMap, lo: nat, n: nat, used: bool): (r: BlockMap)
    requires lo + n <= |m|
    ensures |r| == |m|
    ensures forall b :: 0 <= b < |m| ==> r[b] == if lo <= b < lo + n then used else m[b]
  {
    m[..lo] + seq(n, _ => used) + m[lo + n..]
  }

  lemma FillStep(m: BlockMap, lo: nat, n: nat, used: bool)
    requires lo + n < |m|
    ensures Fill(m, lo, n, used)[lo + n := used] == Fill(m, lo, n + 1, used)
  {
  }

  lemma FillNone(m: BlockMap, lo: nat, used: bool)
    requires lo <= |m|
    ensures Fill(m, lo, 0, used) == m
  {
  }

  function Marked(w: bv32, k: nat, used: bool): bv32
    requires k < 32
  {
    if used then Or(w, Mask(k)) else AndNot(w, Mask(k))
  }

  /** Bit `k` of a word is tested, set and cleared with `1 << k`. */
  lemma BitOperations(w: bv32, k: nat)
    requires k < 32
    ensures Bit(w, k) == Meets(w, Mask(k))
    ensures Marked(w, k, true) == Or(w, Mask(k)) && Marked(w, k, false) == AndNot(w, Mask(k))
  {
    hide Mask, Or, AndNot, Meets;
  }

  lemma MaskIsShift(k: nat)
    requires k < 32
    ensures Mask(k) == (1 as bv32) << k
  {
  }

  lemma OrIs(w: bv32, m: bv32)
    ensures Or(w, m) == w | m
  {
  }

  lemma AndNotIs(w: bv32, m: bv32)
    ensures AndNot(w, m) == w & !m
  {
  }

  lemma MeetsIs(w: bv32, m: bv32)
    ensures Meets(w, m) == (w & m != 0)
  {
  }

  /** One bit of one word is one flag of the map. */
  lemma FlagsUpdate(ws: seq<bv32>, n: nat, b: nat, used: bool)
    requires b < n <= 32 * |ws|
    ensures var w := ws[b / 32];
            Flags(ws[b / 32 := Marked(w, b % 32, used)], n) == Flags(ws, n)[b := used]
  {
    hide Mask, Bit, Or, AndNot;
    var w := ws[b / 32];
    var ws' := ws[b / 32 := Marked(w, b % 32, used)];
    forall c | 0 <= c < n ensures BitAt(ws', c) == if c == b then used else BitAt(ws, c) {
      SetBit(w, b % 32, c % 32);
      ClearBit(w, b % 32, c % 32);
    }
  }

  /** Block `b` is bit `b % 32`, counted from the lowest, of word `b / 32`. */
  lemma FlagIsBit(ws: seq<bv32>, n: nat, b: nat)
    requires b < n <= 32 * |ws|
    ensures Flags(ws, n)[b] == Bit(ws[b / 32], b % 32)
  {
    hide Bit;
    assert Flags(ws, n)[b] == BitAt(ws, b);
  }

  // ----- counting -----

  function Count(m: BlockMap): nat {
    if m == [] then 0 else (if m[0] then 1 else 0) + Count(m[1..])
  }

  lemma {:induction false} CountConcat(a: BlockMap, b: BlockMap)
    ensures Count(a + b) == Count(a) + Count(b)
  {
    if a == [] {
      assert a + b == b;
    } else {
      assert (a + b)[1..] == a[1..] + b;
      CountConcat(a[1..], b);
    }
  }

  lemma {:induction false} CountBounds(m: BlockMap)
    ensures Count(m) <= |m|
    ensures Count(m) == |m| <==> forall b :: 0 <= b < |m| ==> m[b]
    ensures Count(m) == 0 <==> forall b :: 0 <= b < |m| ==> !m[b]
  {
    if m == [] {
    } else {
      CountBounds(m[1..]);
      assert forall b :: 1 <= b < |m| ==> m[b] == m[1..][b - 1];
    }
  }

  lemma CountSplice(a: BlockMap, m: BlockMap, b: BlockMap)
    ensures Count(a + m + b) == Count(a) + Count(m) + Count(b)
  {
    CountConcat(a + m, b);
    CountConcat(a, m);
  }

  lemma CountUniform(n: nat, used: bool)
    ensures Count(seq(n, _ => used)) == if used then n else 0
  {
    CountBounds(seq(n, _ => used));
  }

  /** Filling a range changes the count by what the range held. */
  lemma CountFill(m: BlockMap, lo: nat, n: nat, used: bool)
    requires lo + n <= |m|
    ensures Count(Fill(m, lo, n, used)) == Count(m) - Count(m[lo..lo + n]) + if used then n else 0
  {
    hide Count;
    assert m == m[..lo] + m[lo..lo + n] + m[lo + n..];
    CountSplice(m[..lo], m[lo..lo + n], m[lo + n..]);
    CountSplice(m[..lo], seq(n, _ => used), m[lo + n..]);
    CountUniform(n, used);
  }

  // ----- runs of free blocks -----

  predicate FreeRun(m: BlockMap, s: nat, n: nat) {
    s + n <= |m| && forall k :: s <= k < s + n ==> !m[k]
  }

  /** The lowest start of a free run of `n` blocks among the first `starts` blocks, or -1. */
  ghost predicate FirstFreeRun(m: BlockMap, starts: nat, n: nat, r: int) {
    if r == -1 then
      forall s: nat :: s < starts ==> !FreeRun(m, s, n)
    else
      && 0 <= r < starts && FreeRun(m, r, n)
      && forall s: nat :: s < r ==> !FreeRun(m, s, n)
  }
}
