/** Page directory and page table entries: the bit operations of the paging macros, and their meaning
    for frame addresses. */
module PageBits {
  import opened Bytes
  import opened BlockBits
  import opened Masks

  type Entry = bv32

  const PRESENT: Entry := 0x1
  const RW: Entry := 0x2
  const PAGE: nat := 0x1000

  function And(w: Entry, m: Entry): Entry { w & m }

  /** `PAGE_PHYS_ADDRESS`, before it is used as an address. */
  function FrameBits(e: Entry): Entry { And(e, 0xFFFF_F000) }

  function FrameOf(e: Entry): nat { FrameBits(e) as int }

  predicate Present(e: Entry) { And(e, PRESENT) == PRESENT }

  /** `SET_FRAME` leaves bit 31 and the attributes alone. */
  function SetFrame(e: Entry, a: Entry): Entry { Or(And(e, 0x8000_0FFF), a) }

  predicate Bit31(e: Entry) { And(e, 0x8000_0000) != 0 }

  // ----- conversions between numbers and words -----

  lemma FromWord(w: Entry)
    ensures (w as int) as bv32 == w && 0 <= w as int < WORD
  {
  }

  lemma NibbleRound(x: nat)
    requires x < 0x10
    ensures (x as bv4) as int == x
  {
  }

  lemma Pair4(hi: bv4, lo: bv4)
    ensures ((hi as bv8 << 4) | (lo as bv8)) as int == hi as int * 0x10 + lo as int
  {
  }

  lemma Byte(x: nat) returns (b: bv8)
    requires x < 0x100
    ensures b as int == x
  {
    var hi, lo := (x / 0x10) as bv4, (x % 0x10) as bv4;
    NibbleRound(x / 0x10);
    NibbleRound(x % 0x10);
    Pair4(hi, lo);
    b := (hi as bv8 << 4) | (lo as bv8);
  }

  lemma Pair8(hi: bv8, lo: bv8)
    ensures ((hi as bv16 << 8) | (lo as bv16)) as int == hi as int * 0x100 + lo as int
  {
  }

  lemma Pair16(hi: bv16, lo: bv16)
    ensures ((hi as bv32 << 16) | (lo as bv32)) as int == hi as int * 0x1_0000 + lo as int
  {
  }

  /** Every 16-bit number is the value of a half-word. */
  lemma HalfWord(x: nat) returns (h: bv16)
    requires x < 0x1_0000
    ensures h as int == x
  {
    var hi := Byte(x / 0x100);
    var lo := Byte(x % 0x100);
    Pair8(hi, lo);
    h := (hi as bv16 << 8) | (lo as bv16);
  }

  /** Every 32-bit number is the value of a word. */
  lemma ToWord(x: nat)
    requires x < WORD
    ensures (x as bv32) as int == x
  {
    var hi := HalfWord(x / 0x1_0000);
    var lo := HalfWord(x % 0x1_0000);
    Pair16(hi, lo);
    FromWord((hi as bv32 << 16) | (lo as bv32));
  }

  // ----- addresses -----

  lemma TopNibble(n: bv4, r: bv12)
    ensures ((n as bv16 << 12) | (r as bv16)) as int == n as int * 0x1000 + r as int
  {
  }

  /** A word from its upper half, the rest of its page number and its offset in the page. */
  function WordOf(h: bv16, n: bv4, r: bv12): bv32 {
    (h as bv32 << 16) | (((n as bv16 << 12) | (r as bv16)) as bv32)
  }

  lemma WordValue(h: bv16, n: bv4, r: bv12)
    ensures WordOf(h, n, r) as int == h as int * 0x1_0000 + n as int * 0x1000 + r as int
  {
    Pair16(h, (n as bv16 << 12) | (r as bv16));
    TopNibble(n, r);
  }

  lemma WordFrame(h: bv16, n: bv4, r: bv12)
    ensures FrameBits(WordOf(h, n, r)) == WordOf(h, n, 0)
  {
  }

  lemma TwelveBits(x: nat) returns (r: bv12)
    requires x < 0x1000
    ensures r as int == x
  {
    var hi := (x / 0x100) as bv4;
    var lo := Byte(x % 0x100);
    NibbleRound(x / 0x100);
    Joined12(hi, lo);
    r := (hi as bv12 << 8) | (lo as bv12);
  }

  lemma Joined12(hi: bv4, lo: bv8)
    ensures ((hi as bv12 << 8) | (lo as bv12)) as int == hi as int * 0x100 + lo as int
  {
  }

  lemma Pieces(a: nat) returns (h: bv16, n: bv4, r: bv12)
    requires a < WORD
    ensures a as bv32 == WordOf(h, n, r) && (a as bv32) as int == a
    ensures h as int == a / 0x1_0000 && n as int == a / 0x1000 % 0x10 && r as int == a % 0x1000
  {
    h := HalfWord(a / 0x1_0000);
    n := (a / 0x1000 % 0x10) as bv4;
    NibbleRound(a / 0x1000 % 0x10);
    r := TwelveBits(a % 0x1000);
    WordValue(h, n, r);
    Digits(a);
    IsWord(a, WordOf(h, n, r));
  }

  lemma IsWord(a: nat, w: bv32)
    requires a == w as int
    ensures a < WORD && a as bv32 == w && (a as bv32) as int == a
  {
    FromWord(w);
  }

  lemma Digits(a: nat)
    ensures a == a / 0x1_0000 * 0x1_0000 + a / 0x1000 % 0x10 * 0x1000 + a % 0x1000
  {
    var q := a / 0x1000;
    assert q / 0x10 == a / 0x1_0000;
  }

  /** The frame of an address is the address rounded down to its page. */
  lemma AddressFrame(a: nat)
    requires a < WORD
    ensures (a as bv32) as int == a && FrameOf(a as bv32) == RoundDown(a, PAGE)
  {
    var h, n, r := Pieces(a);
    WordFrame(h, n, r);
    PageValue(h, n);
    hide WordOf, FrameBits;
    Digits(a);
  }

  lemma PageValue(h: bv16, n: bv4)
    ensures WordOf(h, n, 0) as int == h as int * 0x1_0000 + n as int * 0x1000
  {
    WordValue(h, n, 0);
    hide WordOf;
    assert (0 as bv12) as int == 0;
  }

  lemma SameWord(v: Entry, w: Entry)
    requires v as int == w as int
    ensures v == w
  {
    FromWord(v);
    FromWord(w);
  }

  lemma NoLowBits(w: Entry)
    requires FrameBits(w) == w
    ensures And(w, 0xFFF) == 0
  {
  }

  /** A page address has no attribute bits. */
  lemma PageAddress(a: nat)
    requires a < WORD && a % PAGE == 0
    ensures (a as bv32) as int == a && FrameBits(a as bv32) == a as bv32 && And(a as bv32, 0xFFF) == 0
  {
    AddressFrame(a);
    hide FrameBits, And;
    SameWord(FrameBits(a as bv32), a as bv32);
    NoLowBits(a as bv32);
  }

  lemma TopBit(h: bv16, n: bv4, r: bv12)
    ensures Bit31(WordOf(h, n, r)) <==> h & 0x8000 != 0
  {
  }

  lemma TopBitOfHalf(h: bv16)
    ensures h & 0x8000 != 0 <==> h as int >= 0x8000
    ensures h & 0x8000 == 0 ==> (h | 0x8000) as int == h as int + 0x8000
  {
  }

  lemma HighAddress(a: nat)
    requires a < WORD
    ensures Bit31(a as bv32) <==> a >= 0x8000_0000
  {
    var h, n, r := Pieces(a);
    TopBit(h, n, r);
    TopBitOfHalf(h);
  }

  lemma TopBitJoined(h: bv16, n: bv4, r: bv12)
    ensures Or(WordOf(h, n, r), 0x8000_0000) == WordOf(h | 0x8000, n, r)
  {
  }

  /** Setting bit 31 where it was clear adds 2^31. */
  lemma TopBitAdded(w: Entry)
    requires !Bit31(w)
    ensures Or(w, 0x8000_0000) as int == w as int + 0x8000_0000
  {
    FromWord(w);
    var h, n, r := Pieces(w as int);
    TopBit(h, n, r);
    TopBitOfHalf(h);
    TopBitJoined(h, n, r);
    hide WordOf, Or, Bit31;
    WordValue(h, n, r);
    WordValue(h | 0x8000, n, r);
  }

  lemma FrameHasBit31(w: Entry)
    ensures Bit31(FrameBits(w)) == Bit31(w)
    ensures FrameBits(w) == 0 ==> !Bit31(w)
  {
  }

  /** An entry without a frame has bit 31 clear. */
  lemma NoFrame(e: Entry)
    requires FrameOf(e) == 0
    ensures !Bit31(e)
  {
    hide FrameBits, Bit31;
    assert (0 as bv32) as int == 0;
    SameWord(FrameBits(e), 0);
    FrameHasBit31(e);
  }

  // ----- the macros with their masks -----

  lemma AndIs(w: Entry, m: Entry)
    ensures And(w, m) == w & m
  {
  }

  lemma PresentIs(e: Entry)
    ensures Present(e) == (e & 1 == 1)
  {
  }

  lemma FrameBitsIs(e: Entry)
    ensures FrameBits(e) == e & 0xFFFF_F000
  {
  }

  lemma FrameOfIs(e: Entry)
    ensures FrameOf(e) == FrameBits(e) as int
  {
  }

  lemma SetFrameIs(e: Entry, a: Entry)
    ensures SetFrame(e, a) == (e & 0x8000_0FFF) | a
  {
  }

  /** The stores of `map_page` into an entry. */
  lemma MapWordIs(e: Entry, physical: nat, flags: Entry)
    requires physical < WORD
    ensures MapWord(e, physical, flags) == ((e | (flags | 1)) & 0x8000_0FFF) | (physical as bv32)
  {
  }

  /** The stores of `unmap_page`: everything but bit 31 and the attributes goes, and the present bit. */
  lemma UnmapWordIs(e: Entry)
    ensures UnmapWord(e) == e & 0x8000_0FFE
  {
  }

  // ----- what the macros do to an entry -----

  lemma SetFrameBits(e: Entry, a: Entry)
    ensures FrameBits(SetFrame(e, a)) == Or(FrameBits(a), And(e, 0x8000_0000))
  {
    AndOr(And(e, 0x8000_0FFF), a, 0xFFFF_F000);
    KeptTop(e);
    hide And, Or;
    OrComm(And(e, 0x8000_0000), FrameBits(a));
  }

  lemma AndOr(x: Entry, y: Entry, m: Entry)
    ensures And(Or(x, y), m) == Or(And(x, m), And(y, m))
  {
  }

  lemma KeptTop(e: Entry)
    ensures And(And(e, 0x8000_0FFF), 0xFFFF_F000) == And(e, 0x8000_0000)
  {
  }

  lemma OrComm(x: Entry, y: Entry)
    ensures Or(x, y) == Or(y, x)
  {
  }

  lemma OwnTop(a: Entry)
    ensures Or(FrameBits(a), And(a, 0x8000_0000)) == FrameBits(a)
  {
  }

  lemma TopOnly(e: Entry)
    ensures And(e, 0x8000_0000) == if Bit31(e) then 0x8000_0000 else 0
  {
  }

  lemma SetFrameKeeps(e: Entry, a: Entry)
    ensures And(SetFrame(e, a), 0xFFF) == Or(And(e, 0xFFF), And(a, 0xFFF))
    ensures Bit31(SetFrame(e, a)) == (Bit31(e) || Bit31(a))
    ensures Present(e) ==> Present(SetFrame(e, a))
  {
  }

  lemma OrAttributes(e: Entry, attr: Entry)
    ensures Bit31(Or(e, attr)) == (Bit31(e) || Bit31(attr))
    ensures And(Or(e, attr), 0xFFF) == Or(And(e, 0xFFF), And(attr, 0xFFF))
    ensures Present(attr) ==> Present(Or(e, attr))
  {
  }

  lemma OrZero(e: Entry)
    ensures Or(e, 0) == e
  {
  }

  /** The frame that an entry shows after `SET_FRAME`: bit 31 stays where it was set before. */
  function Shown(stuck: bool, a: nat): nat {
    RoundDown(a, PAGE) + if stuck && a < 0x8000_0000 then 0x8000_0000 else 0
  }

  /** `SET_ATTRIBUTE`, then `SET_FRAME`, for every address and whatever the entry was. The frame shown is the
      page of the address exactly when the address has bit 31 or neither entry nor attributes had it. */
  lemma PointedEntry(e: Entry, attr: Entry, a: nat)
    requires a < WORD && Present(attr)
    ensures var e', stuck := SetFrame(Or(e, attr), a as bv32), Bit31(e) || Bit31(attr);
            && Present(e') && Bit31(e') == (stuck || a >= 0x8000_0000)
            && FrameOf(e') == Shown(stuck, a)
            && (FrameOf(e') == RoundDown(a, PAGE) <==> (stuck ==> a >= 0x8000_0000))
            && And(e', 0xFFF) == Or(Or(And(e, 0xFFF), And(attr, 0xFFF)), And(a as bv32, 0xFFF))
            && (a % PAGE == 0 ==> And(e', 0xFFF) == Or(And(e, 0xFFF), And(attr, 0xFFF)))
  {
    hide And, Or, SetFrame, Bit31, Present, FrameBits, RoundDown;
    OrAttributes(e, attr);
    FrameShown(Or(e, attr), a);
    HighAddress(a);
    SetFrameKeeps(Or(e, attr), a as bv32);
    if a % PAGE == 0 {
      PageAddress(a);
      OrZero(Or(And(e, 0xFFF), And(attr, 0xFFF)));
    }
  }

  lemma FrameShown(e: Entry, a: nat)
    requires a < WORD
    ensures FrameOf(SetFrame(e, a as bv32)) == Shown(Bit31(e), a)
  {
    hide And, Or, SetFrame, Bit31, FrameBits, RoundDown, FrameOf, Shown;
    AddressFrame(a);
    HighAddress(a);
    ShownWord(e, a as bv32, a);
  }

  lemma ShownWord(e: Entry, w: Entry, a: nat)
    requires FrameOf(w) == RoundDown(a, PAGE) && (Bit31(w) <==> a >= 0x8000_0000)
    ensures FrameOf(SetFrame(e, w)) == Shown(Bit31(e), a)
  {
    hide And, Or, SetFrame, Bit31, FrameBits, RoundDown;
    FrameWord(e, w);
    if Bit31(e) && !Bit31(w) {
      FrameHasBit31(w);
      TopBitAdded(FrameBits(w));
    }
  }

  lemma FrameWord(e: Entry, w: Entry)
    ensures FrameBits(SetFrame(e, w)) ==
            if Bit31(e) && !Bit31(w) then Or(FrameBits(w), 0x8000_0000) else FrameBits(w)
  {
    hide And, Or, SetFrame, Bit31, FrameBits;
    SetFrameBits(e, w);
    TopOnly(e);
    TopOnly(w);
    OwnTop(w);
    OrZero(FrameBits(w));
  }

  /** What `map_page` makes of an entry: `SET_ATTRIBUTE` of the flags, then `SET_FRAME`. */
  function MapWord(e: Entry, physical: nat, flags: Entry): Entry
    requires physical < WORD
  {
    SetFrame(Or(e, Or(flags, PRESENT)), physical as bv32)
  }

  /** The low bits that `map_page` leaves: those the entry had, the flags and, for an address inside a page,
      its offset. */
  function LowBits(e: Entry, physical: nat, flags: Entry): Entry
    requires physical < WORD
  {
    Or(Or(And(e, 0xFFF), And(Or(flags, PRESENT), 0xFFF)), And(physical as bv32, 0xFFF))
  }

  lemma MappedEntry(e: Entry, physical: nat, flags: Entry)
    requires physical < WORD
    ensures var e', stuck := MapWord(e, physical, flags), Bit31(e) || Bit31(flags);
            && Present(e') && Bit31(e') == (stuck || physical >= 0x8000_0000)
            && FrameOf(e') == Shown(stuck, physical)
            && (FrameOf(e') == RoundDown(physical, PAGE) <==> (stuck ==> physical >= 0x8000_0000))
            && And(e', 0xFFF) == LowBits(e, physical, flags)
            && (physical % PAGE == 0 ==> And(e', 0xFFF) == Or(And(e, 0xFFF), And(Or(flags, PRESENT), 0xFFF)))
  {
    hide And, Or, SetFrame, Bit31, Present, FrameBits, Shown;
    FlagsWord(flags);
    PointedEntry(e, Or(flags, PRESENT), physical);
  }

  lemma FlagsWord(flags: Entry)
    ensures Present(Or(flags, PRESENT)) && Bit31(Or(flags, PRESENT)) == Bit31(flags)
  {
  }

  /** What `unmap_page` makes of an entry: `SET_FRAME` to 0, then `CLEAR_ATTRIBUTE` of the present bit. */
  function UnmapWord(e: Entry): Entry { AndNot(SetFrame(e, 0), PRESENT) }

  lemma ClearedEntry(e: Entry)
    ensures !Present(UnmapWord(e)) && Bit31(UnmapWord(e)) == Bit31(e)
  {
    ClearedPresent(SetFrame(e, 0));
    ClearedTop(e);
  }

  lemma ClearedPresent(e: Entry)
    ensures !Present(AndNot(e, PRESENT))
  {
  }

  lemma ClearedTop(e: Entry)
    ensures Bit31(AndNot(SetFrame(e, 0), PRESENT)) == Bit31(e)
  {
  }

  /** Unmapping changes an entry exactly when it has a frame below 2^31 or the present bit. */
  lemma UnmapChanges(e: Entry)
    ensures UnmapWord(e) == e <==> And(e, 0x7FFF_F001) == 0
  {
  }

  lemma UnmapNothing()
    ensures UnmapWord(0) == 0
  {
  }

  lemma ZeroEntry()
    ensures !Present(0) && !Bit31(0) && (0 as bv32) as int == 0
  {
  }
}
