/** Byte-addressed memory and the fixed-width unsigned integers of the kernel.

    The address of a byte is its index; multi-byte values are little-endian and need no alignment,
    as in the packed structures of the kernel on x86. */
module Bytes {
  const WORD: int := 0x1_0000_0000

  type byte = x: int | 0 <= x < 0x100
  type Memory = seq<byte>

  /** C's conversion of an integer to `uint16_t`. */
  function U16(x: int): (r: nat)
    ensures r < 0x1_0000 && (0 <= x < 0x1_0000 ==> r == x)
  {
    x % 0x1_0000
  }

  /** C's conversion of an integer to `uint32_t`; every 32-bit operation is wrapped in it. */
  function U32(x: int): (r: nat)
    ensures r < WORD && (0 <= x < WORD ==> r == x)
  {
    x % WORD
  }

  /** Wrapping once at the end is the same as wrapping at every step. */
  lemma U32Sum(x: int, d: int)
    ensures U32(U32(x) + d) == U32(x + d)
  {
  }

  /** Memory with the bytes from `at` on replaced. */
  function Place(m: Memory, at: nat, data: seq<byte>): (r: Memory)
    requires at + |data| <= |m|
    ensures |r| == |m|
  {
    m[..at] + data + m[at + |data|..]
  }

  lemma SubSlice<T>(s: seq<T>, a: nat, n: nat, b: nat, k: nat)
    requires a + n <= |s| && b + k <= n
    ensures s[a..a + n][b..b + k] == s[a + b..a + b + k]
  {
    var t := s[a..a + n];
    var x, y := t[b..b + k], s[a + b..a + b + k];
    assert forall i :: 0 <= i < k ==> x[i] == t[b + i] == s[a + (b + i)] == y[i];
  }

  function Get16(m: Memory, a: nat): (v: nat)
    requires a + 2 <= |m|
    ensures v < 0x1_0000
  {
    m[a] as int + 0x100 * m[a + 1] as int
  }

  function Get32(m: Memory, a: nat): (v: nat)
    requires a + 4 <= |m|
    ensures v < WORD
  {
    m[a] as int + 0x100 * m[a + 1] as int + 0x1_0000 * m[a + 2] as int + 0x100_0000 * m[a + 3] as int
  }

  lemma Digits(v: nat)
    ensures v == v % 0x100 + 0x100 * (v / 0x100 % 0x100)
            + 0x1_0000 * (v / 0x1_0000 % 0x100) + 0x100_0000 * (v / 0x100_0000)
  {
    var q := v / 0x100;
    var p := q / 0x100;
    assert v == 0x100 * q + v % 0x100 && q == 0x100 * p + q % 0x100;
    assert v / 0x1_0000 == p && v / 0x100_0000 == p / 0x100;
  }

  function Encode32(v: nat): (r: seq<byte>)
    requires v < WORD
    ensures |r| == 4 && Get32(r, 0) == v
  {
    Digits(v);
    [v % 0x100, v / 0x100 % 0x100, v / 0x1_0000 % 0x100, v / 0x100_0000]
  }

  function Put32(m: Memory, a: nat, v: nat): (r: Memory)
    requires a + 4 <= |m| && v < WORD
    ensures |r| == |m|
    ensures Get32(r, a) == v
    ensures forall b {:trigger r[b]} :: 0 <= b < |m| && !(a <= b < a + 4) ==> r[b] == m[b]
    ensures forall b: nat {:trigger Get32(r, b)} ::
              b + 4 <= |m| && (b + 4 <= a || a + 4 <= b) ==> Get32(r, b) == Get32(m, b)
  {
    m[..a] + Encode32(v) + m[a + 4..]
  }

  /** Conversions drop multiples of 2^16 and 2^32. */
  lemma Wraps(x: int)
    ensures 0 <= U16(x) < 65536 && (x - U16(x)) % 65536 == 0
    ensures 0 <= U32(x) < 4294967296 && (x - U32(x)) % 4294967296 == 0
  {
    assert x - U16(x) == 0x1_0000 * (x / 0x1_0000);
    assert x - U32(x) == WORD * (x / WORD);
  }

  /** The byte at the lowest address is the least significant one. */
  lemma LittleEndian(m: Memory, a: nat, v: nat)
    requires a + 4 <= |m| && v < 0x1_0000_0000
    ensures Get16(m, a) == m[a] as int + 256 * m[a + 1] as int
    ensures Get32(m, a) == m[a] as int + 256 * m[a + 1] as int + 65536 * m[a + 2] as int + 16777216 * m[a + 3] as int
    ensures var r := Put32(m, a, v);
            && r[a] == v % 256 && r[a + 1] == v / 256 % 256
            && r[a + 2] == v / 65536 % 256 && r[a + 3] == v / 16777216
  {
  }

  /** Where each byte of a replaced piece of memory comes from. */
  lemma PlaceAt(m: Memory, at: nat, data: seq<byte>, k: nat)
    requires at + |data| <= |m| && k < |m|
    ensures Place(m, at, data)[k] == if at <= k < at + |data| then data[k - at] else m[k]
  {
  }

  /** Two 32-bit loads agree when the four bytes under them do. */
  lemma Get32Same(m: Memory, a: nat, m': Memory, a': nat)
    requires a + 4 <= |m| && a' + 4 <= |m'|
    requires m[a..a + 4] == m'[a'..a' + 4]
    ensures Get32(m, a) == Get32(m', a')
  {
    var s, s' := m[a..a + 4], m'[a'..a' + 4];
    assert forall k :: 0 <= k < 4 ==> s[k] == m[a + k] && s'[k] == m'[a' + k];
    assert s[0] == s'[0] && s[1] == s'[1] && s[2] == s'[2] && s[3] == s'[3];
  }

  /** The store of a 32-bit value into a live array. */
  method Store32(ram: array<byte>, a: nat, v: nat)
    requires a + 4 <= ram.Length && v < WORD
    modifies ram
    ensures ram[..] == Put32(old(ram[..]), a, v)
  {
    ghost var m := ram[..];
    ram[a] := v % 0x100;
    ram[a + 1] := v / 0x100 % 0x100;
    ram[a + 2] := v / 0x1_0000 % 0x100;
    ram[a + 3] := v / 0x100_0000;
    assert ram[..] == m[..a] + Encode32(v) + m[a + 4..];
  }

  method Load32(ram: array<byte>, a: nat) returns (v: nat)
    requires a + 4 <= ram.Length
    ensures v == Get32(ram[..], a)
  {
    v := ram[a] as int + 0x100 * ram[a + 1] as int + 0x1_0000 * ram[a + 2] as int + 0x100_0000 * ram[a + 3] as int;
  }
}
