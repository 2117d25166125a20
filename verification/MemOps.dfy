/** Byte-wise memory and string routines (`memset`, `memmove`, `memcpy`, `memcmp`, `strcmp`). */
module MemOps {
  import opened Arith
  import opened Bytes

  /** Memory after the `n` bytes at `s` have been placed at `d`, all read before any is written. */
  function Moved(m: Memory, d: nat, s: nat, n: nat): (r: Memory)
    requires d + n <= |m| && s + n <= |m|
    ensures |r| == |m|
  {
    Place(m, d, m[s..s + n])
  }

  function Filled(m: Memory, d: nat, v: byte, n: nat): (r: Memory)
    requires d + n <= |m|
    ensures |r| == |m|
  {
    Place(m, d, seq(n, _ => v))
  }

  /** Where the bytes come from. */
  lemma MovedFrom(m: Memory, d: nat, s: nat, n: nat, k: nat)
    requires d + n <= |m| && s + n <= |m| && k < |m|
    ensures Moved(m, d, s, n)[k] == if d <= k < d + n then m[s + (k - d)] else m[k]
  {
  }

  lemma FilledWith(m: Memory, d: nat, v: byte, n: nat, k: nat)
    requires d + n <= |m| && k < |m|
    ensures Filled(m, d, v, n)[k] == if d <= k < d + n then v else m[k]
  {
  }

  method Memset(ram: array<byte>, d: nat, v: byte, n: nat)
    requires d + n <= ram.Length
    modifies ram
    ensures ram[..] == Filled(old(ram[..]), d, v, n)
  {
    for i := 0 to n
      invariant forall k :: d <= k < d + i ==> ram[k] == v
      invariant forall k :: 0 <= k < ram.Length && !(d <= k < d + i) ==> ram[k] == old(ram[k])
    {
      ram[d + i] := v;
    }
  }

  /** `memmove`: upwards when the target lies below the source, downwards otherwise. Whatever the overlap,
      the target receives the source as it was. */
  method Memmove(ram: array<byte>, dest: nat, src: nat, len: nat)
    requires dest + len <= ram.Length && src + len <= ram.Length
    modifies ram
    ensures ram[..] == Moved(old(ram[..]), dest, src, len)
  {
    if dest < src {
      MoveUp(ram, dest, src, len);
    } else {
      MoveDown(ram, dest, src, len);
    }
  }

  lemma MovedAt(m: Memory, r: Memory, d: nat, s: nat, n: nat)
    requires d + n <= |m| == |r| && s + n <= |m|
    requires forall k :: d <= k < d + n ==> r[k] == m[s + (k - d)]
    requires forall k :: 0 <= k < d || d + n <= k < |m| ==> r[k] == m[k]
    ensures r == Moved(m, d, s, n)
  {
    var t := m[s..s + n];
    assert forall k :: d <= k < d + n ==> r[k] == t[k - d];
  }

  method MoveUp(ram: array<byte>, dest: nat, src: nat, len: nat)
    requires dest < src && src + len <= ram.Length
    modifies ram
    ensures ram[..] == Moved(old(ram[..]), dest, src, len)
  {
    hide Moved;
    ghost var m := ram[..];
    var d, s, left := dest, src, len;
    while left > 0
      invariant 0 <= left <= len && d == dest + (len - left) && s == src + (len - left)
      invariant forall k :: dest <= k < d ==> ram[k] == m[src + (k - dest)]
      invariant forall k :: 0 <= k < dest || d <= k < ram.Length ==> ram[k] == m[k]
    {
      ram[d] := ram[s];
      d, s, left := d + 1, s + 1, left - 1;
    }
    MovedAt(m, ram[..], dest, src, len);
  }

  method MoveDown(ram: array<byte>, dest: nat, src: nat, len: nat)
    requires src <= dest && dest + len <= ram.Length
    modifies ram
    ensures ram[..] == Moved(old(ram[..]), dest, src, len)
  {
    hide Moved;
    ghost var m := ram[..];
    var lastd, lasts, left := dest + len - 1, src + len - 1, len;
    while left > 0
      invariant 0 <= left <= len && lastd == dest + left - 1 && lasts == src + left - 1
      invariant forall k :: lastd < k < dest + len ==> ram[k] == m[src + (k - dest)]
      invariant forall k :: 0 <= k <= lastd || dest + len <= k < ram.Length ==> ram[k] == m[k]
    {
      ram[lastd] := ram[lasts];
      lastd, lasts, left := lastd - 1, lasts - 1, left - 1;
    }
    MovedAt(m, ram[..], dest, src, len);
  }

  /** Where the upward loop of `memcpy` finds the byte it leaves at target address `a`: when the target
      starts inside the source, `d - s` bytes above it, those first bytes repeat. */
  function CopiedFrom(d: nat, s: nat, n: nat, a: nat): (r: nat)
    requires d <= a < d + n
    ensures s <= r <= s + (a - d)
  {
    if s < d < s + n then
      assert a - d == (a - d) / (d - s) * (d - s) + (a - d) % (d - s);
      s + (a - d) % (d - s)
    else
      s + (a - d)
  }

  lemma Repeats(k: nat, gap: nat)
    requires 0 < gap <= k
    ensures (k - gap) % gap == k % gap
  {
    var q, r := k / gap, k % gap;
    assert k - gap == (q - 1) * gap + r;
    UniqueQuotient(k - gap, gap, q - 1, r);
  }

  method Memcpy(ram: array<byte>, dest: nat, src: nat, n: nat)
    requires dest + n <= ram.Length && src + n <= ram.Length
    modifies ram
    ensures forall a :: 0 <= a < ram.Length && !(dest <= a < dest + n) ==> ram[a] == old(ram[a])
    ensures forall a :: dest <= a < dest + n ==> ram[a] == old(ram[CopiedFrom(dest, src, n, a)])
  {
    hide CopiedFrom;
    ghost var m := ram[..];
    for i := 0 to n
      invariant forall a :: 0 <= a < ram.Length && !(dest <= a < dest + i) ==> ram[a] == m[a]
      invariant forall a :: dest <= a < dest + i ==> ram[a] == m[CopiedFrom(dest, src, n, a)]
    {
      NextSource(dest, src, n, dest + i);
      ram[dest + i] := ram[src + i];
    }
  }

  lemma NextSource(d: nat, s: nat, n: nat, a: nat)
    requires d <= a < d + n
    ensures CopiedFrom(d, s, n, a) == if s < d <= s + (a - d) then CopiedFrom(d, s, n, s + (a - d)) else s + (a - d)
  {
    if s < d < s + n {
      if a - d < d - s {
        UniqueQuotient(a - d, d - s, 0, a - d);
      } else {
        Repeats(a - d, d - s);
      }
    }
  }

  /** `memcpy` is a faithful copy of every content exactly when the target does not start inside the
      source above its first byte. */
  lemma MemcpyFaithful(d: nat, s: nat, n: nat)
    ensures (forall a :: d <= a < d + n ==> CopiedFrom(d, s, n, a) == s + (a - d)) <==> !(s < d < s + n)
  {
    if s < d < s + n {
      var k := d - s;
      UniqueQuotient(k, k, 1, 0);
      assert CopiedFrom(d, s, n, d + k) == s;
    }
  }

  /** `memcpy` between two separate buffers. */
  method MemcpyBetween(dest: array<byte>, at: nat, src: array<byte>, from: nat, n: nat)
    requires dest != src && at + n <= dest.Length && from + n <= src.Length
    modifies dest
    ensures dest[..] == Place(old(dest[..]), at, src[from..from + n])
  {
    for i := 0 to n
      invariant forall k :: at <= k < at + i ==> dest[k] == src[from + (k - at)]
      invariant forall k :: 0 <= k < dest.Length && !(at <= k < at + i) ==> dest[k] == old(dest[k])
    {
      dest[at + i] := src[from + i];
    }
  }

  // ----- comparisons -----

  /** `memcmp`: the difference of the first bytes that differ, 0 when none do. */
  method Memcmp(s1: seq<byte>, s2: seq<byte>, size: nat) returns (r: int)
    requires size <= |s1| && size <= |s2|
    ensures r == 0 <==> s1[..size] == s2[..size]
    ensures r != 0 ==> exists k :: 0 <= k < size && s1[..k] == s2[..k] && s1[k] != s2[k]
                                   && r == s1[k] as int - s2[k] as int
  {
    for i := 0 to size
      invariant s1[..i] == s2[..i]
    {
      if s1[i] != s2[i] {
        assert s1[..size][i] != s2[..size][i];
        return s1[i] as int - s2[i] as int;
      }
    }
    r := 0;
  }

  /** A C string at `a`: the bytes of `s`, none of them 0, and a terminator. */
  ghost predicate CString(m: Memory, a: nat, s: seq<byte>) {
    a + |s| < |m| && m[a..a + |s|] == s && m[a + |s|] == 0 && 0 !in s
  }

  lemma Inside(m: Memory, a: nat, s: seq<byte>, k: nat)
    requires CString(m, a, s) && k < |s|
    ensures m[a + k] == s[k] && m[a + k] != 0
  {
    assert m[a..a + |s|][k] == m[a + k];
  }

  lemma CStringUnique(m: Memory, a: nat, s: seq<byte>, t: seq<byte>)
    requires CString(m, a, s) && CString(m, a, t)
    ensures s == t
  {
    if |s| < |t| {
      Inside(m, a, t, |s|);
    }
    if |t| < |s| {
      Inside(m, a, s, |t|);
    }
  }

  /** `strcmp`: 0 exactly for equal strings. */
  method Strcmp(m: Memory, a: nat, m': Memory, b: nat, ghost s: seq<byte>, ghost t: seq<byte>) returns (r: int)
    requires CString(m, a, s) && CString(m', b, t)
    ensures r == 0 <==> s == t
  {
    assert forall k :: 0 <= k < |s| ==> s[k] == m[a + k];
    assert forall k :: 0 <= k < |t| ==> t[k] == m'[b + k];
    var i := 0;
    while m[a + i] != 0 && m[a + i] == m'[b + i]
      invariant i <= |s| && i <= |t| && s[..i] == t[..i]
      decreases |s| - i
    {
      assert i < |s| && i < |t|;
      i := i + 1;
    }
    assert i < |s| && i < |t| ==> s[i] != t[i];
    r := m[a + i] as int - m'[b + i] as int;
  }
}
