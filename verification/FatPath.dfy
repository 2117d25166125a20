/** Paths and 8.3 names. Strings are the bytes before the terminating zero. */
module FatPath {
  import opened Bytes

  const SLASH: byte := 0x2F
  const DOT: byte := 0x2E
  const SPACE: byte := 0x20

  datatype Option<T> = None | Some(value: T)

  predicate IsCharacterValid(c: byte) {
    0x41 <= c <= 0x5A || 0x30 <= c <= 0x39
  }

  /** A C string read at index `i`. */
  function CharAt(s: seq<byte>, i: nat): byte
    requires i <= |s|
  {
    if i < |s| then s[i] else 0
  }

  // ----- short names -----

  /** The name with at most one leading slash dropped. */
  function Body(s: seq<byte>): seq<byte> {
    if |s| > 0 && s[0] == SLASH then s[1..] else s
  }

  function IndexOf(s: seq<byte>, c: byte): (i: nat)
    ensures i <= |s| && (i < |s| ==> s[i] == c) && forall j :: 0 <= j < i ==> s[j] != c
  {
    if s == [] || s[0] == c then 0 else
      var i := IndexOf(s[1..], c);
      assert forall j :: 1 <= j < i + 1 ==> s[j] == s[1..][j - 1];
      i + 1
  }

  predicate AllValid(s: seq<byte>) {
    forall i :: 0 <= i < |s| ==> IsCharacterValid(s[i])
  }

  function Pad(s: seq<byte>, n: nat): (r: seq<byte>)
    requires |s| <= n
    ensures |r| == n
  {
    s + seq(n - |s|, _ => SPACE)
  }

  /** Up to eight valid characters, then, after a dot, up to three more. */
  predicate IsShort(b: seq<byte>) {
    var d := IndexOf(b, DOT);
    b != [] && d <= 8 && AllValid(b[..d]) && (d < |b| ==> |b| - d - 1 <= 3 && AllValid(b[d + 1..]))
  }

  /** The 11 bytes that stand for a name in a directory record. */
  function ShortName(s: seq<byte>): (r: Option<seq<byte>>)
    ensures r.Some? ==> |r.value| == 11
  {
    var b := Body(s);
    if !IsShort(b) then None else
      var d := IndexOf(b, DOT);
      Some(Pad(b[..d], 8) + Pad(Extended(b, d), 3))
  }

  /** What `fat16_ls` makes of the 11 bytes: name up to a space, a dot, extension up to a space. */
  function Format(n: seq<byte>): seq<byte>
    requires |n| == 11
  {
    if n[0] == DOT && n[1] == SPACE then [DOT]
    else if n[0] == DOT && n[1] == DOT && n[2] == SPACE then [DOT, DOT]
    else n[..8][..IndexOf(n[..8], SPACE)] + [DOT] + n[8..][..IndexOf(n[8..], SPACE)]
  }

  lemma IndexOfFirst(s: seq<byte>, c: byte, i: nat)
    requires i <= |s| && (i < |s| ==> s[i] == c) && forall j :: 0 <= j < i ==> s[j] != c
    ensures IndexOf(s, c) == i
  {
  }

  lemma PaddedEnd(s: seq<byte>, n: nat)
    requires |s| <= n && AllValid(s)
    ensures IndexOf(Pad(s, n), SPACE) == |s| && Pad(s, n)[..|s|] == s
  {
    var p := Pad(s, n);
    assert forall j :: 0 <= j < |s| ==> p[j] == s[j];
    IndexOfFirst(p, SPACE, |s|);
  }

  /** Formatting gives back the name, with a dot added when it had none. */
  lemma FormatShortName(s: seq<byte>)
    requires ShortName(s).Some?
    ensures Format(ShortName(s).value) == if DOT in Body(s) then Body(s) else Body(s) + [DOT]
  {
    var b := Body(s);
    var d := IndexOf(b, DOT);
    ShortParts(s);
    hide IndexOf, Pad, Format, ShortName, AllValid;
    FormatPadded(b[..d], Extended(b, d));
    if d < |b| {
      assert b == b[..d] + [b[d]] + b[d + 1..];
    } else {
      assert b[..d] == b && Extended(b, d) == [];
    }
  }

  /** What follows the dot at `d`. */
  function Extended(b: seq<byte>, d: nat): seq<byte>
    requires d <= |b|
  {
    if d < |b| then b[d + 1..] else []
  }

  lemma ShortParts(s: seq<byte>)
    requires ShortName(s).Some?
    ensures var b := Body(s);
            var d := IndexOf(b, DOT);
            && d <= 8 && AllValid(b[..d]) && |Extended(b, d)| <= 3 && AllValid(Extended(b, d))
            && ShortName(s).value == Pad(b[..d], 8) + Pad(Extended(b, d), 3)
  {
    hide IndexOf, Pad;
  }

  /** Formatting undoes the padding. */
  lemma FormatPadded(base: seq<byte>, ext: seq<byte>)
    requires |base| <= 8 && AllValid(base) && |ext| <= 3 && AllValid(ext)
    ensures Format(Pad(base, 8) + Pad(ext, 3)) == base + [DOT] + ext
  {
    var n := Pad(base, 8) + Pad(ext, 3);
    assert n[..8] == Pad(base, 8) && n[8..] == Pad(ext, 3);
    NoDot(base);
    assert n[0] == Pad(base, 8)[0];
    PaddedEnd(base, 8);
    PaddedEnd(ext, 3);
    hide IndexOf, Pad;
  }

  lemma NoDot(base: seq<byte>)
    requires |base| <= 8 && AllValid(base)
    ensures Pad(base, 8)[0] != DOT
  {
  }

  /** And the formatted name stands for the same record. */
  lemma ReparseFormatted(s: seq<byte>)
    requires ShortName(s).Some?
    ensures ShortName(Format(ShortName(s).value)) == ShortName(s)
  {
    var b := Body(s);
    var d := IndexOf(b, DOT);
    FormatShortName(s);
    var f := Format(ShortName(s).value);
    assert f == if d < |b| then b else b + [DOT];
    assert f[0] != SLASH by {
      assert f[0] == if d > 0 then b[0] else DOT;
    }
    assert Body(f) == f;
    IndexOfFirst(f, DOT, d);
    assert f[..d] == b[..d];
    assert f[d + 1..] == if d < |b| then b[d + 1..] else [];
  }

  // ----- names letter by letter -----

  /** Capital letters and digits only. */
  predicate Plain(s: seq<byte>) {
    forall i :: 0 <= i < |s| ==> 0x41 <= s[i] <= 0x5A || 0x30 <= s[i] <= 0x39
  }

  function Spaces(n: nat): (r: seq<byte>)
    ensures |r| == n && forall i :: 0 <= i < n ==> r[i] == 0x20
  {
    seq(n, _ => 0x20)
  }

  lemma PlainValid(s: seq<byte>)
    ensures AllValid(s) <==> Plain(s)
  {
  }

  lemma PadSpaces(s: seq<byte>, n: nat)
    requires |s| <= n
    ensures Pad(s, n) == s + Spaces(n - |s|)
  {
  }

  /** A slash in front makes no difference. */
  lemma SlashDropped(b: seq<byte>)
    requires b != [] && b[0] != 0x2F
    ensures ShortName([0x2F] + b) == ShortName(b)
  {
    assert ([0x2F] + b)[1..] == b;
    hide IsShort, IndexOf;
  }

  /** Up to eight and three plain characters with a dot between: 11 bytes, filled with spaces. */
  lemma ShortNameMeans(base: seq<byte>, ext: seq<byte>)
    requires |base| <= 8 && |ext| <= 3 && Plain(base) && Plain(ext)
    ensures ShortName(base + [0x2E] + ext) == Some(base + Spaces(8 - |base|) + ext + Spaces(3 - |ext|))
  {
    hide IndexOf, Pad;
    var b := base + [0x2E] + ext;
    assert b[..|base|] == base && b[|base| + 1..] == ext;
    assert forall j :: 0 <= j < |base| ==> b[j] == base[j];
    IndexOfFirst(b, DOT, |base|);
    assert Body(b) == b && Extended(b, |base|) == ext;
    PlainValid(base);
    PlainValid(ext);
    PadSpaces(base, 8);
    PadSpaces(ext, 3);
    assert base + Spaces(8 - |base|) + (ext + Spaces(3 - |ext|)) == base + Spaces(8 - |base|) + ext + Spaces(3 - |ext|);
  }

  /** Without a dot there is no extension. */
  lemma PlainNameMeans(base: seq<byte>)
    requires 0 < |base| <= 8 && Plain(base)
    ensures ShortName(base) == Some(base + Spaces(11 - |base|))
  {
    hide IndexOf, Pad;
    IndexOfFirst(base, DOT, |base|);
    assert base[..|base|] == base && Body(base) == base;
    PlainValid(base);
    PadSpaces(base, 8);
    assert Extended(base, |base|) == [];
    PadSpaces([], 3);
    assert [] + Spaces(3) == Spaces(3);
    assert base + Spaces(8 - |base|) + Spaces(3) == base + Spaces(11 - |base|);
  }

  /** No other string is a short name. */
  lemma ShortNameOnly(s: seq<byte>) returns (base: seq<byte>, ext: seq<byte>)
    requires ShortName(s).Some?
    ensures |base| <= 8 && |ext| <= 3 && Plain(base) && Plain(ext)
    ensures
      || s == base + [0x2E] + ext || s == [0x2F] + base + [0x2E] + ext
      || (base != [] && ext == [] && (s == base || s == [0x2F] + base))
  {
    hide IndexOf;
    var b := Body(s);
    var d := IndexOf(b, DOT);
    ShortParts(s);
    base, ext := b[..d], Extended(b, d);
    PlainValid(base);
    PlainValid(ext);
    if d < |b| {
      assert b == base + [0x2E] + ext;
      assert s != b ==> s == [0x2F] + base + [0x2E] + ext;
    } else {
      assert b == base;
    }
  }

  /** A listed name: up to the first space of the eight and of the three bytes, with a dot between. */
  lemma FormatMeans(base: seq<byte>, ext: seq<byte>)
    requires |base| <= 8 && |ext| <= 3 && 0x20 !in base && 0x20 !in ext && (base != [] ==> base[0] != 0x2E)
    ensures Format(base + Spaces(8 - |base|) + ext + Spaces(3 - |ext|)) == base + [0x2E] + ext
  {
    hide IndexOf;
    var n := base + Spaces(8 - |base|) + ext + Spaces(3 - |ext|);
    assert n[..8] == base + Spaces(8 - |base|) && n[8..] == ext + Spaces(3 - |ext|);
    IndexOfFirst(n[..8], SPACE, |base|);
    IndexOfFirst(n[8..], SPACE, |ext|);
    assert n[0] == if base == [] then 0x20 else base[0];
    assert n[..8][..|base|] == base && n[8..][..|ext|] == ext;
  }

  /** The records of a directory for itself and for the one above it. */
  lemma FormatDots()
    ensures Format([0x2E] + Spaces(10)) == [0x2E] && Format([0x2E, 0x2E] + Spaces(9)) == [0x2E, 0x2E]
  {
    var one, two := [0x2E] + Spaces(10), [0x2E, 0x2E] + Spaces(9);
    assert one[0] == 0x2E && one[1] == Spaces(10)[0] && two[0] == two[1] == 0x2E && two[2] == Spaces(9)[0];
  }

  // ----- to_short_filename -----

  method FillSpaces(a: array<byte>, from: nat, n: nat)
    requires from + n <= a.Length
    modifies a
    ensures a[..] == Place(old(a[..]), from, Pad([], n))
  {
    for i := 0 to n
      invariant forall k :: from <= k < from + i ==> a[k] == SPACE
      invariant forall k :: 0 <= k < a.Length && !(from <= k < from + i) ==> a[k] == old(a[k])
    {
      a[from + i] := SPACE;
    }
  }

  /** What `i` valid characters at the start and the one behind them decide. */
  lemma ShortOutcome(long: seq<byte>, i: nat)
    requires var b := Body(long); b != [] && i <= |b| && AllValid(b[..i]) && DOT !in b[..i]
    ensures var b := Body(long);
            && (i > 8 || (i < |b| && b[i] != DOT && !IsCharacterValid(b[i])) ==> ShortName(long) == None)
            && (i <= 8 && i == |b| ==> ShortName(long) == Some(b + Pad([], 11 - i)))
            && (i <= 8 && i < |b| && b[i] == DOT ==>
                  var ext := b[i + 1..];
                  ShortName(long) == if |ext| <= 3 && AllValid(ext) then Some(Pad(b[..i], 8) + Pad(ext, 3)) else None)
  {
    hide IndexOf;
    var b := Body(long);
    var d := IndexOf(b, DOT);
    assert forall j :: 0 <= j < i ==> b[j] == b[..i][j] != DOT;
    if i == |b| || b[i] == DOT {
      IndexOfFirst(b, DOT, i);
      assert b[..|b|] == b;
      assert i == |b| <= 8 ==> Pad(b, 8) + Pad([], 3) == b + Pad([], 11 - i);
    } else if d <= 8 && !IsCharacterValid(b[i]) {
      assert b[..d][i] == b[i];
    }
  }

  /** `to_short_filename`. */
  method ToShortFilename(short: array<byte>, long: seq<byte>) returns (r: int)
    requires short.Length == 11 && 0 !in long
    modifies short
    ensures r == if ShortName(long).Some? then 0 else -1
    ensures r == 0 ==> short[..] == ShortName(long).value
  {
    hide ShortName, IndexOf, Pad;
    var b := if CharAt(long, 0) == SLASH then long[1..] else long;
    assert b == Body(long);
    if CharAt(b, 0) == 0 {
      EmptyName(long);
      return -1;
    }
    var i := 0;
    while i < 9
      invariant 0 <= i <= 9 && i <= |b| && short[..i] == b[..i]
      invariant AllValid(b[..i]) && DOT !in b[..i]
    {
      ShortOutcome(long, i);
      if CharAt(b, i) == 0 {
        FillSpaces(short, i, 11 - i);
        assert short[..] == b + Pad([], 11 - i);
        return 0;
      }
      if b[i] == DOT {
        break;
      }
      if !IsCharacterValid(b[i]) {
        return -1;
      }
      short[i] := b[i];
      assert b[..i + 1] == b[..i] + [b[i]];
      i := i + 1;
    }
    ShortOutcome(long, i);
    if i == 9 {
      return -1;
    }
    var sep := i;
    FillSpaces(short, sep, 8 - sep);
    PadSplit(short[..], b[..sep]);
    r := Extension(short, b, sep);
  }

  lemma EmptyName(long: seq<byte>)
    requires Body(long) == []
    ensures ShortName(long) == None
  {
  }

  lemma PadSplit(m: seq<byte>, s: seq<byte>)
    requires |m| == 11 && |s| <= 8 && m[..|s|] == s && m[|s|..8] == Pad([], 8 - |s|)
    ensures m[..8] == Pad(s, 8)
  {
    assert m[..8] == m[..|s|] + m[|s|..8];
  }

  /** The part of `to_short_filename` behind the dot. */
  method Extension(short: array<byte>, b: seq<byte>, sep: nat) returns (r: int)
    requires short.Length == 11 && 0 !in b && sep < |b| && sep <= 8 && b[sep] == DOT
    requires short[..8] == Pad(b[..sep], 8)
    modifies short
    ensures var ext := b[sep + 1..];
            && r == (if |ext| <= 3 && AllValid(ext) then 0 else -1)
            && (r == 0 ==> short[..] == Pad(b[..sep], 8) + Pad(ext, 3))
  {
    ghost var ext := b[sep + 1..];
    var i := 0;
    while i < 3
      invariant 0 <= i <= 3 && i <= |ext| && AllValid(ext[..i])
      invariant short[..8] == Pad(b[..sep], 8) && short[8..8 + i] == ext[..i]
    {
      if CharAt(b, sep + 1 + i) == 0 {
        break;
      }
      assert b[sep + 1 + i] == ext[i];
      if !IsCharacterValid(b[sep + 1 + i]) {
        return -1;
      }
      short[8 + i] := b[sep + 1 + i];
      i := i + 1;
    }
    if i == 3 && CharAt(b, sep + 4) != 0 {
      return -1;
    }
    assert i == |ext| && ext[..i] == ext;
    FillSpaces(short, 8 + i, 3 - i);
    r := 0;
  }

  // ----- fat16_ls -----

  /** The end of `fat16_ls`: the formatted name as a C string. Exactly its bytes and the terminator are
      written, so this much room is needed. */
  method FormatName(name: seq<byte>, filename: array<byte>)
    requires |name| == 11 && filename.Length >= |Format(name)| + 1
    modifies filename
    ensures |Format(name)| <= 12
    ensures filename[..|Format(name)| + 1] == Format(name) + [0]
    ensures forall k :: |Format(name)| < k < filename.Length ==> filename[k] == old(filename[k])
  {
    hide IndexOf;
    if name[0] == DOT && name[1] == SPACE {
      filename[0] := DOT;
      filename[1] := 0;
      return;
    } else if name[0] == DOT && name[1] == DOT && name[2] == SPACE {
      filename[0] := DOT;
      filename[1] := DOT;
      filename[2] := 0;
      return;
    }
    FormatPlain(name, filename);
  }

  /** The two loops of `fat16_ls`. */
  method FormatPlain(name: seq<byte>, filename: array<byte>)
    requires |name| == 11 && filename.Length >= |Format(name)| + 1
    requires !(name[0] == DOT && name[1] == SPACE) && !(name[0] == DOT && name[1] == DOT && name[2] == SPACE)
    modifies filename
    ensures |Format(name)| <= 12
    ensures filename[..|Format(name)| + 1] == Format(name) + [0]
    ensures forall k :: |Format(name)| < k < filename.Length ==> filename[k] == old(filename[k])
  {
    FormatLength(name);
    hide IndexOf, Format;
    var n := CopyWord(name[..8], filename, 0);
    filename[n] := DOT;
    ghost var front := filename[..n + 1];
    var e := CopyWord(name[8..], filename, n + 1);
    filename[n + 1 + e] := 0;
    assert filename[..n + 1] == front;
    Assembled(name, filename[..], n, e);
  }

  /** How long the formatted name is; a buffer of 11 bytes takes it exactly when base and extension have
      at most nine characters between them. */
  lemma FormatLength(name: seq<byte>)
    requires |name| == 11
    ensures var base, ext := IndexOf(name[..8], SPACE), IndexOf(name[8..], SPACE);
            && (|Format(name)| + 1 <= 11 <==> base + ext <= 9)
            && (!(name[0] == DOT && (name[1] == SPACE || (name[1] == DOT && name[2] == SPACE))) ==>
                  |Format(name)| == base + 1 + ext)
  {
    hide IndexOf;
    var w := name[..8];
    assert w[0] == name[0] && w[1] == name[1] && w[2] == name[2];
    var base := IndexOf(w, SPACE);
    assert name[1] == SPACE ==> base <= 1;
    assert name[2] == SPACE ==> base <= 2;
  }

  /** The formatted name of this record needs 13 bytes. */
  lemma LongNameFormats()
    ensures var name := [0x4C, 0x4F, 0x4E, 0x47, 0x4E, 0x41, 0x4D, 0x45, 0x54, 0x58, 0x54];
            |Format(name)| == 12
  {
    var name: seq<byte> := [0x4C, 0x4F, 0x4E, 0x47, 0x4E, 0x41, 0x4D, 0x45, 0x54, 0x58, 0x54];
    IndexOfFirst(name[..8], SPACE, 8);
    IndexOfFirst(name[8..], SPACE, 3);
    FormatLength(name);
  }

  lemma Assembled(name: seq<byte>, out: seq<byte>, n: nat, e: nat)
    requires |name| == 11 && |out| >= n + e + 2
    requires !(name[0] == DOT && name[1] == SPACE) && !(name[0] == DOT && name[1] == DOT && name[2] == SPACE)
    requires n == IndexOf(name[..8], SPACE) && e == IndexOf(name[8..], SPACE)
    requires out[..n + 1] == name[..8][..n] + [DOT]
    requires out[n + 1..n + 1 + e] == name[8..][..e] && out[n + 1 + e] == 0
    ensures |Format(name)| == n + e + 1 && out[..n + e + 2] == Format(name) + [0]
  {
    hide IndexOf;
    assert out[..n + e + 2] == out[..n + 1] + out[n + 1..n + 1 + e] + [out[n + 1 + e]];
  }

  /** One of the two loops: bytes up to a space. */
  method CopyWord(word: seq<byte>, filename: array<byte>, at: nat) returns (n: nat)
    requires at + IndexOf(word, SPACE) <= filename.Length
    modifies filename
    ensures n == IndexOf(word, SPACE) && filename[at..at + n] == word[..n]
    ensures forall k :: 0 <= k < filename.Length && !(at <= k < at + n) ==> filename[k] == old(filename[k])
  {
    n := 0;
    while n < |word|
      invariant n <= |word| && at + n <= filename.Length && n <= IndexOf(word, SPACE)
      invariant filename[at..at + n] == word[..n]
      invariant forall j :: 0 <= j < n ==> word[j] != SPACE
      invariant forall k :: 0 <= k < filename.Length && !(at <= k < at + n) ==> filename[k] == old(filename[k])
    {
      if word[n] == SPACE {
        break;
      }
      filename[at + n] := word[n];
      n := n + 1;
    }
    IndexOfFirst(word, SPACE, n);
  }

  // ----- paths -----

  /** The next slash at or after `from`; the end of the path if there is none. */
  function NextSlash(path: seq<byte>, from: nat): (i: nat)
    requires from <= |path|
    ensures from <= i <= |path| && (i < |path| ==> path[i] == SLASH)
    ensures forall j :: from <= j < i ==> path[j] != SLASH
    decreases |path| - from
  {
    if from == |path| || path[from] == SLASH then from else NextSlash(path, from + 1)
  }

  /** Another component follows the one that starts with the slash at `i`. */
  predicate HasNext(path: seq<byte>, i: nat)
    requires i <= |path|
  {
    i < |path| && path[i] == SLASH && NextSlash(path, i + 1) < |path|
  }

  /** `get_subdir`: the component at `index`, slash included, if another one follows. The caller's buffer
      takes 12 characters. */
  method GetSubdir(path: seq<byte>, index: nat) returns (r: int, subdir: seq<byte>, index': nat)
    requires 0 !in path && index <= |path| < 0x1_0000
    requires HasNext(path, index) ==> NextSlash(path, index + 1) - index <= 12
    ensures r == if index == |path| || path[index] != SLASH then -1 else if HasNext(path, index) then 0 else -2
    ensures index' == if r == 0 then NextSlash(path, index + 1) else index
    ensures r == 0 ==> subdir == path[index..index']
  {
    subdir, index' := [], index;
    if CharAt(path, index) != SLASH {
      return -1, subdir, index';
    }
    var len := 1;
    while CharAt(path, index + len) != 0
      invariant 1 <= len && index + len <= |path|
      invariant NextSlash(path, index + 1) == NextSlash(path, index + len)
      decreases |path| - len
    {
      if path[index + len] == SLASH {
        break;
      }
      len := len + 1;
    }
    if CharAt(path, index + len) != SLASH {
      return -2, subdir, index';
    }
    subdir := path[index..index + len];
    index' := index + len;
    r := 0;
  }

  /** `is_in_root`: no second component. */
  method IsInRoot(path: seq<byte>) returns (b: bool)
    requires 0 !in path && |path| < 0x1_0000
    requires HasNext(path, 0) ==> NextSlash(path, 1) <= 12
    ensures b == !HasNext(path, 0)
  {
    var r, subdir, index := GetSubdir(path, 0);
    b := r < 0;
  }
}
