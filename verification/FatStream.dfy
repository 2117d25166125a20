/** Reading a file as a stream over its cluster chain. */
module FatStream {
  import opened Arith
  import opened Bytes
  import opened FatDisk
  import opened FatVolume

  /** Where a handle stands after `p` of the `size` bytes of a file: cluster and offset in it. At the end
      of a file that fills its last cluster the handle stays on that cluster, at offset 0. */
  function At(chain: seq<nat>, C: nat, size: nat, p: nat): (r: (nat, nat))
    requires C > 0 && |chain| > 0 && size <= Times(|chain|, C) && p <= size
    ensures r.1 < C
  {
    AtIndex(|chain|, C, size, p);
    if p == size && p > 0 && Rem(p, C) == 0 then (chain[Quot(p, C) - 1], 0) else (chain[Quot(p, C)], Rem(p, C))
  }

  lemma AtIndex(k: nat, C: nat, size: nat, p: nat)
    requires C > 0 && k > 0 && size <= Times(k, C) && p <= size
    ensures Times(Quot(p, C), C) + Rem(p, C) == p
    ensures if p == size && p > 0 && Rem(p, C) == 0 then 0 < Quot(p, C) <= k else Quot(p, C) < k
  {
    hide Times, Quot, Rem;
    Divided(p, C);
    if Quot(p, C) >= k {
      TimesMono(k, Quot(p, C), C);
    }
    if Quot(p, C) > k {
      TimesWithin(k, Quot(p, C), C);
    }
    TimesNext(0, C);
    TimesWithin(0, k, C);
  }

  ghost predicate IsFile(disk: Disk, g: Geometry, chain: seq<nat>, size: nat) {
    && |chain| > 0 && FollowsFat(disk, g, chain[0], chain) && InData(g, chain)
    && size <= Times(|chain|, g.clusterBytes)
  }

  function Min(a: nat, b: nat): nat { if a <= b then a else b }

  /** The bytes of the file. */
  function Content(disk: Disk, g: Geometry, chain: seq<nat>, size: nat): (s: seq<byte>)
    requires InData(g, chain) && size <= Times(|chain|, g.clusterBytes)
    ensures |s| == size
  {
    ChainBytes(disk, g, chain)[..size]
  }

  /** Where each byte of a file lies on the disk: byte `off` of the cluster with index `i`. */
  lemma ContentByte(disk: Disk, g: Geometry, chain: seq<nat>, size: nat, i: nat, off: nat)
    requires InData(g, chain) && i < |chain| && off < g.clusterBytes
    requires Times(i, g.clusterBytes) + off < size <= Times(|chain|, g.clusterBytes)
    ensures 2 <= chain[i]
    ensures Content(disk, g, chain, size)[Times(i, g.clusterBytes) + off] ==
            disk(51200 + g.offset + g.data + Times(chain[i] - 2, g.clusterBytes) + off)
  {
    hide ChainBytes, Times;
    ChainByte(disk, g, chain, i, off);
  }

  /** What a read of `n` bytes at position `p` has to deliver. */
  function ReadAt(content: seq<byte>, p: nat, n: nat): seq<byte>
    requires p <= |content|
  {
    content[p..p + Min(n, |content| - p)]
  }

  /** Two reads in a row deliver what one read of both lengths does, and end in the same place. */
  lemma ReadsCompose(content: seq<byte>, p: nat, n: nat, m: nat)
    requires p <= |content|
    ensures var p' := p + |ReadAt(content, p, n)|;
            && p' <= |content|
            && ReadAt(content, p, n) + ReadAt(content, p', m) == ReadAt(content, p, n + m)
            && p' + |ReadAt(content, p', m)| == p + |ReadAt(content, p, n + m)|
  {
  }

  /** One chunk of the read loop, from position `q`, moves the handle to `q + n`. */
  lemma AtStep(chain: seq<nat>, C: nat, size: nat, q: nat, n: nat)
    requires C > 0 && |chain| > 0 && size <= Times(|chain|, C) && q < size
    requires 0 < n <= C - Rem(q, C) && q + n <= size
    ensures Quot(q, C) < |chain| && At(chain, C, size, q) == (chain[Quot(q, C)], Rem(q, C))
    ensures Rem(q, C) + n < C ==> At(chain, C, size, q + n) == (chain[Quot(q, C)], Rem(q, C) + n)
    ensures Rem(q, C) + n == C && q + n == size ==> At(chain, C, size, q + n) == (chain[Quot(q, C)], 0)
    ensures Rem(q, C) + n == C && q + n < size ==>
              Quot(q, C) + 1 < |chain| && At(chain, C, size, q + n) == (chain[Quot(q, C) + 1], 0)
  {
    hide Times, Quot, Rem;
    var i, off := Quot(q, C), Rem(q, C);
    AtIndex(|chain|, C, size, q);
    AtIndex(|chain|, C, size, q + n);
    if off + n < C {
      DividedAs(q + n, C, i, off + n);
    } else {
      TimesNext(i, C);
      DividedAs(q + n, C, i + 1, 0);
    }
  }

  /** The bytes of one chunk lie together on the device. */
  lemma ChunkOnDevice(disk: Disk, g: Geometry, chain: seq<nat>, size: nat, q: nat, n: nat)
    requires Sound(g) && IsFile(disk, g, chain, size)
    requires q < size && q + n <= size && n <= g.clusterBytes - Rem(q, g.clusterBytes)
    ensures Quot(q, g.clusterBytes) < |chain|
    ensures Content(disk, g, chain, size)[q..q + n] ==
            DeviceBytes(disk, DataPos(g, chain[Quot(q, g.clusterBytes)]) + Rem(q, g.clusterBytes), n)
  {
    hide ChainBytes, DiskBytes, Times, Quot, Rem;
    var C := g.clusterBytes;
    AtIndex(|chain|, C, size, q);
    ChainPiece(disk, g, chain, Quot(q, C), Rem(q, C), n);
    assert Content(disk, g, chain, size)[q..q + n] == ChainBytes(disk, g, chain)[q..q + n];
  }
}
