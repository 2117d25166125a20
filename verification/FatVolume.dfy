/** A FAT16 volume on the device: where things lie, cluster chains, and the bytes of a chain. */
module FatVolume {
  import opened Arith
  import opened Bytes
  import opened FatDisk

  /** The layout that `fat16_init` computes, with the cluster size in bytes and the root directory's
      number of records. */
  datatype Geometry = Geometry(
    offset: nat, fat: nat, root: nat, data: nat, clusters: nat, clusterBytes: nat, rootEntries: nat)

  /** Regions in order, clusters of whole records that a 16-bit offset can step through, and no position
      on the volume past 32 bits. */
  ghost predicate Sound(g: Geometry) {
    && g.fat <= g.root <= g.data
    && 512 <= g.clusterBytes <= 32768 && g.clusterBytes % 32 == 0
    && g.rootEntries < 0x1_0000 && g.clusters < 65525
    && g.offset + g.data + Times(g.clusters, g.clusterBytes) < WORD
    && g.offset + g.fat + 2 * 0x1_0000 < WORD
    && g.offset + g.root + 32 * g.rootEntries < WORD
  }

  /** The root directory ends before the data region. */
  predicate RootFits(g: Geometry) { g.root + 32 * g.rootEntries <= g.data }

  predicate DataCluster(g: Geometry, c: nat) { 2 <= c < g.clusters + 2 }

  function RootPos(g: Geometry, i: nat): nat { g.root + g.offset + 32 * i }

  function FatPos(g: Geometry, c: nat): nat { g.fat + g.offset + 2 * c }

  function DataPos(g: Geometry, c: nat): nat
    requires DataCluster(g, c)
  {
    g.data + g.offset + Times(c - 2, g.clusterBytes)
  }

  function DataEnd(g: Geometry): nat { g.data + g.offset + Times(g.clusters, g.clusterBytes) }

  /** A data cluster ends before the 32-bit limit. */
  lemma DataPosFits(g: Geometry, c: nat)
    requires Sound(g) && DataCluster(g, c)
    ensures DataPos(g, c) + g.clusterBytes < WORD
  {
    TimesWithin(c - 2, g.clusters, g.clusterBytes);
  }

  /** Different clusters occupy different bytes of the data region, behind every root record that ends
      before that region. */
  lemma ClustersDisjoint(g: Geometry, c: nat, d: nat)
    requires Sound(g) && DataCluster(g, c) && DataCluster(g, d) && c != d
    ensures DataPos(g, c) + g.clusterBytes <= DataPos(g, d) || DataPos(g, d) + g.clusterBytes <= DataPos(g, c)
    ensures g.data + g.offset <= DataPos(g, c) && DataPos(g, c) + g.clusterBytes <= DataEnd(g)
    ensures RootFits(g) ==> RootPos(g, g.rootEntries) <= DataPos(g, c)
  {
    TimesWithin(c - 2, g.clusters, g.clusterBytes);
    if c < d {
      TimesWithin(c - 2, d - 2, g.clusterBytes);
    } else {
      TimesWithin(d - 2, c - 2, g.clusterBytes);
    }
  }

  // ----- chains -----

  const END_OF_CHAIN: nat := 0xFFF8

  /** The FAT entry of a cluster. */
  function Next(disk: Disk, g: Geometry, c: nat): (n: nat)
    ensures n < 0x1_0000
  {
    Get16(DeviceBytes(disk, FatPos(g, c), 2), 0)
  }

  /** The entry is the half-word number `c` of the FAT. */
  lemma NextInBytes(disk: Disk, g: Geometry, c: nat)
    ensures Next(disk, g, c) ==
            disk(51200 + g.offset + g.fat + 2 * c) as int + 256 * disk(51200 + g.offset + g.fat + 2 * c + 1) as int
  {
    DeviceByte(disk, FatPos(g, c), 2, 0);
    DeviceByte(disk, FatPos(g, c), 2, 1);
    hide DeviceBytes;
  }

  /** Clusters linked through the FAT, from `c` on. */
  ghost predicate FollowsFat(disk: Disk, g: Geometry, c: nat, chain: seq<nat>) {
    && |chain| > 0 && chain[0] == c
    && (forall i :: 0 <= i < |chain| ==> chain[i] < 0x1_0000)
    && forall i :: 0 <= i < |chain| - 1 ==> chain[i + 1] == Next(disk, g, chain[i])
  }

  /** All of them clusters of the data region. */
  ghost predicate InData(g: Geometry, chain: seq<nat>) {
    forall i :: 0 <= i < |chain| ==> DataCluster(g, chain[i])
  }

  /** The chain ends where the FAT says so, and not before. */
  ghost predicate Ends(disk: Disk, g: Geometry, chain: seq<nat>) {
    && |chain| > 0 && Next(disk, g, chain[|chain| - 1]) >= END_OF_CHAIN
    && forall i :: 1 <= i < |chain| ==> chain[i] < END_OF_CHAIN
  }

  /** A chain that ends is acyclic, and there is only one from each cluster. */
  lemma {:induction false} ChainUnique(disk: Disk, g: Geometry, c: nat, a: seq<nat>, b: seq<nat>)
    requires FollowsFat(disk, g, c, a) && FollowsFat(disk, g, c, b) && Ends(disk, g, a) && Ends(disk, g, b)
    ensures a == b
    decreases |a|
  {
    assert |a| > 1 ==> Next(disk, g, a[0]) == a[0 + 1] < END_OF_CHAIN;
    assert |b| > 1 ==> Next(disk, g, b[0]) == b[0 + 1] < END_OF_CHAIN;
    if |a| == 1 {
    } else {
      ChainTail(disk, g, c, a);
      ChainTail(disk, g, c, b);
      ChainUnique(disk, g, a[1], a[1..], b[1..]);
      assert a == [c] + a[1..] && b == [c] + b[1..];
    }
  }

  lemma ChainTail(disk: Disk, g: Geometry, c: nat, a: seq<nat>)
    requires FollowsFat(disk, g, c, a) && Ends(disk, g, a) && |a| > 1
    ensures FollowsFat(disk, g, a[1], a[1..]) && Ends(disk, g, a[1..])
  {
    var t := a[1..];
    forall i | 0 <= i < |t| - 1 ensures t[i + 1] == Next(disk, g, t[i]) {
      assert Next(disk, g, a[i + 1]) == a[i + 1 + 1];
    }
  }

  /** In a chain that ends, the FAT entry tells the last cluster from the others. */
  lemma ChainStep(disk: Disk, g: Geometry, c: nat, chain: seq<nat>, k: nat)
    requires FollowsFat(disk, g, c, chain) && Ends(disk, g, chain) && k < |chain|
    ensures Next(disk, g, chain[k]) >= END_OF_CHAIN ==> k == |chain| - 1
    ensures Next(disk, g, chain[k]) < END_OF_CHAIN ==> k + 1 < |chain| && chain[k + 1] == Next(disk, g, chain[k])
  {
    assert k < |chain| - 1 ==> chain[k + 1] == Next(disk, g, chain[k]);
  }

  // ----- the bytes of a chain -----

  function ClusterBytes(disk: Disk, g: Geometry, c: nat): (s: seq<byte>)
    requires DataCluster(g, c)
    ensures |s| == g.clusterBytes
  {
    DeviceBytes(disk, DataPos(g, c), g.clusterBytes)
  }

  /** The data region starts with cluster 2. */
  lemma ClusterByte(disk: Disk, g: Geometry, c: nat, k: nat)
    requires 2 <= c < g.clusters + 2 && k < g.clusterBytes
    ensures DataCluster(g, c)
    ensures ClusterBytes(disk, g, c)[k] == disk(51200 + g.offset + g.data + (c - 2) * g.clusterBytes + k)
  {
    DeviceByte(disk, DataPos(g, c), g.clusterBytes, k);
    hide DeviceBytes;
  }

  /** The clusters of a chain, one after the other. */
  function ChainBytes(disk: Disk, g: Geometry, chain: seq<nat>): (s: seq<byte>)
    requires InData(g, chain)
    ensures |s| == Times(|chain|, g.clusterBytes)
  {
    if chain == [] then [] else
      TimesNext(|chain| - 1, g.clusterBytes);
      ClusterBytes(disk, g, chain[0]) + ChainBytes(disk, g, chain[1..])
  }

  /** A piece of the chain that stays within cluster `i` is the same piece of that cluster on the device. */
  lemma {:induction false} ChainPiece(disk: Disk, g: Geometry, chain: seq<nat>, i: nat, off: nat, n: nat)
    requires InData(g, chain) && i < |chain| && off + n <= g.clusterBytes
    ensures Times(i, g.clusterBytes) + off + n <= |ChainBytes(disk, g, chain)|
    ensures ChainBytes(disk, g, chain)[Times(i, g.clusterBytes) + off..Times(i, g.clusterBytes) + off + n] ==
            DeviceBytes(disk, DataPos(g, chain[i]) + off, n)
  {
    Split(disk, g, chain);
    hide DiskBytes, ChainBytes, InData, Times;
    TimesWithin(i, |chain|, g.clusterBytes);
    TimesNext(0, g.clusterBytes);
    if i == 0 {
      HeadPiece(disk, g, chain, off, n);
    } else {
      TimesNext(i - 1, g.clusterBytes);
      ChainPiece(disk, g, chain[1..], i - 1, off, n);
      Behind(ClusterBytes(disk, g, chain[0]), ChainBytes(disk, g, chain[1..]), Times(i - 1, g.clusterBytes) + off, n);
    }
  }

  /** Byte `off` of the cluster with index `i`. */
  lemma ChainByte(disk: Disk, g: Geometry, chain: seq<nat>, i: nat, off: nat)
    requires InData(g, chain) && i < |chain| && off < g.clusterBytes
    ensures Times(i, g.clusterBytes) + off < |ChainBytes(disk, g, chain)| && 2 <= chain[i]
    ensures ChainBytes(disk, g, chain)[Times(i, g.clusterBytes) + off] ==
            disk(51200 + g.offset + g.data + Times(chain[i] - 2, g.clusterBytes) + off)
  {
    hide DeviceBytes, ChainBytes, Times;
    assert DataCluster(g, chain[i]);
    ChainPiece(disk, g, chain, i, off, 1);
    DeviceByte(disk, DataPos(g, chain[i]) + off, 1, 0);
    OnePiece(ChainBytes(disk, g, chain), Times(i, g.clusterBytes) + off);
  }

  lemma OnePiece(s: seq<byte>, k: nat)
    requires k < |s|
    ensures |s[k..k + 1]| == 1 && s[k..k + 1][0] == s[k]
  {
  }

  /** Chains that end: the FAT entry of the last cluster is 0xFFF8 or more, no other one is. */
  lemma EndsMeans(disk: Disk, g: Geometry, c: nat, chain: seq<nat>)
    requires FollowsFat(disk, g, c, chain)
    ensures Ends(disk, g, chain) <==>
            forall i :: 0 <= i < |chain| ==> (Next(disk, g, chain[i]) >= 0xFFF8 <==> i == |chain| - 1)
  {
    hide Next;
    if Ends(disk, g, chain) {
      forall i | 0 <= i < |chain| ensures Next(disk, g, chain[i]) >= 0xFFF8 <==> i == |chain| - 1 {
        ChainStep(disk, g, c, chain, i);
      }
    } else {
      if i :| 1 <= i < |chain| && chain[i] >= END_OF_CHAIN {
        assert chain[i - 1 + 1] == Next(disk, g, chain[i - 1]);
      }
    }
  }

  lemma HeadPiece(disk: Disk, g: Geometry, chain: seq<nat>, off: nat, n: nat)
    requires InData(g, chain) && |chain| > 0 && off + n <= g.clusterBytes <= |ChainBytes(disk, g, chain)|
    ensures ChainBytes(disk, g, chain)[off..off + n] == DeviceBytes(disk, DataPos(g, chain[0]) + off, n)
  {
    hide DiskBytes;
    var head := ClusterBytes(disk, g, chain[0]);
    assert ChainBytes(disk, g, chain)[off..off + n] == head[off..off + n];
    DiskSlice(disk, FIRST_SECTOR * SECTOR_SIZE + DataPos(g, chain[0]), g.clusterBytes, off, n);
  }

  lemma Split(disk: Disk, g: Geometry, chain: seq<nat>)
    requires InData(g, chain) && |chain| > 0
    ensures InData(g, chain[1..])
    ensures ChainBytes(disk, g, chain) == ClusterBytes(disk, g, chain[0]) + ChainBytes(disk, g, chain[1..])
  {
  }

  lemma Behind(a: seq<byte>, b: seq<byte>, from: nat, n: nat)
    requires from + n <= |b|
    ensures (a + b)[|a| + from..|a| + from + n] == b[from..from + n]
  {
  }
}
