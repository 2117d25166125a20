/** Directory records and the search for a name among them. */
module FatRecords {
  import opened Arith
  import opened Bytes
  import opened FatDisk
  import opened FatVolume

  const RECORD: nat := 32
  const NAME: nat := 11
  const AVAILABLE: byte := 0xE5

  /** A directory record of 32 bytes: name and extension, attributes, first cluster and size. */
  datatype DirEntry = DirEntry(name: seq<byte>, attribute: byte, startingCluster: nat, size: nat) {
    predicate IsVfat() { attribute % 0x10 == 0x0F }
    predicate IsVolume() { attribute / 0x08 % 2 == 1 }
    predicate IsSubdir() { attribute / 0x10 % 2 == 1 }
    predicate IsReadOnly() { attribute % 2 == 1 }
  }

  function Parse(b: seq<byte>): (e: DirEntry)
    requires |b| == RECORD
    ensures |e.name| == NAME && e.startingCluster < 0x1_0000 && e.size < WORD
  {
    DirEntry(b[..NAME], b[11], Get16(b, 26), Get32(b, 28))
  }

  /** A record as it is laid out: 11 bytes of name, the attribute, 14 bytes that the driver passes over, the
      first cluster in 16 bits and the size in 32. */
  lemma ParseLayout(name: seq<byte>, attribute: byte, between: seq<byte>, cluster: nat, size: nat)
    requires |name| == 11 && |between| == 14 && cluster < 0x1_0000 && size < 0x1_0000_0000
    ensures
      var b := name + [attribute] + between + [cluster % 256, cluster / 256]
               + [size % 256, size / 256 % 256, size / 65536 % 256, size / 16777216];
      |b| == 32 && Parse(b) == DirEntry(name, attribute, cluster, size)
  {
    var half: seq<byte> := [cluster % 256, cluster / 256];
    var word: seq<byte> := [size % 256, size / 256 % 256, size / 65536 % 256, size / 16777216];
    var front := name + [attribute] + between;
    var b := front + half + word;
    assert b[..11] == name && b[11] == attribute;
    assert b[26] == half[0] && b[27] == half[1];
    assert b[28] == word[0] && b[29] == word[1] && b[30] == word[2] && b[31] == word[3];
    Digits(size);
  }

  // ----- the search -----

  /** In use, part of the listing and of that name. */
  predicate Hit(e: DirEntry, name: seq<byte>)
    requires |e.name| == NAME
  {
    e.name[0] != AVAILABLE && !e.IsVfat() && e.name == name
  }

  ghost predicate Entries(es: seq<DirEntry>) {
    forall i :: 0 <= i < |es| ==> |es[i].name| == NAME
  }

  /** The search stops at the first free record that ends the directory. */
  predicate Terminator(e: DirEntry)
    requires |e.name| == NAME
  {
    e.name[0] == 0
  }

  /** Record `r` is the one a search for `name` finds: a hit, no earlier hit, no terminator up to it.
      -1: no hit before the first terminator. */
  ghost predicate Found(es: seq<DirEntry>, name: seq<byte>, r: int)
    requires Entries(es)
  {
    if r == -1 then
      forall i :: 0 <= i < |es| && Hit(es[i], name) && !Terminator(es[i]) ==>
        exists t :: 0 <= t < i && Terminator(es[t])
    else
      && 0 <= r < |es| && Hit(es[r], name)
      && (forall i :: 0 <= i <= r ==> !Terminator(es[i]))
      && forall i :: 0 <= i < r ==> !Hit(es[i], name)
  }

  /** A search looks for the bytes of a name in records that are not erased and no pieces of long names,
      and ends at a record whose name starts with 0. */
  lemma FoundMeans(es: seq<DirEntry>, name: seq<byte>, r: nat)
    requires Entries(es) && |name| == 11 && r < |es| && es[r].name == name && name[0] != 0xE5
    requires es[r].attribute % 16 != 15
    requires forall i :: 0 <= i <= r ==> |es[i].name| == 11 && es[i].name[0] != 0
    requires forall i :: 0 <= i < r ==> es[i].name != name || es[i].attribute % 16 == 15
    ensures Found(es, name, r)
  {
  }

  /** A search fails for names of which no such record comes before the end. */
  lemma NotFoundMeans(es: seq<DirEntry>, name: seq<byte>, n: nat)
    requires Entries(es) && n <= |es| && forall i :: 0 <= i < |es| ==> |es[i].name| == 11
    requires n < |es| ==> es[n].name[0] == 0
    requires forall i :: 0 <= i < n ==> es[i].name != name || es[i].name[0] == 0xE5 || es[i].attribute % 16 == 15
    ensures Found(es, name, -1)
  {
  }

  /** There is exactly one answer. */
  lemma FoundUnique(es: seq<DirEntry>, name: seq<byte>, r: int, s: int)
    requires Entries(es) && Found(es, name, r) && Found(es, name, s)
    ensures r == s
  {
  }

  lemma OneAnswer(es: seq<DirEntry>, name: seq<byte>, r: int)
    requires Entries(es) && Found(es, name, r)
    ensures forall s :: Found(es, name, s) ==> s == r
  {
    hide Found;
    forall s | Found(es, name, s) ensures s == r {
      FoundUnique(es, name, r, s);
    }
  }

  /** Nothing found so far and no terminator: the search has to look at record `i` next. */
  ghost predicate Searching(es: seq<DirEntry>, name: seq<byte>, i: nat)
    requires Entries(es)
  {
    i <= |es| && forall j :: 0 <= j < i ==> !Hit(es[j], name) && !Terminator(es[j])
  }

  lemma SearchOn(es: seq<DirEntry>, name: seq<byte>, i: nat)
    requires Entries(es) && Searching(es, name, i) && i < |es|
    requires !Hit(es[i], name) && !Terminator(es[i])
    ensures Searching(es, name, i + 1)
  {
  }

  lemma SearchEnds(es: seq<DirEntry>, name: seq<byte>, i: nat)
    requires Entries(es) && Searching(es, name, i)
    ensures i == |es| || Terminator(es[i]) ==> Found(es, name, -1)
    ensures i < |es| && !Terminator(es[i]) && Hit(es[i], name) ==> Found(es, name, i)
  {
  }

  // ----- the records of a directory -----

  function RootRecord(disk: Disk, g: Geometry, i: nat): (e: DirEntry)
    ensures |e.name| == NAME && e.startingCluster < 0x1_0000 && e.size < WORD
  {
    Parse(DeviceBytes(disk, RootPos(g, i), RECORD))
  }

  function RootRecords(disk: Disk, g: Geometry): (es: seq<DirEntry>)
    ensures |es| == g.rootEntries && Entries(es)
  {
    seq(g.rootEntries, i requires 0 <= i < g.rootEntries => RootRecord(disk, g, i))
  }

  /** How many records the clusters of a chain hold. */
  function RecordCount(g: Geometry, chain: seq<nat>): nat {
    Times(|chain|, g.clusterBytes) / RECORD
  }

  function SubRecord(disk: Disk, g: Geometry, chain: seq<nat>, i: nat): (e: DirEntry)
    requires InData(g, chain) && i < RecordCount(g, chain)
    ensures |e.name| == NAME && e.startingCluster < 0x1_0000 && e.size < WORD
  {
    Parse(ChainBytes(disk, g, chain)[RECORD * i..RECORD * i + RECORD])
  }

  function SubRecords(disk: Disk, g: Geometry, chain: seq<nat>): (es: seq<DirEntry>)
    requires InData(g, chain)
    ensures |es| == RecordCount(g, chain) && Entries(es)
  {
    seq(RecordCount(g, chain), i requires 0 <= i < RecordCount(g, chain) => SubRecord(disk, g, chain, i))
  }

  /** Where record `32 * i == k * C + off` of a chain lies on the device. */
  lemma SubRecordAt(disk: Disk, g: Geometry, chain: seq<nat>, k: nat, off: nat, i: nat)
    requires Sound(g) && InData(g, chain) && k < |chain| && off + RECORD <= g.clusterBytes
    requires RECORD * i == Times(k, g.clusterBytes) + off
    ensures i < RecordCount(g, chain)
    ensures SubRecord(disk, g, chain, i) == Parse(DeviceBytes(disk, DataPos(g, chain[k]) + off, RECORD))
  {
    hide Times, DiskBytes, ChainBytes;
    TimesWithin(k, |chain|, g.clusterBytes);
    ChainPiece(disk, g, chain, k, off, RECORD);
  }
}
