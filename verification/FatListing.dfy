/** Listing directories: one record a call, up to the first terminator. */
module FatListing {
  import opened Arith
  import opened Bytes
  import opened FatDisk
  import opened FatVolume
  import opened FatStream
  import opened FatHandle
  import opened FatReader
  import opened FatRecords
  import opened FatDirs
  import opened FatPath

  /** Where the listing of a directory ends. */
  ghost predicate EndsAt(es: seq<DirEntry>, n: nat)
    requires Entries(es)
  {
    && n <= |es| && (n < |es| ==> Terminator(es[n]))
    && forall i :: 0 <= i < n ==> !Terminator(es[i])
  }

  /** The listing: erased records and parts of long names included. */
  ghost predicate IsListing(es: seq<DirEntry>, names: seq<seq<byte>>)
    requires Entries(es)
  {
    && EndsAt(es, |names|)
    && forall i :: 0 <= i < |names| ==> names[i] == Format(es[i].name)
  }

  /** The file a lookup finds is in the listing, at the place of its record. */
  lemma FoundIsListed(es: seq<DirEntry>, names: seq<seq<byte>>, name: seq<byte>, r: int)
    requires Entries(es) && IsListing(es, names) && Found(es, name, r) && r >= 0
    ensures r < |names| && names[r] == Format(name)
  {
    hide Format;
    assert !Terminator(es[r]);
  }

  /** The listed name of a record in use parses back to the name in the record, and looking that up finds
      the first record in use of this name. */
  lemma ListedIsFound(es: seq<DirEntry>, names: seq<seq<byte>>, s: seq<byte>, n: seq<byte>, i: nat)
    requires Entries(es) && IsListing(es, names) && i < |names|
    requires ShortName(s) == Some(n) && Hit(es[i], n)
    ensures ShortName(names[i]) == Some(n)
    ensures exists r :: 0 <= r <= i && Found(es, n, r)
  {
    hide Format, ShortName;
    ReparseFormatted(s);
    FirstHit(es, n, i);
  }

  lemma {:induction false} FirstHit(es: seq<DirEntry>, name: seq<byte>, i: nat)
    requires Entries(es) && i < |es| && Hit(es[i], name) && forall t :: 0 <= t <= i ==> !Terminator(es[t])
    ensures exists r :: 0 <= r <= i && Found(es, name, r)
  {
    if j: nat :| j < i && Hit(es[j], name) {
      FirstHit(es, name, j);
    } else {
      assert Found(es, name, i);
    }
  }

  /** Of the listed records exactly those can be looked up by their name that are in use and come first
      with it. */
  lemma ListedFoundExactly(es: seq<DirEntry>, names: seq<seq<byte>>, i: nat)
    requires Entries(es) && IsListing(es, names) && i < |names|
    ensures Found(es, es[i].name, i) <==>
            Hit(es[i], es[i].name) && forall j :: 0 <= j < i ==> !Hit(es[j], es[i].name)
  {
    hide Format;
    assert forall t :: 0 <= t <= i ==> !Terminator(es[t]);
  }

  /** An erased record is listed, and a lookup of its name finds nothing; the same goes for a piece of a
      long name. */
  lemma ListedNotFound(e: DirEntry)
    requires |e.name| == NAME && !Terminator(e) && (e.name[0] == AVAILABLE || e.IsVfat())
    ensures Entries([e]) && IsListing([e], [Format(e.name)]) && Found([e], e.name, -1)
  {
    hide Format;
  }

  /** Every name up to the end of the listing fits a buffer of `n` bytes, terminator included. */
  ghost predicate ListingFits(es: seq<DirEntry>, n: nat)
    requires Entries(es)
  {
    forall i :: 0 <= i < |es| && (forall t :: 0 <= t <= i ==> !Terminator(es[t])) ==> |Format(es[i].name)| + 1 <= n
  }

  /** `ls_in_root`. */
  method LsInRoot(vol: Volume, index: nat) returns (r: int, index': nat, name: seq<byte>)
    requires vol.Valid()
    modifies vol.dev
    ensures vol.Valid() && r == if index > vol.G().rootEntries then -1
                                else if index == vol.G().rootEntries
                                        || Terminator(RootRecord(vol.dev.disk, vol.G(), index)) then 0
                                else 1
    ensures index' == if r == 1 then index + 1 else index
    ensures r == 1 ==> name == RootRecord(vol.dev.disk, vol.G(), index).name
  {
    hide Parse, DiskBytes;
    name, index' := [], index;
    if index == vol.bpb.rootEntries {
      return 0, index', name;
    } else if index > vol.bpb.rootEntries {
      return -1, index', name;
    }
    ghost var pos := vol.MoveToRootDirectoryRegion(index);
    var e := ReadRecord(vol);
    if e.name[0] == 0 {
      return 0, index', name;
    }
    r, index', name := 1, index + 1, e.name;
  }

  /** `ls_in_subdir`, on a handle at the start of the directory: every call skips the records before. */
  method LsInSubdir(vol: Volume, handle: EntryHandle, index: nat, ghost chain: seq<nat>)
    returns (r: int, index': nat, name: seq<byte>)
    requires vol.Valid() && IsDir(vol.dev.disk, vol.G(), chain)
    requires handle.cluster == chain[0] && handle.offset == 0
    modifies vol.dev, handle`cluster, handle`offset
    ensures vol.Valid() && r == if index >= RecordCount(vol.G(), chain) then -1
                                else if Terminator(SubRecord(vol.dev.disk, vol.G(), chain, index)) then 0
                                else 1
    ensures index' == if r == 1 then index + 1 else index
    ensures r == 1 ==> name == SubRecord(vol.dev.disk, vol.G(), chain, index).name
  {
    hide SubRecord, RecordCount, FollowsFat, Ends, InData, Sound, Times;
    name, index' := [], index;
    ghost var k, g := 0, vol.G();
    TimesNext(0, g.clusterBytes);
    var left := index;
    var e;
    while left > 0
      invariant 0 <= left <= index && vol.Valid() && vol.G() == g && index - left <= RecordCount(g, chain)
      invariant DirAt(g, chain, handle.cluster, handle.offset, k, index - left)
    {
      r, e, k := ReadEntryFromSubdir(vol, handle, chain, k, index - left);
      if r < 0 {
        return;
      }
      left := left - 1;
    }
    r, e, k := ReadEntryFromSubdir(vol, handle, chain, k, index);
    if r < 0 {
      return;
    }
    if e.name[0] == 0 {
      return 0, index', name;
    }
    r, index', name := 1, index + 1, e.name;
  }

  /** The room the kernel gives a name; not enough for every name of eight and three characters. */
  const NAME_BUFFER: nat := 11

  /** The loop in which the kernel lists the root directory. */
  method ListRoot(vol: Volume) returns (names: seq<seq<byte>>)
    requires vol.Valid() && ListingFits(RootRecords(vol.dev.disk, vol.G()), NAME_BUFFER)
    modifies vol.dev
    ensures vol.Valid() && IsListing(RootRecords(vol.dev.disk, vol.G()), names)
  {
    hide Format, RootRecord, Sound;
    ghost var g := vol.G();
    var filename := new byte[NAME_BUFFER](_ => 0);
    names := [];
    var index := 0;
    var r, name;
    r, index, name := LsInRoot(vol, index);
    while r == 1
      invariant vol.Valid() && vol.G() == g && 0 <= r <= 1
      invariant r == 1 ==> index == |names| + 1 && |names| < g.rootEntries
                           && name == RootRecord(vol.dev.disk, g, |names|).name
      invariant r == 1 ==> !Terminator(RootRecord(vol.dev.disk, g, |names|))
      invariant r == 0 ==> EndsAt(RootRecords(vol.dev.disk, g), |names|)
      invariant |names| <= g.rootEntries
      invariant forall i :: 0 <= i < |names| ==> names[i] == Format(RootRecord(vol.dev.disk, g, i).name)
      invariant forall i :: 0 <= i < |names| ==> !Terminator(RootRecord(vol.dev.disk, g, i))
      decreases g.rootEntries - |names|, r
    {
      NextFits(RootRecords(vol.dev.disk, g), |names|, NAME_BUFFER);
      FormatName(name, filename);
      names := names + [filename[..|Format(name)|]];
      assert filename[..|Format(name)|] == (filename[..|Format(name)| + 1])[..|Format(name)|];
      r, index, name := LsInRoot(vol, index);
    }
  }

  lemma NextFits(es: seq<DirEntry>, i: nat, n: nat)
    requires Entries(es) && ListingFits(es, n) && i < |es| && forall t :: 0 <= t <= i ==> !Terminator(es[t])
    ensures |Format(es[i].name)| + 1 <= n
  {
  }
}
