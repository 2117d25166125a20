/** Directories: scanning records, finding names and opening what they stand for, in the root directory
    and in subdirectories. */
module FatDirs {
  import opened Arith
  import opened Bytes
  import opened MemOps
  import opened FatDisk
  import opened FatVolume
  import opened FatStream
  import opened FatHandle
  import opened FatReader
  import opened FatRecords

  /** A directory in the data region: a chain that ends. */
  ghost predicate IsDir(disk: Disk, g: Geometry, chain: seq<nat>) {
    |chain| > 0 && FollowsFat(disk, g, chain[0], chain) && InData(g, chain) && Ends(disk, g, chain)
  }

  /** The handle is about to read record `i`, in (or at the end of) cluster `k` of the chain. */
  ghost predicate DirAt(g: Geometry, chain: seq<nat>, cluster: nat, offset: nat, k: nat, i: nat) {
    && k < |chain| && cluster == chain[k]
    && offset <= g.clusterBytes && offset % RECORD == 0
    && RECORD * i == Times(k, g.clusterBytes) + offset
  }

  /** Where record `i` of the directory lies on the device. */
  function SubRecordPos(g: Geometry, chain: seq<nat>, i: nat): nat
    requires Sound(g) && InData(g, chain) && i < RecordCount(g, chain)
  {
    RecordCluster(g, chain, i);
    DataPos(g, chain[Quot(RECORD * i, g.clusterBytes)]) + Rem(RECORD * i, g.clusterBytes)
  }

  /** A record `off` bytes into cluster `k` of a directory. */
  lemma RecordPosition(g: Geometry, chain: seq<nat>, i: nat, k: nat, off: nat)
    requires Sound(g) && InData(g, chain) && k < |chain| && off + 32 <= g.clusterBytes
    requires 32 * i == Times(k, g.clusterBytes) + off
    ensures i < RecordCount(g, chain) && 2 <= chain[k]
    ensures SubRecordPos(g, chain, i) == g.offset + g.data + Times(chain[k] - 2, g.clusterBytes) + off
  {
    hide Times, Quot, Rem;
    TimesWithin(k, |chain|, g.clusterBytes);
    DividedAs(32 * i, g.clusterBytes, k, off);
    assert DataCluster(g, chain[k]);
  }

  lemma RecordCluster(g: Geometry, chain: seq<nat>, i: nat)
    requires Sound(g) && i < RecordCount(g, chain)
    ensures Quot(RECORD * i, g.clusterBytes) < |chain|
  {
    hide Times, Quot, Rem;
    Divided(RECORD * i, g.clusterBytes);
    if Quot(RECORD * i, g.clusterBytes) >= |chain| {
      TimesMono(|chain|, Quot(RECORD * i, g.clusterBytes), g.clusterBytes);
    }
  }

  method ReadRecord(vol: Volume) returns (e: DirEntry)
    requires vol.Valid()
    modifies vol.dev
    ensures vol.Valid() && e == Parse(DeviceBytes(vol.dev.disk, old(vol.dev.pointer), RECORD))
    ensures vol.dev.pointer == U32(old(vol.dev.pointer) + RECORD)
  {
    var b := new byte[RECORD](_ => 0);
    vol.dev.Read(b, 0, RECORD);
    assert b[..] == DeviceBytes(vol.dev.disk, old(vol.dev.pointer), RECORD);
    e := Parse(b[..]);
  }

  // ----- subdirectories -----

  /** `read_entry_from_subdir`: the next record, or -1 at the end of the chain. */
  method ReadEntryFromSubdir(vol: Volume, handle: EntryHandle, ghost chain: seq<nat>, ghost k: nat, ghost i: nat)
    returns (r: int, e: DirEntry, ghost k': nat)
    requires vol.Valid() && IsDir(vol.dev.disk, vol.G(), chain)
    requires DirAt(vol.G(), chain, handle.cluster, handle.offset, k, i)
    modifies vol.dev, handle`cluster, handle`offset
    ensures vol.Valid() && (r == -1 || r == 0)
    ensures r == -1 ==> i == RecordCount(vol.G(), chain)
    ensures r == 0 ==>
              && i < RecordCount(vol.G(), chain) && e == SubRecord(vol.dev.disk, vol.G(), chain, i)
              && handle.offset > 0 && DirAt(vol.G(), chain, handle.cluster, handle.offset, k', i + 1)
  {
    hide Times, IsDir, SubRecord, RecordCount, InData;
    e, k' := DirEntry([], 0, 0, 0), k;
    if handle.offset == vol.bpb.sectorsPerCluster * vol.bpb.bytesPerSector {
      r := NextDirCluster(vol, handle, chain, k, i);
      if r < 0 {
        return;
      }
      k' := k + 1;
    }
    InDir(vol.dev.disk, vol.G(), chain, k');
    e := ReadHere(vol, handle, chain, k', i);
    r := 0;
  }

  /** The record at the handle, within cluster `k`. */
  method ReadHere(vol: Volume, handle: EntryHandle, ghost chain: seq<nat>, ghost k: nat, ghost i: nat)
    returns (e: DirEntry)
    requires vol.Valid() && InData(vol.G(), chain)
    requires DirAt(vol.G(), chain, handle.cluster, handle.offset, k, i) && handle.offset < vol.G().clusterBytes
    modifies vol.dev, handle`offset
    ensures vol.Valid()
    ensures i < RecordCount(vol.G(), chain) && e == SubRecord(vol.dev.disk, vol.G(), chain, i)
    ensures handle.offset > 0 && DirAt(vol.G(), chain, handle.cluster, handle.offset, k, i + 1)
  {
    hide Times, DiskBytes, ChainBytes, SubRecord, Parse, RecordCount, U16, U32, DataPos, InData;
    InChain(vol.G(), chain, k);
    SubRecordAt(vol.dev.disk, vol.G(), chain, k, handle.offset, i);
    ghost var pos := vol.MoveToDataRegion(handle.cluster, handle.offset);
    e := ReadRecord(vol);
    NextRecord(vol.G(), chain, handle.cluster, handle.offset, k, i);
    hide DirAt, Sound;
    handle.offset := U16(handle.offset + RECORD);
  }

  lemma NextRecord(g: Geometry, chain: seq<nat>, cluster: nat, offset: nat, k: nat, i: nat)
    requires Sound(g) && DirAt(g, chain, cluster, offset, k, i) && offset < g.clusterBytes
    ensures DirAt(g, chain, cluster, offset + RECORD, k, i + 1) && offset + RECORD < 0x1_0000
  {
    hide Times;
  }

  /** The step from the end of one cluster to the start of the next. */
  method NextDirCluster(vol: Volume, handle: EntryHandle, ghost chain: seq<nat>, ghost k: nat, ghost i: nat)
    returns (r: int)
    requires vol.Valid() && IsDir(vol.dev.disk, vol.G(), chain)
    requires DirAt(vol.G(), chain, handle.cluster, handle.offset, k, i) && handle.offset == vol.G().clusterBytes
    modifies vol.dev, handle`cluster, handle`offset
    ensures vol.Valid() && (r == -1 || r == 0)
    ensures r == -1 ==> i == RecordCount(vol.G(), chain)
    ensures r == 0 ==> handle.offset == 0 && DirAt(vol.G(), chain, handle.cluster, 0, k + 1, i)
  {
    hide Times, RecordCount;
    ghost var g := vol.G();
    TimesNext(k, g.clusterBytes);
    var next := vol.GetNextCluster(handle.cluster);
    DirLink(vol.dev.disk, g, chain, k, i);
    if next >= 0xFFF8 {
      return -1;
    }
    ghost var pos := vol.MoveToDataRegion(next, 0);
    handle.cluster := next;
    handle.offset := 0;
    r := 0;
  }

  lemma InChain(g: Geometry, chain: seq<nat>, k: nat)
    requires InData(g, chain) && k < |chain|
    ensures DataCluster(g, chain[k])
  {
  }

  lemma InDir(disk: Disk, g: Geometry, chain: seq<nat>, k: nat)
    requires IsDir(disk, g, chain) && k < |chain|
    ensures DataCluster(g, chain[k]) && InData(g, chain)
  {
  }

  /** The FAT says whether cluster `k` is the last one; its end is the end of the records. */
  lemma DirLink(disk: Disk, g: Geometry, chain: seq<nat>, k: nat, i: nat)
    requires IsDir(disk, g, chain) && k < |chain|
    requires RECORD * i == Times(k, g.clusterBytes) + g.clusterBytes
    ensures Next(disk, g, chain[k]) >= END_OF_CHAIN ==> i == RecordCount(g, chain)
    ensures Next(disk, g, chain[k]) < END_OF_CHAIN ==>
              k + 1 < |chain| && chain[k + 1] == Next(disk, g, chain[k]) && DataCluster(g, chain[k + 1])
  {
    ChainStep(disk, g, chain[0], chain, k);
    TimesNext(k, g.clusterBytes);
  }

  /** `find_entry_in_subdir`, from the start of the directory: the entry a search finds and its position
      on the device; the handle is back at the start afterwards. */
  method FindEntryInSubdir(vol: Volume, handle: EntryHandle, name: seq<byte>, ghost chain: seq<nat>)
    returns (r: int, e: DirEntry, pos: nat, ghost idx: int)
    requires vol.Valid() && IsDir(vol.dev.disk, vol.G(), chain) && |name| == NAME
    requires handle.cluster == chain[0] && handle.offset == 0
    modifies vol.dev, handle`cluster, handle`offset
    ensures vol.Valid() && handle.cluster == chain[0] && handle.offset == 0
    ensures -1 <= idx < RecordCount(vol.G(), chain)
    ensures Found(SubRecords(vol.dev.disk, vol.G(), chain), name, idx)
    ensures r == (if idx >= 0 then 0 else -1)
    ensures idx >= 0 ==> e == SubRecord(vol.dev.disk, vol.G(), chain, idx) && pos == SubRecordPos(vol.G(), chain, idx)
  {
    hide Times, SubRecord, RecordCount, InData, Sound, Searching, Found, SubRecordPos, FollowsFat, Ends, Parse;
    ghost var g, disk := vol.G(), vol.dev.disk;
    ghost var es := SubRecords(disk, g, chain);
    var start := handle.cluster;
    r, idx, pos := -1, -1, 0;
    ghost var k, i := 0, 0;
    StartSearch(g, chain, es, name);
    while true
      invariant vol.Valid() && vol.G() == g && r == -1 && idx == -1
      invariant i <= |es| && DirAt(g, chain, handle.cluster, handle.offset, k, i) && Searching(es, name, i)
      decreases |es| - i
    {
      SearchEnds(es, name, i);
      var got;
      got, e, k := ReadEntryFromSubdir(vol, handle, chain, k, i);
      if got != 0 {
        break;
      }
      assert e == es[i];
      if e.name[0] == 0 {
        break;
      }
      if e.name[0] != AVAILABLE && !e.IsVfat() {
        var same := SameName(name, e.name);
        if same {
          r, idx := 0, i;
          break;
        }
      }
      SearchOn(es, name, i);
      i := i + 1;
    }
    if r == 0 {
      RecordBehind(g, chain, handle.cluster, handle.offset, k, i);
      pos := vol.MoveToDataRegion(handle.cluster, handle.offset);
      pos := U32(pos - RECORD);
    }
    handle.cluster := start;
    handle.offset := 0;
  }

  method SameName(a: seq<byte>, b: seq<byte>) returns (same: bool)
    requires |a| == NAME && |b| == NAME
    ensures same == (a == b)
  {
    var c := Memcmp(a, b, NAME);
    assert a[..NAME] == a && b[..NAME] == b;
    same := c == 0;
  }

  /** Seen from behind it, record `i` starts 32 bytes earlier. */
  lemma RecordBehind(g: Geometry, chain: seq<nat>, cluster: nat, offset: nat, k: nat, i: nat)
    requires Sound(g) && InData(g, chain) && i < RecordCount(g, chain)
    requires DirAt(g, chain, cluster, offset, k, i + 1) && offset > 0
    ensures DataCluster(g, cluster) && offset <= g.clusterBytes
    ensures SubRecordPos(g, chain, i) == DataPos(g, cluster) + offset - RECORD
  {
    hide Times, Quot, Rem;
    DividedAs(RECORD * i, g.clusterBytes, k, offset - RECORD);
  }

  lemma StartSearch(g: Geometry, chain: seq<nat>, es: seq<DirEntry>, name: seq<byte>)
    requires |chain| > 0 && Entries(es)
    ensures DirAt(g, chain, chain[0], 0, 0, 0) && Searching(es, name, 0)
  {
    TimesNext(0, g.clusterBytes);
  }

  // ----- the root directory -----

  /** `find_root_directory_entry`: the root records are read one after the other. */
  method FindRootDirectoryEntry(vol: Volume, name: seq<byte>) returns (r: int, index: nat, ghost idx: int)
    requires vol.Valid() && |name| == NAME
    modifies vol.dev
    ensures vol.Valid() && -1 <= idx < vol.G().rootEntries
    ensures Found(RootRecords(vol.dev.disk, vol.G()), name, idx)
    ensures r == (if idx >= 0 then 0 else -1) && (idx >= 0 ==> index == idx)
  {
    hide Found, Searching, Parse, DiskBytes, U32;
    ghost var g, disk := vol.G(), vol.dev.disk;
    ghost var es := RootRecords(disk, g);
    ghost var pos := vol.MoveToRootDirectoryRegion(0);
    StartSearchAnywhere(es, name);
    index := 0;
    while index < vol.bpb.rootEntries
      invariant vol.Valid() && vol.G() == g
      invariant index <= |es| && Searching(es, name, index) && vol.dev.pointer == RootPos(g, index)
    {
      SearchEnds(es, name, index);
      var e := ReadRecord(vol);
      assert e == es[index];
      if e.name[0] != AVAILABLE {
        if e.name[0] == 0 {
          return -1, index, -1;
        }
        if !e.IsVfat() {
          var same := SameName(name, e.name);
          if same {
            return 0, index, index;
          }
        }
      }
      SearchOn(es, name, index);
      index := index + 1;
    }
    SearchEnds(es, name, index);
    r, idx := -1, -1;
  }

  lemma StartSearchAnywhere(es: seq<DirEntry>, name: seq<byte>)
    requires Entries(es)
    ensures Searching(es, name, 0)
  {
  }

  // ----- opening -----

  /** What may be opened: no volume label, no directory as a file, nothing read-only for writing. */
  predicate Admits(e: DirEntry, mode: char, isFile: bool) {
    !e.IsVolume() && !(isFile && e.IsSubdir()) && !(e.IsReadOnly() && mode != 'r')
  }

  /** The test in the bits of the attribute. */
  lemma AdmitsMeans(e: DirEntry, mode: char, isFile: bool)
    ensures Admits(e, mode, isFile) <==>
            && e.attribute / 8 % 2 == 0 && (isFile ==> e.attribute / 16 % 2 == 0)
            && (mode != 'r' ==> e.attribute % 2 == 0)
  {
  }

  /** Opening a record as a directory asks only that it is no volume label: a plain file will do. */
  lemma DirectoryUnchecked(e: DirEntry)
    ensures Admits(e, 'r', false) <==> !e.IsVolume()
    ensures var archived := e.(attribute := 0x20); !archived.IsSubdir() && Admits(archived, 'r', false)
  {
  }

  /** Cluster and offset that appending to a file of `size` bytes in `file` starts from: 32-bit subtraction
      of a cluster per link, cut to 16 bits at the end. */
  function AppendOffset(C: nat, size: nat, file: seq<nat>): nat
    requires |file| > 0
  {
    U16(U32(size - Times(|file| - 1, C)))
  }

  /** The offset is the one meant exactly when the file reaches into the last cluster of its chain and not
      more than 64 KiB beyond its start. */
  lemma AppendOffsetExact(C: nat, size: nat, file: seq<nat>)
    requires |file| > 0 && size < WORD && Times(|file| - 1, C) < WORD
    ensures AppendOffset(C, size, file) == size - Times(|file| - 1, C) <==>
            Times(|file| - 1, C) <= size < Times(|file| - 1, C) + 0x1_0000
  {
    hide Times;
  }

  /** For a file whose size matches its chain the append position is the end of the file, within the last
      cluster. */
  lemma AppendAtEnd(C: nat, size: nat, file: seq<nat>)
    requires |file| > 0 && 0 < C <= 32768 && size < WORD
    requires Times(|file| - 1, C) < size <= Times(|file|, C)
    ensures 0 < AppendOffset(C, size, file) <= C
    ensures Times(|file| - 1, C) + AppendOffset(C, size, file) == size
  {
    hide Times;
    TimesNext(|file| - 1, C);
  }

  /** The handle is open on an entry at position `pos`, for a file with clusters `file` if appending. */
  ghost predicate OpenOn(handle: EntryHandle, e: DirEntry, pos: nat, mode: char, C: nat, file: seq<nat>)
    reads handle
  {
    && handle.mode == mode && handle.posEntry == pos
    && (if mode == 'a' then
          |file| > 0 && handle.cluster == file[|file| - 1] && handle.offset == AppendOffset(C, e.size, file)
        else
          handle.cluster == e.startingCluster && handle.offset == 0)
    && handle.remaining == if mode == 'r' then e.size else 0
  }

  /** What an open leaves in the handle: for reading the first byte of the file and all of it to come, for
      writing the first byte, for appending its end in the last cluster, and nothing to come. */
  lemma OpenedFields(handle: EntryHandle, e: DirEntry, pos: nat, mode: char, C: nat, file: seq<nat>)
    requires OpenOn(handle, e, pos, mode, C, file)
    ensures handle.mode == mode && handle.posEntry == pos
    ensures mode != 'a' ==> handle.cluster == e.startingCluster && handle.offset == 0
    ensures mode == 'a' ==>
              && |file| > 0 && handle.cluster == file[|file| - 1]
              && handle.offset == (e.size - (|file| - 1) * C) % 4294967296 % 65536
    ensures handle.remaining == if mode == 'r' then e.size else 0
  {
  }

  /** The clusters of an entry's file, when they matter. */
  ghost predicate FileChain(disk: Disk, g: Geometry, e: DirEntry, file: seq<nat>) {
    FollowsFat(disk, g, e.startingCluster, file) && Ends(disk, g, file)
  }

  /** The common end of `open_entry_in_root` and `open_entry_in_subdir`. */
  method SetPosition(vol: Volume, handle: EntryHandle, e: DirEntry, mode: char, ghost file: seq<nat>)
    requires vol.Valid() && e.startingCluster < 0x1_0000 && e.size < WORD && handle.mode == mode
    requires mode == 'a' ==> FileChain(vol.dev.disk, vol.G(), e, file)
    modifies vol.dev, handle`cluster, handle`offset, handle`remaining
    ensures vol.Valid() && OpenOn(handle, e, handle.posEntry, mode, vol.G().clusterBytes, file)
  {
    if mode == 'a' {
      SeekEnd(vol, handle, e, file);
    } else {
      handle.cluster := e.startingCluster;
      handle.offset := 0;
    }
    if mode == 'r' {
      handle.remaining := e.size;
    } else {
      handle.remaining := 0;
    }
  }

  /** The walk to the last cluster when appending. */
  method SeekEnd(vol: Volume, handle: EntryHandle, e: DirEntry, ghost file: seq<nat>)
    requires vol.Valid() && e.startingCluster < 0x1_0000 && e.size < WORD
    requires FileChain(vol.dev.disk, vol.G(), e, file)
    modifies vol.dev, handle`cluster, handle`offset
    ensures vol.Valid() && handle.cluster == file[|file| - 1]
    ensures handle.offset == AppendOffset(vol.G().clusterBytes, e.size, file)
  {
    hide Times, U32, U16, Sound;
    ghost var g, k := vol.G(), 0;
    TimesNext(0, g.clusterBytes);
    handle.cluster := e.startingCluster;
    var offset := e.size;
    var next := vol.GetNextCluster(handle.cluster);
    while next < 0xFFF8
      invariant vol.Valid() && vol.G() == g
      invariant k < |file| && handle.cluster == file[k] && next == Next(vol.dev.disk, g, file[k])
      invariant offset == U32(e.size - Times(k, g.clusterBytes))
      decreases |file| - k
    {
      ChainStep(vol.dev.disk, g, e.startingCluster, file, k);
      handle.cluster := next;
      U32Sum(e.size - Times(k, g.clusterBytes), -(g.clusterBytes as int));
      TimesNext(k, g.clusterBytes);
      offset := U32(offset - vol.bpb.sectorsPerCluster * vol.bpb.bytesPerSector);
      next := vol.GetNextCluster(handle.cluster);
      k := k + 1;
    }
    ChainStep(vol.dev.disk, g, e.startingCluster, file, k);
    handle.offset := U16(offset);
  }

  /** `open_entry_in_root`. A refused entry may already have left its position in the handle. */
  method OpenEntryInRoot(vol: Volume, handle: EntryHandle, name: seq<byte>, mode: char, isFile: bool,
                         ghost file: seq<nat>)
    returns (r: int, ghost idx: int)
    requires vol.Valid() && |name| == NAME
    requires mode == 'a' ==>
               forall i :: 0 <= i < vol.G().rootEntries && Found(RootRecords(vol.dev.disk, vol.G()), name, i) ==>
               FileChain(vol.dev.disk, vol.G(), RootRecord(vol.dev.disk, vol.G(), i), file)
    modifies vol.dev, handle
    ensures vol.Valid() && Found(RootRecords(vol.dev.disk, vol.G()), name, idx) && -1 <= idx < vol.G().rootEntries
    ensures r == if idx >= 0 && Admits(RootRecord(vol.dev.disk, vol.G(), idx), mode, isFile) then 0 else -1
    ensures r == 0 ==> OpenOn(handle, RootRecord(vol.dev.disk, vol.G(), idx), RootPos(vol.G(), idx), mode,
                              vol.G().clusterBytes, file)
    ensures r == -1 ==> handle.mode == old(handle.mode)
  {
    hide Found, Parse, DiskBytes, OpenOn;
    var index;
    r, index, idx := FindRootDirectoryEntry(vol, name);
    if r < 0 {
      return;
    }
    r := -1;
    var pos := vol.MoveToRootDirectoryRegion(index);
    handle.posEntry := pos;
    var e := ReadRecord(vol);
    if e.IsVolume() {
      return;
    }
    if isFile && e.IsSubdir() {
      return;
    }
    if e.IsReadOnly() && mode != 'r' {
      return;
    }
    handle.mode := mode;
    SetPosition(vol, handle, e, mode, file);
    r := 0;
  }

  /** `open_entry_in_subdir`, on a handle at the start of the directory; refused, it stays there. */
  method OpenEntryInSubdir(vol: Volume, handle: EntryHandle, name: seq<byte>, mode: char, isFile: bool,
                           ghost chain: seq<nat>, ghost file: seq<nat>)
    returns (r: int, ghost idx: int)
    requires vol.Valid() && |name| == NAME && IsDir(vol.dev.disk, vol.G(), chain)
    requires handle.cluster == chain[0] && handle.offset == 0
    requires mode == 'a' ==>
               forall i :: 0 <= i < RecordCount(vol.G(), chain)
                           && Found(SubRecords(vol.dev.disk, vol.G(), chain), name, i) ==>
                 FileChain(vol.dev.disk, vol.G(), SubRecord(vol.dev.disk, vol.G(), chain, i), file)
    modifies vol.dev, handle
    ensures vol.Valid() && Found(SubRecords(vol.dev.disk, vol.G(), chain), name, idx)
            && -1 <= idx < RecordCount(vol.G(), chain)
    ensures r == if idx >= 0 && Admits(SubRecord(vol.dev.disk, vol.G(), chain, idx), mode, isFile) then 0 else -1
    ensures r == 0 ==> OpenOn(handle, SubRecord(vol.dev.disk, vol.G(), chain, idx),
                              SubRecordPos(vol.G(), chain, idx), mode,
                              vol.G().clusterBytes, file)
    ensures r == -1 ==>
              && handle.mode == old(handle.mode) && handle.posEntry == old(handle.posEntry)
              && handle.remaining == old(handle.remaining) && handle.cluster == chain[0] && handle.offset == 0
  {
    hide Found, SubRecord, SubRecordPos, RecordCount, FollowsFat, Ends, InData, OpenOn, Sound;
    var e, pos;
    r, e, pos, idx := FindEntryInSubdir(vol, handle, name, chain);
    if r < 0 {
      return;
    }
    r := -1;
    if e.IsVolume() {
      return;
    }
    if isFile && e.IsSubdir() {
      return;
    }
    if e.IsReadOnly() && mode != 'r' {
      return;
    }
    handle.mode := mode;
    handle.posEntry := pos;
    SetPosition(vol, handle, e, mode, file);
    r := 0;
  }

  /** `root_directory_entry_size`: -1 as a 32-bit number when there is no such entry. */
  method RootDirectoryEntrySize(vol: Volume, name: seq<byte>) returns (size: nat, ghost idx: int)
    requires vol.Valid() && |name| == NAME
    modifies vol.dev
    ensures vol.Valid() && Found(RootRecords(vol.dev.disk, vol.G()), name, idx) && -1 <= idx < vol.G().rootEntries
    ensures size == if idx >= 0 then RootRecord(vol.dev.disk, vol.G(), idx).size else WORD - 1
  {
    hide Found, Parse, DiskBytes;
    var r, index;
    r, index, idx := FindRootDirectoryEntry(vol, name);
    if r < 0 {
      return WORD - 1, idx;
    }
    ghost var pos := vol.MoveToRootDirectoryRegion(index);
    var e := ReadRecord(vol);
    size := e.size;
  }

  /** `subdir_entry_size`: 0 when there is no such entry. */
  method SubdirEntrySize(vol: Volume, handle: EntryHandle, name: seq<byte>, ghost chain: seq<nat>)
    returns (size: nat, ghost idx: int)
    requires vol.Valid() && |name| == NAME && IsDir(vol.dev.disk, vol.G(), chain)
    requires handle.cluster == chain[0] && handle.offset == 0
    modifies vol.dev, handle`cluster, handle`offset
    ensures vol.Valid() && Found(SubRecords(vol.dev.disk, vol.G(), chain), name, idx)
            && -1 <= idx < RecordCount(vol.G(), chain)
    ensures size == if idx >= 0 then SubRecord(vol.dev.disk, vol.G(), chain, idx).size else 0
  {
    hide Found, SubRecord, SubRecordPos, RecordCount, FollowsFat, Ends, InData, Sound;
    var r, e, pos;
    r, e, pos, idx := FindEntryInSubdir(vol, handle, name, chain);
    size := if r < 0 then 0 else e.size;
  }
}
