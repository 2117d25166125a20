/** The FAT16 driver's interface: opening, reading, sizing and closing files by path. */
module Fat16 {
  import opened Arith
  import opened Bytes
  import opened FatDisk
  import opened FatVolume
  import opened FatStream
  import opened FatHandle
  import opened FatReader
  import opened FatRecords
  import opened FatDirs
  import opened FatPath
  import opened FatTable

  const INVALID_HANDLE: nat := 255

  // ----- paths of two components -----

  /** The first component of `/DIR/FILE`, as a short name. */
  function DirName(path: seq<byte>): (n: Option<seq<byte>>)
    ensures n.Some? ==> |n.value| == 11
  {
    if HasNext(path, 0) then ShortName(path[..NextSlash(path, 1)]) else None
  }

  /** Where the name starts that the lookup ends with: behind the last of at most three components. */
  function NameStart(path: seq<byte>): (i: nat)
    requires HasNext(path, 0)
    ensures i <= |path|
  {
    var i := NextSlash(path, 1);
    if HasNext(path, i) then NextSlash(path, i + 1) else i
  }

  function FileName(path: seq<byte>): (n: Option<seq<byte>>)
    requires HasNext(path, 0)
    ensures n.Some? ==> |n.value| == 11
  {
    ShortName(path[NameStart(path)..])
  }

  ghost predicate PathOk(path: seq<byte>) {
    && 0 !in path && |path| < 0x1_0000
    && forall i: nat :: i <= |path| && HasNext(path, i) ==> NextSlash(path, i + 1) - i <= 12
  }

  predicate TwoComponents(path: seq<byte>) {
    HasNext(path, 0) && !HasNext(path, NextSlash(path, 1))
  }

  /** A path of two components names a directory and a file in it. */
  lemma PathMeans(a: seq<byte>, b: seq<byte>)
    requires 0x2F !in a && 0x2F !in b
    ensures var path := [0x2F] + a + [0x2F] + b;
            && HasNext(path, 0) && TwoComponents(path)
            && DirName(path) == ShortName([0x2F] + a) && FileName(path) == ShortName([0x2F] + b)
  {
    hide ShortName;
    var path := [0x2F] + a + [0x2F] + b;
    var i := NextSlash(path, 1);
    assert forall j :: 1 <= j < 1 + |a| ==> path[j] == a[j - 1];
    assert forall j :: 2 + |a| <= j < |path| ==> path[j] == b[j - 2 - |a|];
    assert path[1 + |a|] == SLASH;
    assert i == 1 + |a| && NextSlash(path, i + 1) == |path|;
    assert path[..i] == [0x2F] + a && path[i..] == [0x2F] + b;
  }

  /** Of three components the first is the directory and the third the name. */
  lemma LongPathMeans(a: seq<byte>, b: seq<byte>, c: seq<byte>)
    requires 0x2F !in a && 0x2F !in b && 0x2F !in c
    ensures var path := [0x2F] + a + [0x2F] + b + [0x2F] + c;
            && HasNext(path, 0) && !TwoComponents(path)
            && DirName(path) == ShortName([0x2F] + a) && FileName(path) == ShortName([0x2F] + c)
  {
    hide ShortName;
    var path := [0x2F] + a + [0x2F] + b + [0x2F] + c;
    var i := NextSlash(path, 1);
    var n := 2 + |a| + |b|;
    assert forall j :: 1 <= j < 1 + |a| ==> path[j] == a[j - 1];
    assert forall j :: 2 + |a| <= j < n ==> path[j] == b[j - 2 - |a|];
    assert path[1 + |a|] == SLASH && path[n] == SLASH;
    assert i == 1 + |a| && NextSlash(path, i + 1) == n;
    assert path[..i] == [0x2F] + a && path[n..] == [0x2F] + c;
  }

  /** A path without a further slash lies in the root directory. */
  lemma PathInRoot(a: seq<byte>)
    requires 0x2F !in a
    ensures !HasNext([0x2F] + a, 0) && (a != [] ==> !HasNext(a, 0))
  {
    var path := [0x2F] + a;
    assert forall j :: 1 <= j < |path| ==> path[j] == a[j - 1] != 0x2F;
  }

  lemma ComponentFits(path: seq<byte>, i: nat)
    requires PathOk(path) && i <= |path|
    ensures HasNext(path, i) ==> NextSlash(path, i + 1) - i <= 12
  {
  }

  lemma NoSlash(b: seq<byte>)
    requires IsShort(b)
    ensures SLASH !in b
  {
    hide IndexOf;
    var d := IndexOf(b, DOT);
    assert SLASH !in b[..d];
    if d < |b| {
      assert SLASH !in b[d + 1..];
      assert b == b[..d] + [DOT] + b[d + 1..];
    } else {
      assert b == b[..d];
    }
  }

  /** A valid short name contains no slash behind its first character. */
  lemma ShortNameIsLast(path: seq<byte>, i: nat)
    requires i < |path| && path[i] == SLASH && ShortName(path[i..]).Some?
    ensures !HasNext(path, i)
  {
    hide IsShort;
    var b := path[i + 1..];
    assert Body(path[i..]) == b;
    NoSlash(b);
    assert forall j :: i + 1 <= j < |path| ==> path[j] == b[j - i - 1] != SLASH;
  }

  // ----- where a path leads -----

  /** `dir` is the chain of the root entry called `name`, if that can be opened as a directory. */
  ghost predicate DirChain(disk: Disk, g: Geometry, name: seq<byte>, dir: seq<nat>) {
    forall i ::
      && 0 <= i < g.rootEntries && Found(RootRecords(disk, g), name, i)
      && Admits(RootRecord(disk, g, i), 'r', false)
      ==> IsDir(disk, g, dir) && dir[0] == RootRecord(disk, g, i).startingCluster
  }

  /** `navigate_to_subdir`: the handle on the directory and the short name to look for in it. With three
      components the name is the third one, and the second is never looked up: the third is opened as a
      directory inside the first, as record `k`, if it can be, and looked up there. */
  method NavigateToSubdir(vol: Volume, handle: EntryHandle, path: seq<byte>, ghost dir: seq<nat>)
    returns (r: int, name: seq<byte>, ghost idx: int, ghost k: int)
    requires vol.Valid() && PathOk(path)
    requires DirName(path).Some? ==> DirChain(vol.dev.disk, vol.G(), DirName(path).value, dir)
    modifies vol.dev, handle
    ensures vol.Valid() && -1 <= r <= 0 && -1 <= idx < vol.G().rootEntries
    ensures DirName(path).Some? ==> Found(RootRecords(vol.dev.disk, vol.G()), DirName(path).value, idx)
    ensures r == 0 <==>
            && DirName(path).Some? && idx >= 0 && Admits(RootRecord(vol.dev.disk, vol.G(), idx), 'r', false)
            && FileName(path).Some?
    ensures r == 0 ==> name == FileName(path).value && IsDir(vol.dev.disk, vol.G(), dir)
    ensures r == 0 ==> handle.mode == 'r' && handle.offset == 0
    ensures r == 0 && TwoComponents(path) ==> handle.cluster == dir[0]
    ensures r == 0 && !TwoComponents(path) ==>
              && -1 <= k < RecordCount(vol.G(), dir) && Found(SubRecords(vol.dev.disk, vol.G(), dir), name, k)
              && handle.cluster == if k >= 0 && Admits(SubRecord(vol.dev.disk, vol.G(), dir, k), 'r', false)
                                   then SubRecord(vol.dev.disk, vol.G(), dir, k).startingCluster else dir[0]
  {
    hide Found, ShortName, Sound, Admits, SubRecord, RecordCount, FollowsFat, Ends, RootRecord;
    name, idx, k := [], -1, -1;
    ComponentFits(path, 0);
    var subdir, index;
    r, subdir, index := GetSubdir(path, 0);
    if r < 0 {
      return -1, name, idx, k;
    }
    assert subdir == path[..NextSlash(path, 1)];
    var short := new byte[11](_ => 0);
    r := ToShortFilename(short, subdir);
    if r < 0 {
      return;
    }
    r, idx := OpenEntryInRoot(vol, handle, short[..], 'r', false, []);
    if r < 0 {
      return;
    }
    r, name, k := Descend(vol, handle, path, index, dir);
  }

  /** The loop of `navigate_to_subdir`. */
  method Descend(vol: Volume, handle: EntryHandle, path: seq<byte>, first: nat, ghost dir: seq<nat>)
    returns (r: int, name: seq<byte>, ghost k: int)
    requires vol.Valid() && PathOk(path) && HasNext(path, 0) && first == NextSlash(path, 1)
    requires IsDir(vol.dev.disk, vol.G(), dir) && handle.cluster == dir[0] && handle.offset == 0 && handle.mode == 'r'
    modifies vol.dev, handle
    ensures vol.Valid() && r == if FileName(path).Some? then 0 else -1
    ensures r == 0 ==> name == FileName(path).value
    ensures r == 0 ==> handle.mode == 'r' && handle.offset == 0
    ensures r == 0 && TwoComponents(path) ==> handle.cluster == dir[0]
    ensures r == 0 && !TwoComponents(path) ==>
              && -1 <= k < RecordCount(vol.G(), dir) && Found(SubRecords(vol.dev.disk, vol.G(), dir), name, k)
              && handle.cluster == if k >= 0 && Admits(SubRecord(vol.dev.disk, vol.G(), dir, k), 'r', false)
                                   then SubRecord(vol.dev.disk, vol.G(), dir, k).startingCluster else dir[0]
  {
    hide ShortName, FollowsFat, Ends, Sound, Admits, Found, SubRecord, RecordCount;
    name, k := [], -1;
    var short := new byte[11](_ => 0);
    var index := first;
    while true
      invariant vol.Valid() && index < |path| && path[index] == SLASH
      invariant index == first || (index == NameStart(path) && HasNext(path, first) && FileName(path).Some?)
      invariant handle.offset == 0 && handle.mode == 'r'
      invariant index == first ==> handle.cluster == dir[0]
      invariant index != first ==>
                  && -1 <= k < RecordCount(vol.G(), dir)
                  && Found(SubRecords(vol.dev.disk, vol.G(), dir), FileName(path).value, k)
                  && handle.cluster == if k >= 0 && Admits(SubRecord(vol.dev.disk, vol.G(), dir, k), 'r', false)
                                       then SubRecord(vol.dev.disk, vol.G(), dir, k).startingCluster else dir[0]
      decreases |path| - index
    {
      ComponentFits(path, index);
      if index != first {
        ShortNameIsLast(path, index);
      }
      var got, subdir;
      got, subdir, index := GetSubdir(path, index);
      r := ToShortFilename(short, path[index..]);
      if r < 0 {
        return;
      }
      name := short[..];
      if got < 0 {
        break;
      }
      var ignored;
      ignored, k := OpenEntryInSubdir(vol, handle, name, 'r', false, dir, []);
    }
  }

  /** A path below the root leads to record `k` of the directory in `dir`, which is root record `i`. */
  ghost predicate LeadsTo(disk: Disk, g: Geometry, path: seq<byte>, dir: seq<nat>, mode: char, i: int, k: int) {
    && HasNext(path, 0) && DirName(path).Some? && FileName(path).Some?
    && 0 <= i < g.rootEntries && Found(RootRecords(disk, g), DirName(path).value, i)
    && Admits(RootRecord(disk, g, i), 'r', false)
    && IsDir(disk, g, dir) && dir[0] == RootRecord(disk, g, i).startingCluster
    && 0 <= k < RecordCount(g, dir) && Found(SubRecords(disk, g, dir), FileName(path).value, k)
    && Admits(SubRecord(disk, g, dir, k), mode, true)
  }

  /** The clusters of the file that a path below the root leads to, when they matter. */
  ghost predicate AppendChain(disk: Disk, g: Geometry, path: seq<byte>, dir: seq<nat>, file: seq<nat>) {
    HasNext(path, 0) && FileName(path).Some? && IsDir(disk, g, dir) ==>
      forall k :: 0 <= k < RecordCount(g, dir) && Found(SubRecords(disk, g, dir), FileName(path).value, k) ==>
        FileChain(disk, g, SubRecord(disk, g, dir, k), file)
  }

  /** The searches have one outcome each, so a failure of either excludes every target. */
  lemma NoTarget(disk: Disk, g: Geometry, path: seq<byte>, dir: seq<nat>, mode: char, i: int, k: int)
    requires HasNext(path, 0)
    requires
      || DirName(path).None? || FileName(path).None?
      || (i < g.rootEntries && Found(RootRecords(disk, g), DirName(path).value, i)
          && (i < 0 || !Admits(RootRecord(disk, g, i), 'r', false)))
      || (IsDir(disk, g, dir) && k < RecordCount(g, dir) && Found(SubRecords(disk, g, dir), FileName(path).value, k)
          && (k < 0 || !Admits(SubRecord(disk, g, dir, k), mode, true)))
    ensures forall i', k' :: !LeadsTo(disk, g, path, dir, mode, i', k')
  {
    hide Found, Admits, FollowsFat, Ends, InData, SubRecord, RootRecord, RecordCount;
    forall i', k' ensures !LeadsTo(disk, g, path, dir, mode, i', k') {
      if LeadsTo(disk, g, path, dir, mode, i', k') {
        if i < g.rootEntries && Found(RootRecords(disk, g), DirName(path).value, i) {
          FoundUnique(RootRecords(disk, g), DirName(path).value, i, i');
        }
        if k < RecordCount(g, dir) && Found(SubRecords(disk, g, dir), FileName(path).value, k) {
          FoundUnique(SubRecords(disk, g, dir), FileName(path).value, k, k');
        }
      }
    }
  }

  // ----- files -----

  /** `chain` holds the file of record `e`; an empty file needs no cluster. */
  ghost predicate Backed(disk: Disk, g: Geometry, e: DirEntry, chain: seq<nat>) {
    e.size == 0 || (IsFile(disk, g, chain, e.size) && chain[0] == e.startingCluster)
  }

  ghost function FileBytes(disk: Disk, g: Geometry, e: DirEntry, chain: seq<nat>): (s: seq<byte>)
    requires Backed(disk, g, e, chain)
    ensures |s| == e.size
  {
    if e.size == 0 then [] else Content(disk, g, chain, e.size)
  }

  /** Where each byte of a file lies on the disk. */
  lemma FileByteAt(disk: Disk, g: Geometry, e: DirEntry, chain: seq<nat>, i: nat, off: nat)
    requires g.clusterBytes > 0 && i < |chain| && off < g.clusterBytes && Times(i, g.clusterBytes) + off < e.size
    requires FollowsFat(disk, g, e.startingCluster, chain) && InData(g, chain)
    requires e.size <= Times(|chain|, g.clusterBytes)
    ensures Backed(disk, g, e, chain) && 2 <= chain[i]
    ensures FileBytes(disk, g, e, chain)[Times(i, g.clusterBytes) + off] ==
            disk(51200 + g.offset + g.data + Times(chain[i] - 2, g.clusterBytes) + off)
  {
    hide Times, Content;
    ContentByte(disk, g, chain, e.size, i, off);
  }

  class Fat16 {
    const vol: Volume
    const handles: seq<EntryHandle>

    ghost predicate Valid()
      reads this, vol, vol.dev
    {
      && vol.Valid() && |handles| == HANDLE_COUNT
      && forall i, j :: 0 <= i < j < |handles| ==> handles[i] != handles[j]
    }

    /** Mode and entry of every handle. */
    ghost function Slots(): (t: Table)
      reads handles
      ensures |t| == |handles|
    {
      seq(|handles|, i requires 0 <= i < |handles| reads handles => Slot(handles[i].mode, handles[i].posEntry))
    }

    /** A mounted volume, all handles closed. */
    constructor (vol: Volume)
      requires vol.Valid()
      ensures Valid() && this.vol == vol && fresh(handles)
      ensures forall i :: 0 <= i < |handles| ==> !Slots()[i].IsOpen()
    {
      var hs: seq<EntryHandle> := [];
      for n := 0 to HANDLE_COUNT
        invariant |hs| == n && fresh(hs)
        invariant forall i :: 0 <= i < n ==> hs[i].mode == '\0'
        invariant forall i, j :: 0 <= i < j < n ==> hs[i] != hs[j]
      {
        var h := new EntryHandle();
        hs := hs + [h];
      }
      this.vol, handles := vol, hs;
    }

    /** `find_available_handle`. */
    method FindAvailableHandle() returns (i: nat)
      requires Valid()
      ensures if i < HANDLE_COUNT then FirstFree(Slots(), i)
              else i == 255 && forall j :: 0 <= j < HANDLE_COUNT ==> Slots()[j].IsOpen()
    {
      i := 0;
      while i < HANDLE_COUNT
        invariant i <= HANDLE_COUNT && forall j :: 0 <= j < i ==> Slots()[j].IsOpen()
      {
        if handles[i].mode == '\0' {
          return;
        }
        i := i + 1;
      }
      i := INVALID_HANDLE;
    }

    method CheckHandle(handle: nat) returns (ok: bool)
      requires Valid()
      ensures ok == (handle < HANDLE_COUNT && Slots()[handle].IsOpen())
    {
      if handle >= HANDLE_COUNT {
        return false;
      }
      if handles[handle].mode == '\0' {
        return false;
      }
      ok := true;
    }

    /** `fat16_close`. */
    method Close(handle: nat) returns (r: int)
      requires Valid()
      modifies handles
      ensures Valid() && Step(old(Slots()), FatTable.Close(handle), Slots())
      ensures r == if handle < HANDLE_COUNT && old(Slots())[handle].IsOpen() then 0 else -1
      ensures forall j :: 0 <= j < HANDLE_COUNT && j != handle ==> unchanged(handles[j])
    {
      var ok := CheckHandle(handle);
      if !ok {
        return -1;
      }
      handles[handle].mode := '\0';
      r := 0;
    }

    /** `fat16_read` to the buffer at `address`; 0 is the null pointer. */
    method Read(handle: nat, buffer: array<byte>, address: nat, count: nat,
                ghost chain: seq<nat>, ghost size: nat, ghost p: nat)
      returns (n: int)
      requires Valid() && (address == 0 || address + count <= buffer.Length) && count < WORD
      requires handle < HANDLE_COUNT && Slots()[handle].IsOpen() ==>
                 var h := handles[handle]; h.remaining == 0 || h.cluster == 0 || vol.Stands(h, chain, size, p)
      modifies vol.dev, handles, buffer
      ensures Valid() && Slots() == old(Slots())
      ensures forall j :: 0 <= j < HANDLE_COUNT && j != handle ==> unchanged(handles[j])
      ensures !(handle < HANDLE_COUNT && old(Slots())[handle].IsOpen()) || address == 0 ==>
                n == -1 && buffer[..] == old(buffer[..])
      ensures handle < HANDLE_COUNT && old(Slots())[handle].IsOpen() && address != 0 ==>
                && (old(handles[handle].remaining == 0 || handles[handle].cluster == 0) ==>
                      && n == 0 && buffer[..] == old(buffer[..])
                      && handles[handle].remaining == old(handles[handle].remaining))
                && (old(handles[handle].cluster != 0 && vol.Stands(handles[handle], chain, size, p)) ==>
                      && n == |ReadAt(Content(vol.dev.disk, vol.G(), chain, size), p, count)|
                      && buffer[..] == Place(old(buffer[..]), address,
                                           ReadAt(Content(vol.dev.disk, vol.G(), chain, size), p, count))
                      && vol.Stands(handles[handle], chain, size, p + n))
    {
      hide Content, At, Place, Sound, IsFile;
      var ok := CheckHandle(handle);
      if !ok {
        return -1;
      }
      if address == 0 {
        return -1;
      }
      n := vol.ReadFromHandle(handles[handle], buffer, address, count, chain, size, p);
    }

    /** What the volume and the path have to satisfy for an open: chains of directory and, for appending,
        of the file. */
    ghost predicate Mounted(path: seq<byte>, mode: char, dir: seq<nat>, file: seq<nat>)
      reads this, vol, vol.dev
    {
      && vol.Valid() && PathOk(path)
      && (DirName(path).Some? ==> DirChain(vol.dev.disk, vol.G(), DirName(path).value, dir))
      && (mode == 'a' ==> AppendChain(vol.dev.disk, vol.G(), path, dir, file))
    }

    /** The first half of `fat16_open` below the root: a handle of its own on the file, if there is one. */
    method Lookup(path: seq<byte>, mode: char, ghost dir: seq<nat>, ghost file: seq<nat>)
      returns (r: int, h: EntryHandle, ghost i: int, ghost k: int)
      requires Valid() && Mounted(path, mode, dir, file) && TwoComponents(path)
      modifies vol.dev
      ensures Valid() && fresh(h) && -1 <= r <= 0
      ensures r == 0 ==>
                && LeadsTo(vol.dev.disk, vol.G(), path, dir, mode, i, k)
                && OpenOn(h, SubRecord(vol.dev.disk, vol.G(), dir, k), SubRecordPos(vol.G(), dir, k), mode,
                          vol.G().clusterBytes, file)
      ensures r == -1 ==> forall i', k' :: !LeadsTo(vol.dev.disk, vol.G(), path, dir, mode, i', k')
    {
      hide Found, FollowsFat, Ends, InData, Sound, ShortName, SubRecord, SubRecordPos, RecordCount, Admits,
        HasNext, OpenOn;
      ghost var disk, g := vol.dev.disk, vol.G();
      var name;
      h := new EntryHandle();
      k := -1;
      ghost var tried;
      r, name, i, tried := NavigateToSubdir(vol, h, path, dir);
      if r < 0 {
        NoTarget(disk, g, path, dir, mode, i, RecordCount(g, dir));
        return;
      }
      r, k := OpenEntryInSubdir(vol, h, name, mode, true, dir, file);
      if r < 0 {
        NoTarget(disk, g, path, dir, mode, g.rootEntries, k);
      }
    }

    /** In the way is an open handle on the same record, unless both are for reading. */
    lemma ConflictFields(handle: nat, mode: char)
      requires Valid() && handle < HANDLE_COUNT
      ensures Conflict(Slots(), handle, mode, handles[handle].posEntry) <==>
              exists j ::
                && 0 <= j < 16 && j != handle && handles[j].mode != '\0'
                && handles[j].posEntry == handles[handle].posEntry && !(mode == 'r' && handles[j].mode == 'r')
    {
      assert forall j :: 0 <= j < 16 ==> Slots()[j] == Slot(handles[j].mode, handles[j].posEntry);
    }

    /** The scan for another handle in the way. */
    method ScanForConflict(handle: nat, mode: char) returns (conflict: bool)
      requires Valid() && handle < HANDLE_COUNT
      ensures conflict == Conflict(Slots(), handle, mode, handles[handle].posEntry)
      ensures conflict <==>
              exists j ::
                && 0 <= j < 16 && j != handle && handles[j].mode != '\0'
                && handles[j].posEntry == handles[handle].posEntry && !(mode == 'r' && handles[j].mode == 'r')
    {
      ConflictFields(handle, mode);
      var i := 0;
      while i < HANDLE_COUNT
        invariant 0 <= i <= HANDLE_COUNT
        invariant forall j ::
                    && 0 <= j < i && j != handle && Slots()[j].IsOpen()
                    && Slots()[j].pos == handles[handle].posEntry
                    ==> mode == 'r' && Slots()[j].mode == 'r'
      {
        if handles[i].mode != '\0' && i != handle {
          if handles[handle].posEntry == handles[i].posEntry {
            if (mode == 'r' && handles[i].mode != 'r') || mode != 'r' {
              assert Slots()[i].IsOpen();
              return true;
            }
          }
        }
        i := i + 1;
      }
      conflict := false;
    }

    /** `fat16_open` below the root: the free slot is filled, and given up again if another handle is in
        the way. */
    method OpenBelow(path: seq<byte>, mode: char, handle: nat, ghost dir: seq<nat>, ghost file: seq<nat>)
      returns (r: int, ghost i: int, ghost k: int)
      requires Valid() && IsMode(mode) && FirstFree(Slots(), handle) && handle < HANDLE_COUNT
      requires Mounted(path, mode, dir, file) && TwoComponents(path)
      modifies vol.dev, handles
      ensures Valid()
      ensures (forall i', k' :: !LeadsTo(vol.dev.disk, vol.G(), path, dir, mode, i', k'))
              || LeadsTo(vol.dev.disk, vol.G(), path, dir, mode, i, k)
      ensures !LeadsTo(vol.dev.disk, vol.G(), path, dir, mode, i, k) ==> r == -1 && Slots() == old(Slots())
      ensures LeadsTo(vol.dev.disk, vol.G(), path, dir, mode, i, k) ==>
                var pos := SubRecordPos(vol.G(), dir, k);
                && SubdirOpen(old(Slots()), handle, mode, pos, Slots())
                && r == (if Conflict(old(Slots()), handle, mode, pos) then -1 else handle)
                && (r >= 0 ==> OpenOn(handles[handle], SubRecord(vol.dev.disk, vol.G(), dir, k), pos, mode,
                                      vol.G().clusterBytes, file))
      ensures forall j :: 0 <= j < HANDLE_COUNT && j != handle ==> unchanged(handles[j])
    {
      hide Found, FollowsFat, Ends, InData, Sound, ShortName, SubRecord, SubRecordPos, RecordCount, Admits, HasNext;
      var h;
      r, h, i, k := Lookup(path, mode, dir, file);
      if r < 0 {
        return;
      }
      handles[handle].CopyFrom(h);
      ConflictOthers(old(Slots()), Slots(), handle, mode, handles[handle].posEntry);
      var conflict := ScanForConflict(handle, mode);
      if conflict {
        handles[handle].mode := '\0';
        return -1, i, k;
      }
      r := handle;
    }

    /** The clusters of the file in the root directory that a path names, when they matter. */
    ghost predicate RootChain(path: seq<byte>, mode: char, file: seq<nat>)
      reads this, vol, vol.dev
    {
      mode == 'a' && ShortName(path).Some? ==>
        forall i :: 0 <= i < vol.G().rootEntries
                    && Found(RootRecords(vol.dev.disk, vol.G()), ShortName(path).value, i) ==>
          FileChain(vol.dev.disk, vol.G(), RootRecord(vol.dev.disk, vol.G(), i), file)
    }

    /** Record `i` of the root directory is the file that a path without subdirectory names. */
    ghost predicate NamesInRoot(path: seq<byte>, mode: char, i: int)
      reads this, vol, vol.dev
    {
      && ShortName(path).Some? && 0 <= i < vol.G().rootEntries
      && Found(RootRecords(vol.dev.disk, vol.G()), ShortName(path).value, i)
      && Admits(RootRecord(vol.dev.disk, vol.G(), i), mode, true)
    }

    /** `fat16_open` in the root directory: the free slot is filled, the other slots are not looked at and
        the result is 0 whichever slot it was. */
    method OpenRoot(path: seq<byte>, mode: char, handle: nat, ghost file: seq<nat>) returns (r: int, ghost i: int)
      requires Valid() && IsMode(mode) && FirstFree(Slots(), handle) && handle < HANDLE_COUNT
      requires 0 !in path && RootChain(path, mode, file)
      modifies vol.dev, handles
      ensures Valid()
      ensures r == if NamesInRoot(path, mode, i) then 0 else -1
      ensures r == -1 ==> (forall i' :: !NamesInRoot(path, mode, i')) && SameOpen(old(Slots()), Slots())
      ensures r == 0 ==> (r == handle <==> !old(Slots())[0].IsOpen())
      ensures r == 0 && r != handle ==> Slots()[0].IsOpen() && Slots()[0] == old(Slots())[0]
      ensures r == 0 ==>
                && 0 <= i && RootOpen(old(Slots()), handle, mode, RootPos(vol.G(), i), Slots())
                && OpenOn(handles[handle], RootRecord(vol.dev.disk, vol.G(), i), RootPos(vol.G(), i), mode,
                          vol.G().clusterBytes, file)
      ensures forall j :: 0 <= j < HANDLE_COUNT && j != handle ==> unchanged(handles[j])
    {
      hide Found, FollowsFat, Ends, Sound, ShortName, Parse, Admits, RootRecord;
      i := -1;
      var short := new byte[11](_ => 0);
      r := ToShortFilename(short, path);
      if r < 0 {
        return;
      }
      r, i := OpenEntryInRoot(vol, handles[handle], short[..], mode, true, file);
      if r < 0 {
        OnlyTarget(path, mode, i);
        handles[handle].mode := '\0';
      }
    }

    lemma OnlyTarget(path: seq<byte>, mode: char, i: int)
      requires vol.Valid() && ShortName(path).Some? && i < vol.G().rootEntries
      requires Found(RootRecords(vol.dev.disk, vol.G()), ShortName(path).value, i) && !NamesInRoot(path, mode, i)
      ensures forall i' :: !NamesInRoot(path, mode, i')
    {
      hide Found, ShortName, Admits, RootRecord;
      var es := RootRecords(vol.dev.disk, vol.G());
      forall i' ensures !NamesInRoot(path, mode, i') {
        if NamesInRoot(path, mode, i') {
          FoundUnique(es, ShortName(path).value, i, i');
        }
      }
    }

    /** The volume and the path suit an open or a size query. */
    ghost predicate Ready(path: seq<byte>, mode: char, dir: seq<nat>, file: seq<nat>)
      reads this, vol, vol.dev
    {
      && Mounted(path, mode, dir, file)
      && (if HasNext(path, 0) then TwoComponents(path) else RootChain(path, mode, file))
    }

    /** No file to open: a bad mode, or a path that leads to nothing the mode admits. */
    ghost predicate NoFile(path: seq<byte>, mode: char, dir: seq<nat>)
      reads this, vol, vol.dev
    {
      || !IsMode(mode)
      || (if HasNext(path, 0) then forall i, k :: !LeadsTo(vol.dev.disk, vol.G(), path, dir, mode, i, k)
          else forall i :: !NamesInRoot(path, mode, i))
    }

    /** `fat16_open`. What it did to the table is the event `e`, at the first free slot `slot`. */
    method Open(path: seq<byte>, mode: char, ghost dir: seq<nat>, ghost file: seq<nat>)
      returns (r: int, ghost e: Event, ghost slot: nat, ghost i: int, ghost k: int)
      requires Valid() && Ready(path, mode, dir, file)
      requires exists j :: 0 <= j < HANDLE_COUNT && !Slots()[j].IsOpen()
      modifies vol.dev, handles
      ensures Valid() && FirstFree(old(Slots()), slot) && slot < HANDLE_COUNT
      ensures Step(old(Slots()), e, Slots()) && (e.OpenFailed? || e.OpenInRoot? || e.OpenInSubdir?)
      ensures e.OpenFailed? <==> NoFile(path, mode, dir)
      ensures e.OpenFailed? ==> r == -1
      ensures e.OpenInRoot? ==>
                && !HasNext(path, 0) && NamesInRoot(path, mode, i) && r == 0
                && e == OpenInRoot(mode, RootPos(vol.G(), i))
                && OpenOn(handles[slot], RootRecord(vol.dev.disk, vol.G(), i), e.pos, mode, vol.G().clusterBytes, file)
      ensures e.OpenInSubdir? ==>
                && HasNext(path, 0) && LeadsTo(vol.dev.disk, vol.G(), path, dir, mode, i, k)
                && e == OpenInSubdir(mode, SubRecordPos(vol.G(), dir, k))
                && r == (if Conflict(old(Slots()), slot, mode, e.pos) then -1 else slot)
                && (r >= 0 ==> OpenOn(handles[r], SubRecord(vol.dev.disk, vol.G(), dir, k), e.pos, mode,
                                      vol.G().clusterBytes, file))
      ensures forall j :: 0 <= j < HANDLE_COUNT && j != slot ==> unchanged(handles[j])
    {
      hide LeadsTo, NamesInRoot, SubRecordPos, SubRecord, RootRecord, OpenOn, Mounted, RootChain, Conflict, Sound;
      hide FirstFree, SubdirOpen, RootOpen, Step, SameOpen;
      e, i, k := OpenFailed, -1, -1;
      var handle := FindAvailableHandle();
      slot := handle;
      StepOf(old(Slots()), slot);
      if mode != 'r' && mode != 'w' && mode != 'a' {
        return -1, e, slot, i, k;
      }
      var inRoot := InRoot(path, mode, dir, file);
      if inRoot {
        r, i := OpenRoot(path, mode, handle, file);
        if r == 0 {
          e := OpenInRoot(mode, RootPos(vol.G(), i));
        }
      } else {
        r, i, k := OpenBelow(path, mode, handle, dir, file);
        if LeadsTo(vol.dev.disk, vol.G(), path, dir, mode, i, k) {
          TargetIsRecord(path, mode, dir, i, k);
          e := OpenInSubdir(mode, SubRecordPos(vol.G(), dir, k));
        }
      }
    }

    // ----- sizes -----

    /** The record whose size a query returns: no look at its attributes. */
    ghost predicate SizedInRoot(path: seq<byte>, i: int)
      reads this, vol, vol.dev
    {
      && ShortName(path).Some? && 0 <= i < vol.G().rootEntries
      && Found(RootRecords(vol.dev.disk, vol.G()), ShortName(path).value, i)
    }

    ghost predicate SizedBelow(path: seq<byte>, dir: seq<nat>, k: int)
      reads this, vol, vol.dev
      requires HasNext(path, 0)
    {
      && FileName(path).Some? && IsDir(vol.dev.disk, vol.G(), dir) && 0 <= k < RecordCount(vol.G(), dir)
      && Found(SubRecords(vol.dev.disk, vol.G(), dir), FileName(path).value, k)
    }

    /** The directory of a path below the root can be opened. */
    ghost predicate Reaches(path: seq<byte>, i: int)
      reads this, vol, vol.dev
    {
      && DirName(path).Some? && 0 <= i < vol.G().rootEntries
      && Found(RootRecords(vol.dev.disk, vol.G()), DirName(path).value, i)
      && Admits(RootRecord(vol.dev.disk, vol.G(), i), 'r', false)
    }

    /** `fat16_size`: the open files stay what they were. -1 is the largest 32-bit number; a missing file
        in a directory that exists counts 0. */
    method Size(path: seq<byte>, ghost dir: seq<nat>)
      returns (size: nat, ghost i: int, ghost k: int)
      requires Valid() && Ready(path, 'r', dir, [])
      requires exists j :: 0 <= j < HANDLE_COUNT && !Slots()[j].IsOpen()
      modifies vol.dev, handles
      ensures Valid() && Step(old(Slots()), FatTable.Size, Slots())
      ensures forall j :: 0 <= j < HANDLE_COUNT && old(Slots())[j].IsOpen() ==> unchanged(handles[j])
      ensures !HasNext(path, 0) ==>
                if SizedInRoot(path, i) then size == RootRecord(vol.dev.disk, vol.G(), i).size
                else size == WORD - 1 && forall i' :: !SizedInRoot(path, i')
      ensures HasNext(path, 0) ==>
                if Reaches(path, i) && SizedBelow(path, dir, k)
                  then size == SubRecord(vol.dev.disk, vol.G(), dir, k).size
                else if Reaches(path, i) && FileName(path).Some?
                  then size == 0 && forall k' :: !SizedBelow(path, dir, k')
                else size == WORD - 1 && (FileName(path).None? || forall i' :: !Reaches(path, i'))
    {
      hide SubRecord, RootRecord, Mounted, Sound, FirstFree, ShortName, Found, DirName, FileName, IsDir, Admits, Step;
      i, k := -1, -1;
      var handle := FindAvailableHandle();
      var inRoot := InRoot(path, 'r', dir, []);
      if inRoot {
        size, i := SizeInRoot(path);
      } else {
        size, i, k := SizeBelow(path, handle, dir);
      }
      ghost var u := Slots();
      var closed := Close(handle);
      ClosedAgain(old(Slots()), u, handle, Slots());
    }

    method SizeInRoot(path: seq<byte>) returns (size: nat, ghost i: int)
      requires Valid() && 0 !in path
      modifies vol.dev
      ensures Valid()
      ensures if SizedInRoot(path, i) then size == RootRecord(vol.dev.disk, vol.G(), i).size
              else size == WORD - 1 && forall i' :: !SizedInRoot(path, i')
    {
      hide RootRecord, ShortName, Found, Sound;
      i, size := -1, WORD - 1;
      var short := new byte[11](_ => 0);
      var r := ToShortFilename(short, path);
      if r < 0 {
        return;
      }
      size, i := RootDirectoryEntrySize(vol, short[..]);
      OneAnswer(RootRecords(vol.dev.disk, vol.G()), ShortName(path).value, i);
    }

    /** The size query fills the free slot with a handle on the directory. */
    method SizeBelow(path: seq<byte>, handle: nat, ghost dir: seq<nat>) returns (size: nat, ghost i: int, ghost k: int)
      requires Valid() && Mounted(path, 'r', dir, []) && TwoComponents(path)
      requires handle < HANDLE_COUNT && !Slots()[handle].IsOpen()
      modifies vol.dev, handles
      ensures Valid() && Others(old(Slots()), Slots(), handle)
      ensures forall j :: 0 <= j < HANDLE_COUNT && j != handle ==> unchanged(handles[j])
      ensures if Reaches(path, i) && SizedBelow(path, dir, k) then size == SubRecord(vol.dev.disk, vol.G(), dir, k).size
              else if Reaches(path, i) && FileName(path).Some? then size == 0 && forall k' :: !SizedBelow(path, dir, k')
              else size == WORD - 1 && (FileName(path).None? || forall i' :: !Reaches(path, i'))
    {
      hide SubRecord, RootRecord, ShortName, Found, Sound, DirName, FileName, Admits, FollowsFat, Ends, InData,
        RecordCount;
      ghost var disk, g := vol.dev.disk, vol.G();
      k := -1;
      var h := new EntryHandle();
      var r, name;
      ghost var tried;
      r, name, i, tried := NavigateToSubdir(vol, h, path, dir);
      if DirName(path).Some? {
        OneAnswer(RootRecords(disk, g), DirName(path).value, i);
      }
      if r < 0 {
        size := WORD - 1;
        return;
      }
      handles[handle].CopyFrom(h);
      size, k := SubdirEntrySize(vol, handles[handle], name, dir);
      OneAnswer(SubRecords(disk, g, dir), name, k);
    }

    // ----- from a path to the bytes of the file -----

    /** The path leads to record `e`, the one numbered `k` of the directory, and no open handle on it is
        for writing. */
    ghost predicate Readable(path: seq<byte>, dir: seq<nat>, i: int, k: int, e: DirEntry)
      reads this, vol, vol.dev, handles
    {
      && Valid() && Ready(path, 'r', dir, []) && HasNext(path, 0)
      && LeadsTo(vol.dev.disk, vol.G(), path, dir, 'r', i, k) && e == SubRecord(vol.dev.disk, vol.G(), dir, k)
      && forall j :: 0 <= j < HANDLE_COUNT && Slots()[j].IsOpen() && Slots()[j].pos == SubRecordPos(vol.G(), dir, k) ==>
           Slots()[j].mode == 'r'
    }

    /** Open for reading and nothing read yet. */
    ghost predicate AtStart(h: EntryHandle, e: DirEntry, chain: seq<nat>)
      reads this, vol, vol.dev, h
    {
      && h.mode == 'r' && h.remaining == e.size && Backed(vol.dev.disk, vol.G(), e, chain)
      && (e.size > 0 ==> h.cluster > 0 && vol.Stands(h, chain, e.size, 0))
    }

    /** A handle just opened for reading stands at the first byte. */
    lemma OpenedAtStart(h: EntryHandle, e: DirEntry, pos: nat, chain: seq<nat>)
      requires vol.Valid() && Backed(vol.dev.disk, vol.G(), e, chain)
        && OpenOn(h, e, pos, 'r', vol.G().clusterBytes, [])
      ensures AtStart(h, e, chain)
    {
      hide Times, Quot, Rem;
      if e.size > 0 {
        TimesNext(0, vol.G().clusterBytes);
        TimesWithin(0, |chain|, vol.G().clusterBytes);
        DividedAs(0, vol.G().clusterBytes, 0, 0);
      }
    }

    /** A readable file opens, whatever other files are open for reading. */
    method OpenReadable(path: seq<byte>, ghost dir: seq<nat>, ghost chain: seq<nat>,
                        ghost i: int, ghost k: int, ghost e: DirEntry)
      returns (r: int)
      requires Readable(path, dir, i, k, e) && Backed(vol.dev.disk, vol.G(), e, chain)
      requires exists j :: 0 <= j < HANDLE_COUNT && !Slots()[j].IsOpen()
      modifies vol.dev, handles
      ensures Valid() && 0 <= r < HANDLE_COUNT && FirstFree(old(Slots()), r) && Others(old(Slots()), Slots(), r)
      ensures AtStart(handles[r], e, chain) && Ready(path, 'r', dir, [])
      ensures forall j :: 0 <= j < HANDLE_COUNT && j != r ==> unchanged(handles[j])
    {
      hide SubRecordPos, SubRecord, RootRecord, Sound, FileName, DirName, Found, RecordCount, FollowsFat, Ends, Admits;
      hide Content, IsFile, DirChain, AppendChain, PathOk;
      ghost var event, slot, i', k';
      r, event, slot, i', k' := Open(path, 'r', dir, []);
      FoundUnique(RootRecords(vol.dev.disk, vol.G()), DirName(path).value, i, i');
      FoundUnique(SubRecords(vol.dev.disk, vol.G(), dir), FileName(path).value, k, k');
      OpenedAtStart(handles[r], e, SubRecordPos(vol.G(), dir, k), chain);
    }

    /** The first read from an open file. */
    method ReadFromStart(fd: nat, buffer: array<byte>, address: nat, count: nat, ghost e: DirEntry,
                         ghost chain: seq<nat>)
      returns (n: int)
      requires Valid() && fd < HANDLE_COUNT && AtStart(handles[fd], e, chain)
      requires (address == 0 || address + count <= buffer.Length) && count < WORD
      modifies vol.dev, handles, buffer
      ensures Valid() && Slots() == old(Slots())
      ensures address == 0 ==> n == -1 && buffer[..] == old(buffer[..])
      ensures address != 0 ==>
                n == Min(count, e.size)
                && buffer[..] == Place(old(buffer[..]), address, FileBytes(vol.dev.disk, vol.G(), e, chain)[..n])
    {
      hide Sound, Content, IsFile, Place, At;
      n := Read(fd, buffer, address, count, chain, e.size, 0);
      if address != 0 {
        PlaceNothing(old(buffer[..]), address);
      }
    }

    /** Open for reading, then read: the first `count` bytes of the file, or all of them. */
    method OpenAndRead(path: seq<byte>, buffer: array<byte>, address: nat, count: nat,
                       ghost dir: seq<nat>, ghost chain: seq<nat>, ghost i: int, ghost k: int, ghost e: DirEntry)
      returns (fd: int, n: int)
      requires Readable(path, dir, i, k, e) && Backed(vol.dev.disk, vol.G(), e, chain)
      requires exists j :: 0 <= j < HANDLE_COUNT && !Slots()[j].IsOpen()
      requires 0 < address && address + count <= buffer.Length && count < WORD
      modifies vol.dev, handles, buffer
      ensures Valid() && fd >= 0 && FirstFree(old(Slots()), fd) && Others(old(Slots()), Slots(), fd)
      ensures n == Min(count, e.size)
              && buffer[..] == Place(old(buffer[..]), address, FileBytes(vol.dev.disk, vol.G(), e, chain)[..n])
    {
      hide Readable, Sound, Place, AtStart, FileBytes, Backed, FirstFree;
      fd := OpenReadable(path, dir, chain, i, k, e);
      n := ReadFromStart(fd, buffer, address, count, e, chain);
    }

    /** The size of a file that is open elsewhere; the open handle stays where it is. */
    method SizeReadable(path: seq<byte>, ghost dir: seq<nat>, ghost chain: seq<nat>, ghost i: int, ghost k: int,
                        ghost e: DirEntry, ghost fd: nat)
      returns (size: nat)
      requires Valid() && Ready(path, 'r', dir, []) && HasNext(path, 0)
      requires LeadsTo(vol.dev.disk, vol.G(), path, dir, 'r', i, k) && e == SubRecord(vol.dev.disk, vol.G(), dir, k)
      requires fd < HANDLE_COUNT && AtStart(handles[fd], e, chain)
      requires exists j :: 0 <= j < HANDLE_COUNT && !Slots()[j].IsOpen()
      modifies vol.dev, handles
      ensures Valid() && size == e.size && AtStart(handles[fd], e, chain)
    {
      hide SubRecord, RootRecord, Ready, Mounted, Sound, Admits, IsFile, At, DirName, FileName, Found, IsDir,
        RecordCount;
      assert Slots()[fd].IsOpen();
      ghost var i', k';
      size, i', k' := Size(path, dir);
      SizedIs(path, dir, i, k, i', k');
    }

    lemma SizedIs(path: seq<byte>, dir: seq<nat>, i: int, k: int, i': int, k': int)
      requires vol.Valid() && HasNext(path, 0) && LeadsTo(vol.dev.disk, vol.G(), path, dir, 'r', i, k)
      ensures Reaches(path, i) && SizedBelow(path, dir, k)
      ensures SizedBelow(path, dir, k') ==> k' == k
    {
      hide DirName, FileName, Found, RootRecord, RecordCount, SubRecord, FollowsFat, Ends, InData;
      if SizedBelow(path, dir, k') {
        FoundUnique(SubRecords(vol.dev.disk, vol.G(), dir), FileName(path).value, k, k');
      }
    }

    lemma StillFree(t: Table, t': Table, i: nat)
      requires exists a, b :: 0 <= a < b < |t| && !t[a].IsOpen() && !t[b].IsOpen()
      requires Others(t, t', i)
      ensures exists j :: 0 <= j < |t| && !t'[j].IsOpen()
    {
      var a, b :| 0 <= a < b < |t| && !t[a].IsOpen() && !t[b].IsOpen();
      assert if a == i then !t'[b].IsOpen() else !t'[a].IsOpen();
    }

    lemma TargetIsRecord(path: seq<byte>, mode: char, dir: seq<nat>, i: int, k: int)
      requires vol.Valid() && LeadsTo(vol.dev.disk, vol.G(), path, dir, mode, i, k)
      ensures InData(vol.G(), dir) && 0 <= k < RecordCount(vol.G(), dir)
    {
    }

    method InRoot(path: seq<byte>, mode: char, ghost dir: seq<nat>, ghost file: seq<nat>) returns (b: bool)
      requires Mounted(path, mode, dir, file)
      ensures b == !HasNext(path, 0)
      ensures 0 !in path
    {
      ComponentFits(path, 0);
      b := IsInRoot(path);
    }
  }
}
