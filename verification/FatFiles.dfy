/** Open files over whole runs: every handle delivers its own file, piece by piece, whatever the other
    handles do in between. */
module FatFiles {
  import opened Arith
  import opened Bytes
  import opened FatDisk
  import opened FatVolume
  import opened FatStream
  import opened FatHandle
  import opened FatReader
  import opened FatRecords
  import opened FatDirs
  import opened FatPath
  import opened FatTable
  import F = Fat16

  // ----- the abstract files -----

  /** A file open for reading, and how much of it has been delivered. */
  datatype OpenFile = OpenFile(content: seq<byte>, p: nat)

  type Files = map<nat, OpenFile>

  datatype Event =
    | Opened(fd: nat, content: seq<byte>)
    | Delivered(fd: nat, count: nat, data: seq<byte>)   // a read of up to `count` bytes
    | Closed(fd: nat)
    | Elsewhere                                          // sizes, opens that fail or are for writing, their reads

  ghost predicate Step(t: Files, e: Event, t': Files) {
    match e
    case Opened(fd, content) => fd !in t && t' == t[fd := OpenFile(content, 0)]
    case Delivered(fd, count, data) =>
      && fd in t && t[fd].p <= |t[fd].content|
      && data == ReadAt(t[fd].content, t[fd].p, count)
      && t' == t[fd := OpenFile(t[fd].content, t[fd].p + |data|)]
    case Closed(fd) => t' == t - {fd}
    case Elsewhere => t' == t
  }

  ghost predicate Run(ts: seq<Files>, es: seq<Event>) {
    |ts| == |es| + 1 && forall k :: 0 <= k < |es| ==> Step(ts[k], es[k], ts[k + 1])
  }

  /** What the reads of a handle delivered, and what they asked for. */
  function Pieces(es: seq<Event>, fd: nat): seq<byte> {
    if es == [] then [] else
      var e := es[|es| - 1];
      Pieces(es[..|es| - 1], fd) + if e.Delivered? && e.fd == fd then e.data else []
  }

  function Wanted(es: seq<Event>, fd: nat): nat {
    if es == [] then 0 else
      var e := es[|es| - 1];
      Wanted(es[..|es| - 1], fd) + if e.Delivered? && e.fd == fd then e.count else 0
  }

  /** From its open on, and as long as it is not closed, a handle has delivered the beginning of its own
      file: as much as was asked for, or all of it. */
  lemma {:induction false} RunDelivers(ts: seq<Files>, es: seq<Event>, fd: nat, content: seq<byte>)
    requires Run(ts, es) && fd in ts[0] && ts[0][fd] == OpenFile(content, 0)
    requires Closed(fd) !in es
    ensures fd in ts[|es|] && ts[|es|][fd] == OpenFile(content, Min(Wanted(es, fd), |content|))
    ensures Pieces(es, fd) == content[..Min(Wanted(es, fd), |content|)]
    decreases |es|
  {
    if es == [] {
    } else {
      var n := |es| - 1;
      assert Run(ts[..n + 1], es[..n]);
      RunDelivers(ts[..n + 1], es[..n], fd, content);
      assert Step(ts[n], es[n], ts[n + 1]) && es[n] != Closed(fd);
      hide Run, Pieces, Wanted;
      StepDelivers(ts[n], es[n], ts[n + 1], fd, content, Wanted(es[..n], fd));
    }
  }

  lemma StepDelivers(t: Files, e: Event, t': Files, fd: nat, content: seq<byte>, n: nat)
    requires Step(t, e, t') && e != Closed(fd)
    requires fd in t && t[fd] == OpenFile(content, Min(n, |content|))
    ensures fd in t'
    ensures if e.Delivered? && e.fd == fd then
              && t'[fd] == OpenFile(content, Min(n + e.count, |content|))
              && content[..Min(n, |content|)] + e.data == content[..Min(n + e.count, |content|)]
            else t'[fd] == t[fd]
  {
  }

  /** A file read to its end has been delivered whole, in order, nothing twice. */
  lemma WholeFile(ts: seq<Files>, es: seq<Event>, fd: nat, content: seq<byte>)
    requires Run(ts, es) && 0 < |es| && es[0] == Opened(fd, content) && Closed(fd) !in es
    ensures Pieces(es[1..], fd) == content <==> |content| <= Wanted(es[1..], fd)
  {
    assert Step(ts[0], es[0], ts[1]);
    assert Run(ts[1..], es[1..]) by {
      forall k | 0 <= k < |es[1..]| ensures Step(ts[1..][k], es[1..][k], ts[1..][k + 1]) {
        assert Step(ts[k + 1], es[k + 1], ts[k + 2]);
      }
    }
    RunDelivers(ts[1..], es[1..], fd, content);
  }

  // ----- the driver's handles as such files -----

  /** The fields of a handle that its reads depend on. */
  datatype Handle = Handle(mode: char, cluster: nat, offset: nat, remaining: nat)

  function Fields(h: EntryHandle): Handle
    reads h
  {
    Handle(h.mode, h.cluster, h.offset, h.remaining)
  }

  /** The handle stands at byte `f.p` of the file of record `e`. */
  ghost predicate Reading(disk: Disk, g: Geometry, h: Handle, f: OpenFile, e: DirEntry, chain: seq<nat>)
    requires g.clusterBytes > 0
  {
    && h.mode == 'r' && F.Backed(disk, g, e, chain)
    && f.content == F.FileBytes(disk, g, e, chain) && f.p <= e.size && h.remaining == e.size - f.p
    && (e.size > 0 ==> h.cluster > 0 && (h.cluster, h.offset) == At(chain, g.clusterBytes, e.size, f.p))
  }

  ghost predicate Opens(disk: Disk, g: Geometry, h: Handle, f: OpenFile)
    requires g.clusterBytes > 0
  {
    exists e, chain :: Reading(disk, g, h, f, e, chain)
  }

  /** Every file of the table is open on its handle. */
  ghost predicate Tracks(fs: F.Fat16, t: Files)
    reads fs, fs.vol, fs.vol.dev, fs.handles
  {
    && fs.Valid() && fs.vol.G().clusterBytes > 0
    && forall fd :: fd in t ==> fd < HANDLE_COUNT && Opens(fs.vol.dev.disk, fs.vol.G(), Fields(fs.handles[fd]), t[fd])
  }

  lemma OpensForReading(disk: Disk, g: Geometry, h: Handle, f: OpenFile)
    requires g.clusterBytes > 0 && Opens(disk, g, h, f)
    ensures h.mode == 'r'
  {
  }

  lemma Starts(fs: F.Fat16, h: EntryHandle, e: DirEntry, chain: seq<nat>)
    requires fs.Valid() && fs.vol.G().clusterBytes > 0 && fs.AtStart(h, e, chain)
    ensures F.Backed(fs.vol.dev.disk, fs.vol.G(), e, chain)
    ensures Opens(fs.vol.dev.disk, fs.vol.G(), Fields(h),
                  OpenFile(F.FileBytes(fs.vol.dev.disk, fs.vol.G(), e, chain), 0))
  {
    var disk, g := fs.vol.dev.disk, fs.vol.G();
    assert Reading(disk, g, Fields(h), OpenFile(F.FileBytes(disk, g, e, chain), 0), e, chain);
  }

  lemma AllOpen(fs: F.Fat16, t: Files)
    requires Tracks(fs, t)
    ensures forall fd :: fd in t ==> fd < HANDLE_COUNT && fs.Slots()[fd].IsOpen()
  {
    hide Reading;
    forall fd | fd in t ensures fd < HANDLE_COUNT && fs.Slots()[fd].IsOpen() {
      OpensForReading(fs.vol.dev.disk, fs.vol.G(), Fields(fs.handles[fd]), t[fd]);
    }
  }

  /** An open for reading adds the file, undelivered. */
  method OpenFor(fs: F.Fat16, path: seq<byte>, ghost dir: seq<nat>, ghost chain: seq<nat>, ghost i: int, ghost k: int,
                 ghost e: DirEntry, ghost t: Files)
    returns (r: int, ghost t': Files)
    requires fs.Readable(path, dir, i, k, e) && F.Backed(fs.vol.dev.disk, fs.vol.G(), e, chain) && Tracks(fs, t)
    requires exists j :: 0 <= j < HANDLE_COUNT && !fs.Slots()[j].IsOpen()
    modifies fs.vol.dev, fs.handles
    ensures r >= 0 && Step(t, Opened(r, F.FileBytes(fs.vol.dev.disk, fs.vol.G(), e, chain)), t') && Tracks(fs, t')
  {
    hide F.Fat16.Readable, F.Fat16.AtStart, F.Backed, F.FileBytes, Opens, Sound, F.Fat16.Ready;
    AllOpen(fs, t);
    r := fs.OpenReadable(path, dir, chain, i, k, e);
    Starts(fs, fs.handles[r], e, chain);
    t' := t[r := OpenFile(F.FileBytes(fs.vol.dev.disk, fs.vol.G(), e, chain), 0)];
  }

  /** In the root directory, too; the file is that of the slot, whatever number the call returns. */
  method OpenRootFor(fs: F.Fat16, path: seq<byte>, ghost dir: seq<nat>, ghost chain: seq<nat>, ghost i: int,
                     ghost e: DirEntry, ghost t: Files)
    returns (r: int, ghost slot: nat, ghost t': Files)
    requires Tracks(fs, t) && fs.Ready(path, 'r', dir, []) && !HasNext(path, 0) && fs.NamesInRoot(path, 'r', i)
    requires e == RootRecord(fs.vol.dev.disk, fs.vol.G(), i) && F.Backed(fs.vol.dev.disk, fs.vol.G(), e, chain)
    requires exists j :: 0 <= j < HANDLE_COUNT && !fs.Slots()[j].IsOpen()
    modifies fs.vol.dev, fs.handles
    ensures r == 0 && FirstFree(old(fs.Slots()), slot)
    ensures Step(t, Opened(slot, F.FileBytes(fs.vol.dev.disk, fs.vol.G(), e, chain)), t') && Tracks(fs, t')
  {
    hide F.Fat16.Mounted, F.Fat16.RootChain, F.Fat16.AtStart, F.Backed, F.FileBytes, F.LeadsTo, Opens, Sound;
    hide RootRecord, RootPos, FatTable.Step, Found, ShortName, Admits, OpenOn;
    AllOpen(fs, t);
    ghost var event, i', k;
    r, event, slot, i', k := fs.Open(path, 'r', dir, []);
    assert fs.NamesInRoot(path, 'r', i);
    FoundUnique(RootRecords(fs.vol.dev.disk, fs.vol.G()), ShortName(path).value, i, i');
    fs.OpenedAtStart(fs.handles[slot], e, event.pos, chain);
    Starts(fs, fs.handles[slot], e, chain);
    t' := t[slot := OpenFile(F.FileBytes(fs.vol.dev.disk, fs.vol.G(), e, chain), 0)];
  }

  /** What a read needs to know of the handle, and what it may conclude. */
  lemma Standing(fs: F.Fat16, h: EntryHandle, f: OpenFile) returns (e: DirEntry, chain: seq<nat>)
    requires fs.Valid() && fs.vol.G().clusterBytes > 0 && Opens(fs.vol.dev.disk, fs.vol.G(), Fields(h), f)
    ensures Reading(fs.vol.dev.disk, fs.vol.G(), Fields(h), f, e, chain) && f.p <= |f.content| == e.size
    ensures h.mode == 'r'
    ensures if e.size == 0 then h.remaining == 0 && f.content == []
            else h.cluster != 0 && F.Backed(fs.vol.dev.disk, fs.vol.G(), e, chain)
                 && fs.vol.Stands(h, chain, e.size, f.p)
                 && f.content == Content(fs.vol.dev.disk, fs.vol.G(), chain, e.size)
  {
    hide Content, At, Sound;
    e, chain :| Reading(fs.vol.dev.disk, fs.vol.G(), Fields(h), f, e, chain);
  }

  lemma StillStanding(fs: F.Fat16, h: EntryHandle, f: OpenFile, e: DirEntry, chain: seq<nat>)
    requires fs.Valid() && fs.vol.G().clusterBytes > 0 && h.mode == 'r' && e.size > 0
    requires F.Backed(fs.vol.dev.disk, fs.vol.G(), e, chain) && fs.vol.Stands(h, chain, e.size, f.p)
    requires f.content == Content(fs.vol.dev.disk, fs.vol.G(), chain, e.size)
    ensures Opens(fs.vol.dev.disk, fs.vol.G(), Fields(h), f)
  {
    hide Content, Times, Quot, Rem;
    var disk, g := fs.vol.dev.disk, fs.vol.G();
    AtCluster(g, chain, e.size, f.p);
    assert Reading(disk, g, Fields(h), f, e, chain);
  }

  /** An empty file needs nothing but a handle with nothing left. */
  lemma EmptyStays(fs: F.Fat16, h: EntryHandle, f: OpenFile, e: DirEntry, chain: seq<nat>)
    requires fs.Valid() && fs.vol.G().clusterBytes > 0 && h.mode == 'r' && h.remaining == 0
    requires e.size == 0 && f == OpenFile([], 0)
    ensures Opens(fs.vol.dev.disk, fs.vol.G(), Fields(h), f)
  {
    assert Reading(fs.vol.dev.disk, fs.vol.G(), Fields(h), f, e, chain);
  }

  /** A handle on a file stands on one of its data clusters. */
  lemma AtCluster(g: Geometry, chain: seq<nat>, size: nat, p: nat)
    requires g.clusterBytes > 0 && |chain| > 0 && InData(g, chain) && size <= Times(|chain|, g.clusterBytes)
    requires p <= size
    ensures At(chain, g.clusterBytes, size, p).0 > 0
  {
    hide Times, Quot, Rem;
    AtIndex(|chain|, g.clusterBytes, size, p);
  }

  /** A read delivers the next piece of the handle's file. */
  method NextPiece(fs: F.Fat16, fd: nat, buffer: array<byte>, address: nat, count: nat, ghost t: Files)
    returns (n: int, ghost data: seq<byte>, ghost t': Files)
    requires Tracks(fs, t) && fd in t
    requires 0 < address && address + count <= buffer.Length && count < WORD
    modifies fs.vol.dev, fs.handles, buffer
    ensures Step(t, Delivered(fd, count, data), t') && Tracks(fs, t')
    ensures n == |data| && address + n <= buffer.Length && buffer[..] == Place(old(buffer[..]), address, data)
  {
    hide Reading, Opens, Sound, F.Backed, F.FileBytes, Content, At, IsFile, Place;
    var h := fs.handles[fd];
    AllOpen(fs, t);
    ghost var e, chain := Standing(fs, h, t[fd]);
    n := fs.Read(fd, buffer, address, count, chain, e.size, t[fd].p);
    data := ReadAt(t[fd].content, t[fd].p, count);
    t' := t[fd := OpenFile(t[fd].content, t[fd].p + |data|)];
    if e.size > 0 {
      StillStanding(fs, h, t'[fd], e, chain);
    } else {
      EmptyStays(fs, h, t'[fd], e, chain);
      PlaceNothing(old(buffer[..]), address);
    }
  }

  /** A close takes the handle's file away, and nothing else. */
  method CloseFile(fs: F.Fat16, fd: nat, ghost t: Files) returns (r: int, ghost t': Files)
    requires Tracks(fs, t)
    modifies fs.handles
    ensures Step(t, Closed(fd), t') && Tracks(fs, t')
    ensures fd in t ==> r == 0
  {
    hide Opens, Sound;
    AllOpen(fs, t);
    r := fs.Close(fd);
    t' := t - {fd};
  }

  /** Any other open keeps every file where it is. */
  method OpenElsewhere(fs: F.Fat16, path: seq<byte>, mode: char, ghost dir: seq<nat>, ghost file: seq<nat>,
                       ghost t: Files)
    returns (r: int)
    requires Tracks(fs, t) && fs.Ready(path, mode, dir, file)
    requires exists j :: 0 <= j < HANDLE_COUNT && !fs.Slots()[j].IsOpen()
    modifies fs.vol.dev, fs.handles
    ensures Tracks(fs, t)
  {
    hide F.Fat16.Ready, Opens, Sound, F.LeadsTo, F.Fat16.NamesInRoot, FatTable.Step, OpenOn;
    AllOpen(fs, t);
    ghost var event, slot, i, k;
    r, event, slot, i, k := fs.Open(path, mode, dir, file);
  }

  /** A size query, too. */
  method SizeElsewhere(fs: F.Fat16, path: seq<byte>, ghost dir: seq<nat>, ghost t: Files) returns (size: nat)
    requires Tracks(fs, t) && fs.Ready(path, 'r', dir, [])
    requires exists j :: 0 <= j < HANDLE_COUNT && !fs.Slots()[j].IsOpen()
    modifies fs.vol.dev, fs.handles
    ensures Tracks(fs, t)
  {
    hide F.Fat16.Ready, Opens, Sound, F.Fat16.Reaches, F.Fat16.SizedInRoot, F.Fat16.SizedBelow;
    AllOpen(fs, t);
    ghost var i, k;
    size, i, k := fs.Size(path, dir);
  }

  /** A read from a handle that is no such file: closed, or open for writing with nothing left to deliver. */
  method ReadElsewhere(fs: F.Fat16, fd: nat, buffer: array<byte>, address: nat, count: nat, ghost t: Files)
    returns (n: int)
    requires Tracks(fs, t) && fd !in t && (address == 0 || address + count <= buffer.Length) && count < WORD
    requires fd < HANDLE_COUNT && fs.Slots()[fd].IsOpen() ==> fs.handles[fd].remaining == 0
    modifies fs.vol.dev, fs.handles, buffer
    ensures Tracks(fs, t) && n <= 0 && (n == 0 ==> buffer[..] == old(buffer[..]))
  {
    hide Opens, Sound, Content, Place, At;
    n := fs.Read(fd, buffer, address, count, [], 0, 0);
  }
}
