/** One volume byte by byte, and a file on it: `/DIR/TEST.ELF` of 3000 bytes in the clusters 3 and 4. */
module FatExample {
  import opened Arith
  import opened Bytes
  import opened FatDisk
  import opened FatVolume
  import opened FatStream
  import opened FatHandle
  import opened FatReader
  import opened FatRecords
  import opened FatDirs
  import opened FatPath
  import opened FatListing
  import opened FatTable
  import opened FatInit
  import F = Fat16

  /** Sectors of 512 bytes from number 100 on: the boot sector, two FATs of 20 sectors, one sector of root
      records, clusters of four sectors. */
  const DISK: Disk := (a: nat) => if a < 51200 then 0 as byte else OnDevice(a - 51200)

  function OnDevice(p: nat): byte {
    if p < 512 then BootByte(p)
    else if p < 512 + 20480 then FatByte(p - 512)
    else if p < 21504 then RootByte(p - 20992)
    else if p < 21504 + 2048 then DirByte(p - 21504)
    else (p - 23552) % 251
  }

  /** 20000 sectors, four to a cluster, one reserved, 16 root records. */
  function BootByte(p: nat): byte {
    match p
    case 0 => 0xE9
    case 12 => 2
    case 13 => 4
    case 14 => 1
    case 16 => 2
    case 17 => 16
    case 19 => 0x20
    case 20 => 0x4E
    case 22 => 20
    case _ => 0
  }

  /** Cluster 2 is the last of its chain, 4 follows 3 and is the last. */
  function FatByte(p: nat): byte {
    match p
    case 4 => 0xFF
    case 5 => 0xFF
    case 6 => 4
    case 8 => 0xFF
    case 9 => 0xFF
    case _ => 0
  }

  /** "DIR", a directory in cluster 2. */
  function RootByte(p: nat): byte {
    match p
    case 0 => 0x44
    case 1 => 0x49
    case 2 => 0x52
    case 11 => 0x10
    case 26 => 2
    case _ => if p < 11 then 0x20 else 0
  }

  /** "TEST.ELF", from cluster 3 on, 0xBB8 bytes. */
  function DirByte(p: nat): byte {
    match p
    case 0 => 0x54
    case 1 => 0x45
    case 2 => 0x53
    case 3 => 0x54
    case 8 => 0x45
    case 9 => 0x4C
    case 10 => 0x46
    case 11 => 0x20
    case 26 => 3
    case 28 => 0xB8
    case 29 => 0x0B
    case _ => if p < 11 then 0x20 else 0
  }

  const DIR: seq<byte> := [0x44, 0x49, 0x52]
  const TEST: seq<byte> := [0x54, 0x45, 0x53, 0x54]
  const ELF: seq<byte> := [0x45, 0x4C, 0x46]

  /** "/DIR/TEST.ELF" */
  const PATH: seq<byte> := [0x2F] + DIR + [0x2F] + (TEST + [0x2E] + ELF)

  const BOOT: Boot := Boot(DISK, 0)

  lemma BootFields()
    ensures BOOT.ValidJump() && BOOT.BytesPerSector() == 512 && BOOT.SectorsPerCluster() == 4
    ensures BOOT.Reserved() == 1 && BOOT.NumFats() == 2 && BOOT.RootEntries() == 16
    ensures BOOT.Sectors16() == 20000 && BOOT.FatSize() == 20 && BOOT.Sectors32() == 0
  {
  }

  /** The volume is mounted: 4989 clusters of 2048 bytes. */
  lemma Numbers()
    ensures Acceptable(BOOT) && GeometryOf(BOOT, 0) == Geometry(0, 512, 20992, 21504, 4989, 2048, 16)
    ensures Sound(GeometryOf(BOOT, 0))
  {
    BootFields();
    hide Byte, Half, Long;
    AcceptableMeans(BOOT);
    LayoutNumbers(BOOT, 0);
    MountedSound(BOOT, 0);
  }

  const G: Geometry := Geometry(0, 512, 20992, 21504, 4989, 2048, 16)

  lemma Links()
    ensures Next(DISK, G, 2) == 0xFFFF && Next(DISK, G, 3) == 4 && Next(DISK, G, 4) == 0xFFFF
  {
    NextInBytes(DISK, G, 2);
    NextInBytes(DISK, G, 3);
    NextInBytes(DISK, G, 4);
    hide Next;
  }

  /** The record of the directory, and the end of the root records behind it. */
  lemma RootRead()
    ensures RootRecord(DISK, G, 0) == DirEntry(DIR + Spaces(8), 0x10, 2, 0)
    ensures RootRecord(DISK, G, 1).name[0] == 0
  {
    var b := DeviceBytes(DISK, 20992, 32);
    assert forall k :: 0 <= k < 32 ==> b[k] == RootByte(k);
    assert b[..11] == DIR + Spaces(8);
    var c := DeviceBytes(DISK, 21024, 32);
    assert c[0] == RootByte(32);
  }

  /** The record of the file. */
  lemma FileRead()
    ensures InData(G, [2]) && RecordCount(G, [2]) == 64
    ensures SubRecord(DISK, G, [2], 0) == DirEntry(TEST + Spaces(4) + ELF, 0x20, 3, 3000)
  {
    var b := DeviceBytes(DISK, 21504, 32);
    assert forall k :: 0 <= k < 32 ==> b[k] == DirByte(k);
    assert b[..11] == TEST + Spaces(4) + ELF;
    SubRecordAt(DISK, G, [2], 0, 0, 0);
  }

  /** The listing of the root directory: "DIR." and nothing else. */
  lemma ListExample(names: seq<seq<byte>>)
    ensures IsListing(RootRecords(DISK, G), names) <==> names == [DIR + [0x2E]]
  {
    RootRead();
    FormatMeans(DIR, []);
    assert DIR + Spaces(5) + [] + Spaces(3) == DIR + Spaces(8) && DIR + [0x2E] + [] == DIR + [0x2E];
    hide RootRecord, Format;
    var es := RootRecords(DISK, G);
    assert !Terminator(es[0]) && Terminator(es[1]);
    if IsListing(es, names) {
      assert |names| == 1;
      assert names[0] == Format(es[0].name);
    }
  }

  const FILE: DirEntry := DirEntry(TEST + Spaces(4) + ELF, 0x20, 3, 3000)

  lemma Names()
    ensures F.DirName(PATH) == Some(DIR + Spaces(8)) && F.FileName(PATH) == Some(FILE.name)
    ensures HasNext(PATH, 0) && F.TwoComponents(PATH)
  {
    hide ShortName, HasNext, NextSlash;
    F.PathMeans(DIR, TEST + [0x2E] + ELF);
    PlainNameMeans(DIR);
    SlashDropped(DIR);
    ShortNameMeans(TEST, ELF);
    SlashDropped(TEST + [0x2E] + ELF);
    assert TEST + Spaces(4) + ELF + Spaces(0) == TEST + Spaces(4) + ELF;
  }

  lemma PathFits()
    ensures F.PathOk(PATH)
  {
    var path := PATH;
    assert path == [0x2F, 0x44, 0x49, 0x52, 0x2F, 0x54, 0x45, 0x53, 0x54, 0x2E, 0x45, 0x4C, 0x46];
  }

  /** The search in the root directory and in the directory. */
  lemma Searches()
    ensures Found(RootRecords(DISK, G), DIR + Spaces(8), 0) && Admits(RootRecord(DISK, G, 0), 'r', false)
    ensures FollowsFat(DISK, G, 2, [2]) && IsDir(DISK, G, [2])
    ensures Found(SubRecords(DISK, G, [2]), FILE.name, 0) && Admits(FILE, 'r', true)
  {
    RootRead();
    FileRead();
    Links();
    hide RootRecord, SubRecord, Next, RecordCount;
    FoundMeans(RootRecords(DISK, G), DIR + Spaces(8), 0);
    FoundMeans(SubRecords(DISK, G, [2]), FILE.name, 0);
  }

  lemma Leads()
    ensures F.LeadsTo(DISK, G, PATH, [2], 'r', 0, 0) && F.DirChain(DISK, G, DIR + Spaces(8), [2])
  {
    Names();
    Searches();
    RootRead();
    FileRead();
    hide RootRecord, SubRecord, Found, F.DirName, F.FileName, HasNext, Admits, FollowsFat, Ends, RecordCount, Spaces;
    forall i | 0 <= i < G.rootEntries && Found(RootRecords(DISK, G), DIR + Spaces(8), i) ensures i == 0 {
      FoundUnique(RootRecords(DISK, G), DIR + Spaces(8), i, 0);
    }
  }

  /** The file's bytes. */
  lemma FileByte(k: nat)
    requires k < 3000
    ensures F.Backed(DISK, G, FILE, [3, 4]) && F.FileBytes(DISK, G, FILE, [3, 4])[k] == k % 251
  {
    Links();
    TimesIs(k / 2048, 2048);
    TimesIs([3, 4][k / 2048] - 2, 2048);
    TimesIs(2, 2048);
    ContentByte(DISK, G, [3, 4], 3000, k / 2048, k % 2048);
    hide Next, Content;
  }

  lemma Usable(fs: F.Fat16)
    requires fs.Valid() && fs.vol.dev.disk == DISK && fs.vol.G() == G
    requires forall i :: 0 <= i < |fs.handles| ==> !fs.Slots()[i].IsOpen()
    ensures fs.Readable(PATH, [2], 0, 0, FILE) && F.Backed(DISK, G, FILE, [3, 4])
    ensures exists j :: 0 <= j < HANDLE_COUNT && !fs.Slots()[j].IsOpen()
  {
    hide Sound, F.LeadsTo, F.DirChain, F.DirName, F.FileName, F.FileBytes, F.Backed;
    hide Found, SubRecord, HasNext, F.PathOk, F.TwoComponents, DISK, Content;
    Leads();
    FileRead();
    Names();
    PathFits();
    FileByte(0);
    assert !fs.Slots()[0].IsOpen();
  }

  /** Mounting the volume, opening the file and reading from it. */
  method ReadExample(dev: Device, buffer: array<byte>, count: nat) returns (n: int)
    requires dev.Valid() && dev.disk == DISK && 16 + count <= buffer.Length && count < WORD
    modifies dev, buffer
    ensures n == if count < 3000 then count else 3000
    ensures forall k :: 0 <= k < buffer.Length ==>
              buffer[k] == if 16 <= k < 16 + n then (k - 16) % 251 else old(buffer[k])
  {
    hide Sound, Acceptable, LayoutOf, F.FileBytes, F.Backed, GeometryOf, DISK, Content, Place, F.Fat16.Readable;
    ghost var m := buffer[..];
    Numbers();
    var out, fs := Mount(dev, 0);
    Usable(fs);
    var fd;
    fd, n := fs.OpenAndRead(PATH, buffer, 16, count, [2], [3, 4], 0, 0, FILE);
    FileByte(0);
    ghost var data := F.FileBytes(DISK, G, FILE, [3, 4]);
    forall k | 0 <= k < buffer.Length ensures buffer[k] == if 16 <= k < 16 + n then (k - 16) % 251 else m[k] {
      PlaceAt(m, 16, data[..n], k);
      if 16 <= k < 16 + n {
        FileByte(k - 16);
      }
    }
  }
}
