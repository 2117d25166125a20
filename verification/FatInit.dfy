/** Mounting: which boot sectors are accepted, and what layout an accepted one gives. */
module FatInit {
  import opened Arith
  import opened Bytes
  import opened FatDisk
  import opened FatVolume
  import opened FatReader
  import opened FatRecords
  import F = Fat16

  const INVALID_BYTES_PER_SECTOR: nat := 1
  const INVALID_SECTORS_PER_CLUSTER: nat := 2
  const INVALID_SECTOR_COUNT: nat := 5
  const INVALID_CLUSTER_COUNT: nat := 100

  // ----- the boot sector -----

  function Byte(disk: Disk, p: nat): byte { DeviceBytes(disk, p, 1)[0] }

  function Half(disk: Disk, p: nat): (v: nat)
    ensures v < 0x1_0000
  {
    Get16(DeviceBytes(disk, p, 2), 0)
  }

  function Long(disk: Disk, p: nat): (v: nat)
    ensures v < WORD
  {
    Get32(DeviceBytes(disk, p, 4), 0)
  }

  /** The boot sector at `p`, each field at its place in the BIOS parameter block; the second sector count
      is the 32-bit one. */
  datatype Boot = Boot(disk: Disk, p: nat) {
    ghost predicate ValidJump() {
      (Byte(disk, p) == 0xEB && Byte(disk, p + 2) == 0x90) || Byte(disk, p) == 0xE9
    }
    ghost predicate ValidClusterSize() {
      SectorsPerCluster() in {1, 2, 4, 8, 16, 32, 64, 128}
    }
    ghost function BytesPerSector(): nat { Half(disk, p + 11) }
    ghost function SectorsPerCluster(): nat { Byte(disk, p + 13) }
    ghost function Reserved(): nat { Half(disk, p + 14) }
    ghost function NumFats(): nat { Byte(disk, p + 16) }
    ghost function RootEntries(): nat { Half(disk, p + 17) }
    ghost function Sectors16(): nat { Half(disk, p + 19) }
    ghost function FatSize(): nat { Half(disk, p + 22) }
    ghost function Sectors32(): nat { Long(disk, p + 32) }

    ghost function Fields(): Bpb {
      Bpb(BytesPerSector(), SectorsPerCluster(), Reserved(), NumFats(), RootEntries(), Sectors16(), FatSize())
    }

    /** The error of `fat16_read_bpb`; 0 is both success and an invalid jump. */
    ghost function Code(): nat {
      if !ValidJump() then 0
      else if BytesPerSector() != 512 then INVALID_BYTES_PER_SECTOR
      else if !ValidClusterSize() then INVALID_SECTORS_PER_CLUSTER
      else if (Sectors16() == 0) == (Sectors32() == 0) then INVALID_SECTOR_COUNT
      else 0
    }
  }

  lemma ByteIs(disk: Disk, p: nat)
    ensures Byte(disk, p) == disk(51200 + p)
  {
  }

  lemma HalfIs(disk: Disk, p: nat)
    ensures Half(disk, p) == disk(51200 + p) as int + 256 * disk(51200 + p + 1) as int
  {
    DeviceByte(disk, p, 2, 0);
    DeviceByte(disk, p, 2, 1);
    hide DeviceBytes;
  }

  lemma LongIs(disk: Disk, p: nat)
    ensures Long(disk, p) == disk(51200 + p) as int + 256 * disk(51200 + p + 1) as int
                             + 65536 * disk(51200 + p + 2) as int + 16777216 * disk(51200 + p + 3) as int
  {
    DeviceByte(disk, p, 4, 0);
    DeviceByte(disk, p, 4, 1);
    DeviceByte(disk, p, 4, 2);
    DeviceByte(disk, p, 4, 3);
    hide DeviceBytes;
  }

  /** The places of the fields: the sector of bytes that starts with a jump and the maker's name. */
  lemma BootBytes(disk: Disk, p: nat)
    ensures var boot := Boot(disk, p);
            && (boot.ValidJump() <==> (Byte(disk, p) == 0xEB && Byte(disk, p + 2) == 0x90) || Byte(disk, p) == 0xE9)
            && boot.BytesPerSector() == Half(disk, p + 11)
            && boot.SectorsPerCluster() == Byte(disk, p + 13)
            && boot.Reserved() == Half(disk, p + 14)
            && boot.NumFats() == Byte(disk, p + 16)
            && boot.RootEntries() == Half(disk, p + 17)
            && boot.Sectors16() == Half(disk, p + 19)
            && boot.FatSize() == Half(disk, p + 22)
            && boot.Sectors32() == Long(disk, p + 32)
  {
    hide Byte, Half, Long;
  }

  /** The error codes: 1 for sectors other than 512 bytes, 2 for a cluster size that is no power of two up to
      128 sectors, 5 for no or two sector counts. An invalid jump goes unseen. */
  lemma CodeMeans(boot: Boot)
    ensures boot.Code() == 1 <==> boot.ValidJump() && boot.BytesPerSector() != 512
    ensures boot.Code() == 2 <==>
            boot.ValidJump() && boot.BytesPerSector() == 512
            && boot.SectorsPerCluster() !in {1, 2, 4, 8, 16, 32, 64, 128}
    ensures boot.Code() == 5 <==>
            boot.ValidJump() && boot.BytesPerSector() == 512
            && boot.SectorsPerCluster() in {1, 2, 4, 8, 16, 32, 64, 128}
            && ((boot.Sectors16() != 0 && boot.Sectors32() != 0) || (boot.Sectors16() == 0 && boot.Sectors32() == 0))
    ensures boot.Code() in {0, 1, 2, 5}
  {
    hide Byte, Half, Long;
  }

  const NO_FIELDS: Bpb := Bpb(0, 0, 0, 0, 0, 0, 0)

  method ReadByte(dev: Device) returns (b: byte)
    requires dev.Valid()
    modifies dev
    ensures dev.Valid() && b == Byte(dev.disk, old(dev.pointer)) && dev.pointer == U32(old(dev.pointer) + 1)
  {
    var buffer := new byte[1](_ => 0);
    dev.Read(buffer, 0, 1);
    assert buffer[..] == DeviceBytes(dev.disk, old(dev.pointer), 1);
    b := buffer[0];
  }

  method ReadHalf(dev: Device) returns (v: nat)
    requires dev.Valid()
    modifies dev
    ensures dev.Valid() && v == Half(dev.disk, old(dev.pointer)) && dev.pointer == U32(old(dev.pointer) + 2)
  {
    var buffer := new byte[2](_ => 0);
    dev.Read(buffer, 0, 2);
    assert buffer[..] == DeviceBytes(dev.disk, old(dev.pointer), 2);
    v := buffer[0] as int + 0x100 * buffer[1] as int;
  }

  method ReadLong(dev: Device) returns (v: nat)
    requires dev.Valid()
    modifies dev
    ensures dev.Valid() && v == Long(dev.disk, old(dev.pointer)) && dev.pointer == U32(old(dev.pointer) + 4)
  {
    var buffer := new byte[4](_ => 0);
    dev.Read(buffer, 0, 4);
    assert buffer[..] == DeviceBytes(dev.disk, old(dev.pointer), 4);
    v := Load32(buffer, 0);
  }

  /** Fields that are read and dropped. */
  method Skip(dev: Device, n: nat)
    requires dev.Valid() && dev.pointer + n < WORD
    modifies dev
    ensures dev.Valid() && dev.pointer == old(dev.pointer) + n
  {
    hide Byte;
    for i := 0 to n
      invariant dev.Valid() && dev.pointer == old(dev.pointer) + i
    {
      var b := ReadByte(dev);
    }
  }

  method ReadJump(dev: Device) returns (ok: bool)
    requires dev.Valid() && dev.pointer + 3 < WORD
    modifies dev
    ensures dev.Valid() && ok == Boot(dev.disk, old(dev.pointer)).ValidJump()
    ensures ok ==> dev.pointer == old(dev.pointer) + 3
  {
    hide Byte;
    var data := ReadByte(dev);
    if data == 0xEB {
      data := ReadByte(dev);
      data := ReadByte(dev);
      return data == 0x90;
    } else if data == 0xE9 {
      data := ReadByte(dev);
      data := ReadByte(dev);
      return true;
    }
    ok := false;
  }

  /** `fat16_read_bpb`. An invalid jump leaves all fields zero and reports the error number 0. */
  method ReadBpb(dev: Device, offset: nat) returns (code: nat, b: Bpb)
    requires dev.Valid() && offset + 62 < WORD
    modifies dev
    ensures dev.Valid() && code == Boot(dev.disk, offset).Code()
    ensures code == 0 ==> b == if Boot(dev.disk, offset).ValidJump() then Boot(dev.disk, offset).Fields() else NO_FIELDS
  {
    hide Byte, Half, Long;
    b := NO_FIELDS;
    dev.Seek(offset);
    var ok := ReadJump(dev);
    if !ok {
      return 0, b;
    }
    Skip(dev, 8);
    var bytesPerSector := ReadHalf(dev);
    b := b.(bytesPerSector := bytesPerSector);
    if b.bytesPerSector != 512 {
      return INVALID_BYTES_PER_SECTOR, b;
    }
    var sectorsPerCluster := ReadByte(dev);
    b := b.(sectorsPerCluster := sectorsPerCluster);
    if b.sectorsPerCluster != 1 && b.sectorsPerCluster != 2 && b.sectorsPerCluster != 4 && b.sectorsPerCluster != 8
       && b.sectorsPerCluster != 16 && b.sectorsPerCluster != 32
       && b.sectorsPerCluster != 64 && b.sectorsPerCluster != 128 {
      return INVALID_SECTORS_PER_CLUSTER, b;
    }
    code, b := ReadCounts(dev, offset, b);
  }

  /** The rest of the parameter block, from the reserved sectors on. */
  method ReadCounts(dev: Device, ghost offset: nat, b: Bpb) returns (code: nat, b': Bpb)
    requires dev.Valid() && offset + 62 < WORD && dev.pointer == offset + 14
    modifies dev
    ensures dev.Valid()
    ensures var boot := Boot(dev.disk, offset);
            && code == (if (boot.Sectors16() == 0) == (boot.Sectors32() == 0) then INVALID_SECTOR_COUNT else 0)
            && b' == boot.Fields().(bytesPerSector := b.bytesPerSector, sectorsPerCluster := b.sectorsPerCluster)
  {
    hide Byte, Half, Long;
    var reserved := ReadHalf(dev);
    var numFats := ReadByte(dev);
    var rootEntries := ReadHalf(dev);
    var sectorCount := ReadHalf(dev);
    Skip(dev, 1);
    var fatSize := ReadHalf(dev);
    b' := b.(reserved := reserved, numFats := numFats, rootEntries := rootEntries, sectorCount := sectorCount,
             fatSize := fatSize);
    Skip(dev, 8);
    var sectors32 := ReadLong(dev);
    if (b'.sectorCount != 0 && sectors32 != 0) || (b'.sectorCount == 0 && sectors32 == 0) {
      return INVALID_SECTOR_COUNT, b';
    }
    Skip(dev, 2);
    var signature := ReadByte(dev);
    if signature == 0x29 {
      Skip(dev, 23);
    }
    code := 0;
  }

  // ----- the layout -----

  /** Sectors of the FATs and of the root directory, the latter rounded down. */
  function FatSectors(b: Bpb): nat { Times(b.numFats, b.fatSize) }

  function RootSectors(b: Bpb): nat
    requires b.bytesPerSector > 0
  {
    Quot(b.rootEntries * 32, b.bytesPerSector)
  }

  /** Sectors in front of the data region. */
  function Used(b: Bpb): nat
    requires b.bytesPerSector > 0
  {
    b.reserved + FatSectors(b) + RootSectors(b)
  }

  function ClusterCount(b: Bpb): nat
    requires b.bytesPerSector > 0 && b.sectorsPerCluster > 0 && Used(b) <= b.sectorCount
  {
    Quot(b.sectorCount - Used(b), b.sectorsPerCluster)
  }

  /** A volume the driver can work with, in plain numbers: it has room for what the boot sector announces
      and for a number of clusters that makes it FAT16. */
  ghost predicate Acceptable(boot: Boot) {
    var b := boot.Fields();
    && boot.ValidJump() && b.bytesPerSector == 512 && boot.ValidClusterSize()
    && b.sectorCount != 0 && boot.Sectors32() == 0
    && Used(b) <= b.sectorCount && 4085 <= ClusterCount(b) < 65525
  }

  ghost function LayoutOf(b: Bpb, offset: nat): Layout
    requires b.bytesPerSector == 512 && b.sectorsPerCluster > 0 && Used(b) <= b.sectorCount
  {
    Layout(offset, 512 * b.reserved, 512 * (b.reserved + FatSectors(b)), 512 * Used(b), ClusterCount(b))
  }

  /** The fields in their C widths. */
  predicate InWidth(b: Bpb) {
    && b.sectorsPerCluster < 0x100 && b.numFats < 0x100
    && b.bytesPerSector < 0x1_0000 && b.reserved < 0x1_0000 && b.rootEntries < 0x1_0000
    && b.sectorCount < 0x1_0000 && b.fatSize < 0x1_0000
  }

  lemma UsedBound(b: Bpb)
    requires InWidth(b) && b.bytesPerSector == 512
    ensures FatSectors(b) <= 0xFF * 0xFFFF && RootSectors(b) <= 0xFFF && Used(b) < 0x110_0000
  {
    TimesMono(b.numFats, 0xFF, b.fatSize);
    TimesMono2(0xFF, b.fatSize, 0xFFFF);
    RootBound(b);
    hide Times, Quot;
  }

  lemma TimesMono2(i: nat, a: nat, c: nat)
    requires a <= c
    ensures Times(i, a) <= Times(i, c)
  {
  }

  lemma RootBound(b: Bpb)
    requires InWidth(b) && b.bytesPerSector == 512
    ensures RootSectors(b) <= 0xFFF
  {
    assert Quot(b.rootEntries * 32, 512) == b.rootEntries * 32 / 512;
  }

  lemma QuotLow(x: nat, a: nat, k: nat)
    requires a > 0
    ensures Quot(x, a) < k ==> x < Times(k, a)
  {
    Divided(x, a);
    hide Times, Quot, Rem;
    if Quot(x, a) < k {
      TimesWithin(Quot(x, a), k, a);
    }
  }

  /** A quotient by at most 128. */
  lemma ManyClusters(x: nat, spc: nat)
    requires 0 < spc <= 128 && x >= 65525 * 128
    ensures Quot(x, spc) >= 65525
  {
    QuotLow(x, spc, 65525);
    TimesMono2(65525, spc, 128);
    assert Times(65525, 128) == 65525 * 128;
  }

  /** The unsigned subtraction of `fat16_init` either does not wrap or gives a cluster count that is
      rejected. */
  lemma WrapRejected(b: Bpb)
    requires InWidth(b) && b.bytesPerSector == 512 && 0 < b.sectorsPerCluster <= 128
    ensures Used(b) > b.sectorCount ==> Quot(U32(b.sectorCount - Used(b)), b.sectorsPerCluster) >= 65525
    ensures Used(b) <= b.sectorCount ==> U32(b.sectorCount - Used(b)) == b.sectorCount - Used(b)
  {
    UsedBound(b);
    hide Used, Quot;
    if Used(b) > b.sectorCount {
      assert U32(b.sectorCount - Used(b)) == b.sectorCount - Used(b) + WORD;
      ManyClusters(U32(b.sectorCount - Used(b)), b.sectorsPerCluster);
    }
  }

  datatype Outcome = Mounted(bpb: Bpb, layout: Layout) | Rejected(code: nat) | DivideError

  /** `fat16_init`: exactly the acceptable volumes are mounted, with the layout computed in plain numbers.
      The invalid-jump error is not seen, and the division by a sector size of 0 faults. */
  method Init(dev: Device, offset: nat) returns (out: Outcome)
    requires dev.Valid() && offset + 62 < WORD
    modifies dev
    ensures dev.Valid()
    ensures out.Mounted? <==> Acceptable(Boot(dev.disk, offset))
    ensures out.Mounted? ==> out.bpb == Boot(dev.disk, offset).Fields() && out.layout == LayoutOf(out.bpb, offset)
    ensures out.DivideError? <==> !Boot(dev.disk, offset).ValidJump()
    ensures out.Rejected? ==>
              out.code == if Boot(dev.disk, offset).Code() > 0 then Boot(dev.disk, offset).Code()
                          else INVALID_CLUSTER_COUNT
  {
    hide Byte, Half, Long;
    dev.Seek(0);
    ghost var boot := Boot(dev.disk, offset);
    var ret, bpb := ReadBpb(dev, offset);
    if ret > 0 {
      return Rejected(ret);
    }
    if bpb.bytesPerSector == 0 {
      return DivideError;
    }
    assert InWidth(bpb);
    var rootSectors := Quot(bpb.rootEntries * 32, bpb.bytesPerSector);
    var dataSectors := U32(bpb.sectorCount - (bpb.reserved + Times(bpb.numFats, bpb.fatSize) + rootSectors));
    WrapRejected(bpb);
    NoSectors(bpb);
    assert dataSectors == U32(bpb.sectorCount - Used(bpb)) && rootSectors == RootSectors(bpb);
    hide Used, Quot, Times, U32;
    var clusters := Quot(dataSectors, bpb.sectorsPerCluster);
    if clusters < 4085 || clusters >= 65525 {
      return Rejected(INVALID_CLUSTER_COUNT);
    }
    var layout := Regions(bpb, offset, rootSectors, clusters);
    out := Mounted(bpb, layout);
  }

  /** A volume that gives its size in the 32-bit field only is never mounted: that field is not kept. */
  lemma NoSectors(b: Bpb)
    requires InWidth(b) && b.bytesPerSector == 512 && 0 < b.sectorsPerCluster <= 128
    ensures b.sectorCount == 0 ==>
              var clusters := Quot(U32(b.sectorCount - Used(b)), b.sectorsPerCluster);
              clusters < 4085 || clusters >= 65525
  {
    WrapRejected(b);
    QuotZero(b.sectorsPerCluster);
    hide Used, Quot;
  }

  lemma QuotZero(a: nat)
    requires a > 0
    ensures Quot(0, a) == 0
  {
    UniqueQuotient(0, a, 0, 0);
  }

  lemma Scaled(b: Bpb, x: nat)
    requires b.bytesPerSector == 512
    ensures x * b.bytesPerSector == 512 * x
  {
  }

  lemma ScaledWord(b: Bpb, x: nat)
    requires b.bytesPerSector == 512 && 512 * x < WORD
    ensures U32(Times(x, b.bytesPerSector)) == 512 * x
  {
    hide U32;
  }

  /** None of the products and sums of the layout wraps. */
  lemma RegionWords(b: Bpb)
    requires InWidth(b) && b.bytesPerSector == 512 && Used(b) <= b.sectorCount
    ensures U32(Times(b.reserved, b.bytesPerSector)) == 512 * b.reserved
    ensures U32(Times(b.numFats, b.fatSize)) == FatSectors(b)
    ensures U32(Times(FatSectors(b), b.bytesPerSector)) == 512 * FatSectors(b)
    ensures U32(512 * FatSectors(b) + 512 * b.reserved) == 512 * (b.reserved + FatSectors(b))
    ensures U32(Times(RootSectors(b), b.bytesPerSector)) == 512 * RootSectors(b)
    ensures U32(512 * RootSectors(b) + 512 * (b.reserved + FatSectors(b))) == 512 * Used(b)
  {
    hide U32, Times, RootSectors;
    assert FatSectors(b) == Times(b.numFats, b.fatSize);
    hide FatSectors;
    ScaledWord(b, b.reserved);
    ScaledWord(b, FatSectors(b));
    ScaledWord(b, RootSectors(b));
  }

  /** The multiplications and sums of the layout, in 32 bits. */
  method Regions(b: Bpb, offset: nat, rootSectors: nat, clusters: nat) returns (l: Layout)
    requires InWidth(b) && b.bytesPerSector == 512 && b.sectorsPerCluster > 0 && Used(b) <= b.sectorCount
    requires rootSectors == RootSectors(b) && clusters == ClusterCount(b)
    ensures l == LayoutOf(b, offset)
  {
    RegionWords(b);
    hide U32, Times, RootSectors, ClusterCount, FatSectors, Used;
    var fat := b.reserved;
    fat := U32(Times(fat, b.bytesPerSector));
    var root := b.numFats;
    root := U32(Times(root, b.fatSize));
    root := U32(Times(root, b.bytesPerSector));
    root := U32(root + fat);
    var data := rootSectors;
    data := U32(Times(data, b.bytesPerSector));
    data := U32(data + root);
    l := Layout(offset, fat, root, data, clusters);
  }

  // ----- accepted volumes -----

  /** On an accepted volume the regions follow each other within its sectors, and clusters are at most
      8192 bytes: larger ones would need more sectors than 16 bits can count. */
  lemma RegionsInVolume(boot: Boot, offset: nat)
    requires Acceptable(boot)
    ensures var b := boot.Fields();
            var l := LayoutOf(b, offset);
            && l.fat <= l.root <= l.data
            && l.data + Times(l.clusters, b.sectorsPerCluster * 512) <= b.sectorCount * 512
            && b.sectorsPerCluster <= 16
  {
    hide Byte, Half, Long;
    var b := boot.Fields();
    assert InWidth(b);
    InSectors(b, ClusterCount(b));
    hide Times, Quot, FatSectors, RootSectors;
  }

  lemma InSectors(b: Bpb, k: nat)
    requires b.bytesPerSector == 512 && Used(b) <= b.sectorCount < 0x1_0000
    requires b.sectorsPerCluster in {1, 2, 4, 8, 16, 32, 64, 128}
    requires k == ClusterCount(b) && k >= 4085
    ensures Times(k, b.sectorsPerCluster * 512) <= 512 * (b.sectorCount - Used(b)) && b.sectorsPerCluster <= 16
  {
    hide Used, Times, Quot;
    var spc := b.sectorsPerCluster;
    Divided(b.sectorCount - Used(b), spc);
    TimesMono(4085, k, spc);
    By512(k, spc);
    FewSectors(spc);
  }

  lemma By512(k: nat, a: nat)
    ensures Times(k, a * 512) == 512 * Times(k, a)
  {
  }

  lemma FewSectors(spc: nat)
    requires Times(4085, spc) < 0x1_0000
    ensures spc <= 16
  {
  }

  /** Geometry of the volume that a boot sector describes. */
  ghost function GeometryOf(boot: Boot, offset: nat): Geometry
    requires Acceptable(boot)
  {
    Geo(boot.Fields(), LayoutOf(boot.Fields(), offset))
  }

  /** Exactly which volumes are mounted, in the numbers of the boot sector. */
  lemma AcceptableMeans(boot: Boot)
    ensures Acceptable(boot) <==>
            && boot.ValidJump() && boot.BytesPerSector() == 512
            && boot.SectorsPerCluster() in {1, 2, 4, 8, 16, 32, 64, 128}
            && boot.Sectors16() != 0 && boot.Sectors32() == 0
            && var used := boot.Reserved() + boot.NumFats() * boot.FatSize() + boot.RootEntries() * 32 / 512;
            used <= boot.Sectors16() && 4085 <= (boot.Sectors16() - used) / boot.SectorsPerCluster() < 65525
  {
    hide Byte, Half, Long;
  }

  /** Where the regions of a mounted volume start: FATs behind the reserved sectors, the root directory behind
      the FATs, clusters behind the whole sectors of the root directory. */
  lemma LayoutNumbers(boot: Boot, offset: nat)
    requires Acceptable(boot)
    ensures var g, used := GeometryOf(boot, offset),
              boot.Reserved() + boot.NumFats() * boot.FatSize() + boot.RootEntries() * 32 / 512;
            && g.offset == offset && g.fat == 512 * boot.Reserved()
            && g.root == 512 * (boot.Reserved() + boot.NumFats() * boot.FatSize())
            && g.data == 512 * used && g.rootEntries == boot.RootEntries()
            && g.clusters == (boot.Sectors16() - used) / boot.SectorsPerCluster()
            && g.clusterBytes == 512 * boot.SectorsPerCluster()
  {
    hide Byte, Half, Long;
  }

  /** On a mounted volume the FAT entry of a cluster is read from the first FAT: two bytes for each cluster,
      behind the reserved sectors. */
  lemma MountedNext(boot: Boot, offset: nat, c: nat)
    requires Acceptable(boot)
    ensures var a := 51200 + offset + 512 * boot.Reserved() + 2 * c;
            Next(boot.disk, GeometryOf(boot, offset), c) == boot.disk(a) as int + 256 * boot.disk(a + 1) as int
  {
    LayoutNumbers(boot, offset);
    NextInBytes(boot.disk, GeometryOf(boot, offset), c);
    hide Byte, Half, Long, GeometryOf, Next, Acceptable;
  }

  /** And where the bytes of a cluster and of a root record are. */
  lemma MountedData(boot: Boot, offset: nat, c: nat, k: nat)
    requires Acceptable(boot)
    ensures var g, used := GeometryOf(boot, offset),
              boot.Reserved() + boot.NumFats() * boot.FatSize() + boot.RootEntries() * 32 / 512;
            2 <= c < g.clusters + 2 && k < 512 * boot.SectorsPerCluster() ==>
              && DataCluster(g, c) && k < |ClusterBytes(boot.disk, g, c)|
              && ClusterBytes(boot.disk, g, c)[k] ==
                 boot.disk(51200 + offset + 512 * used + (c - 2) * (512 * boot.SectorsPerCluster()) + k)
  {
    LayoutNumbers(boot, offset);
    var g := GeometryOf(boot, offset);
    hide Byte, Half, Long, GeometryOf, ClusterBytes, Acceptable;
    if 2 <= c < g.clusters + 2 && k < 512 * boot.SectorsPerCluster() {
      ClusterByte(boot.disk, g, c, k);
    }
  }

  lemma MountedRecord(boot: Boot, offset: nat, i: nat)
    requires Acceptable(boot)
    ensures var at := offset + 512 * (boot.Reserved() + boot.NumFats() * boot.FatSize()) + 32 * i;
            && RootPos(GeometryOf(boot, offset), i) == at
            && RootRecord(boot.disk, GeometryOf(boot, offset), i) ==
               Parse(seq(32, k requires 0 <= k < 32 => boot.disk(51200 + at + k)))
  {
    LayoutNumbers(boot, offset);
    var g := GeometryOf(boot, offset);
    hide Byte, Half, Long, GeometryOf, Parse, Acceptable;
    var at := RootPos(g, i);
    assert DeviceBytes(boot.disk, at, 32) == seq(32, k requires 0 <= k < 32 => boot.disk(51200 + at + k));
  }

  /** Positions on a mounted volume that starts here stay below 2^32. */
  predicate Addressable(offset: nat) { offset + 0x220_0000 <= WORD }

  /** Every mounted volume can be worked with. Its root directory keeps clear of the data region exactly when
      it fills whole sectors; the driver does not look. */
  lemma MountedSound(boot: Boot, offset: nat)
    requires Acceptable(boot) && Addressable(offset)
    ensures Sound(GeometryOf(boot, offset))
    ensures RootFits(GeometryOf(boot, offset)) <==> boot.RootEntries() % 16 == 0
  {
    RegionsInVolume(boot, offset);
    hide Byte, Half, Long, Times;
    var b := boot.Fields();
    Scaled(b, b.sectorsPerCluster);
    SoundWhen(b, LayoutOf(b, offset));
  }

  lemma SoundWhen(b: Bpb, l: Layout)
    requires InWidth(b) && b.bytesPerSector == 512 && 1 <= b.sectorsPerCluster <= 16 && Addressable(l.offset)
    requires b.sectorsPerCluster * b.bytesPerSector == 512 * b.sectorsPerCluster
    requires l.fat <= l.root && l.data == l.root + 512 * RootSectors(b) && l.clusters < 65525
    requires l.data + Times(l.clusters, b.sectorsPerCluster * 512) <= b.sectorCount * 512
    ensures Sound(Geo(b, l)) && (RootFits(Geo(b, l)) <==> b.rootEntries % 16 == 0)
  {
    WholeSectors(b.rootEntries);
    hide Times, Quot;
  }

  /** Of the root records the last ones, up to fifteen that do not fill a sector, lie where the first
      cluster does; all others end before the data region. */
  lemma RootRecordsInData(boot: Boot, offset: nat, i: nat)
    requires Acceptable(boot)
    ensures var g, whole := GeometryOf(boot, offset), boot.RootEntries() / 16 * 16;
            && (i < whole ==> RootPos(g, i + 1) <= g.data + g.offset)
            && (i >= whole ==> g.data + g.offset <= RootPos(g, i))
  {
    WholeSectors(boot.RootEntries());
    hide Byte, Half, Long, Times, Quot, ClusterCount;
  }

  lemma WholeSectors(n: nat)
    ensures 512 * Quot(n * 32, 512) == 32 * (n / 16 * 16)
  {
    UniqueQuotient(n * 32, 512, n / 16, n % 16 * 32);
  }

  /** On every mounted volume different clusters occupy different bytes, behind the sectors of the root
      directory and within the sectors that the boot sector announces. */
  lemma MountedClusters(boot: Boot, offset: nat, c: nat, d: nat)
    requires Acceptable(boot) && Addressable(offset) && c != d
    requires DataCluster(GeometryOf(boot, offset), c) && DataCluster(GeometryOf(boot, offset), d)
    ensures var g := GeometryOf(boot, offset);
            && (DataPos(g, c) + g.clusterBytes <= DataPos(g, d) || DataPos(g, d) + g.clusterBytes <= DataPos(g, c))
            && g.data + g.offset <= DataPos(g, c)
            && DataPos(g, c) + g.clusterBytes <= g.offset + 512 * boot.Sectors16() < WORD
  {
    MountedSound(boot, offset);
    RegionsInVolume(boot, offset);
    var g := GeometryOf(boot, offset);
    ClustersDisjoint(g, c, d);
    hide Byte, Half, Long, Times, Sound, Acceptable, DataPos;
    Scaled(boot.Fields(), boot.Fields().sectorsPerCluster);
  }

  /** A volume with a single root record: 20000 sectors, of which one is reserved and 40 hold two FATs. */
  const ONE_RECORD: Disk := (a: nat) =>
    if a < FIRST_SECTOR * SECTOR_SIZE then 0 as byte
    else match a - FIRST_SECTOR * SECTOR_SIZE
         case 0 => 0xE9
         case 12 => 2
         case 13 => 4
         case 14 => 1
         case 16 => 2
         case 17 => 1
         case 19 => 0x20
         case 20 => 0x4E
         case 22 => 20
         case _ => 0

  /** It is mounted, and its root record is the start of its first cluster. */
  lemma OneRecordMounted()
    ensures var boot := Boot(ONE_RECORD, 0);
            && Acceptable(boot) && !RootFits(GeometryOf(boot, 0))
            && RootPos(GeometryOf(boot, 0), 0) == DataPos(GeometryOf(boot, 0), 2)
  {
    OneRecordFields();
    hide Byte, Half, Long;
    var boot := Boot(ONE_RECORD, 0);
    assert boot.Fields() == Bpb(512, 4, 1, 2, 1, 20000, 20);
  }

  lemma OneRecordFields()
    ensures var boot := Boot(ONE_RECORD, 0);
            && boot.ValidJump() && boot.BytesPerSector() == 512 && boot.SectorsPerCluster() == 4
            && boot.Reserved() == 1 && boot.NumFats() == 2 && boot.RootEntries() == 1
            && boot.Sectors16() == 20000 && boot.FatSize() == 20 && boot.Sectors32() == 0
  {
  }

  /** With a FAT for every cluster, the entry of each data cluster lies in the first FAT. */
  lemma EntriesInFat(boot: Boot, offset: nat, c: nat)
    requires Acceptable(boot) && boot.NumFats() >= 1
    requires DataCluster(Geo(boot.Fields(), LayoutOf(boot.Fields(), offset)), c)
    requires 512 * boot.FatSize() >= 2 * (LayoutOf(boot.Fields(), offset).clusters + 2)
    ensures var l := LayoutOf(boot.Fields(), offset);
            var p := FatPos(Geo(boot.Fields(), l), c);
            offset + l.fat <= p && p + 2 <= offset + l.root
  {
    TimesMono(1, boot.NumFats(), boot.FatSize());
  }

  /** The whole of `fat16_init`: on success the volume is ready and all handles are closed. */
  method Mount(dev: Device, offset: nat) returns (out: Outcome, fs: F.Fat16?)
    requires dev.Valid() && Addressable(offset)
    modifies dev
    ensures (fs != null) == out.Mounted? == Acceptable(Boot(dev.disk, offset))
    ensures fs != null ==>
              && fresh(fs) && fresh(fs.handles) && fs.Valid() && fs.vol.dev == dev
              && fs.vol.G() == GeometryOf(Boot(dev.disk, offset), offset)
              && forall i :: 0 <= i < |fs.handles| ==> !fs.Slots()[i].IsOpen()
  {
    hide Byte, Half, Long, Sound;
    fs := null;
    out := Init(dev, offset);
    if out.Mounted? {
      MountedSound(Boot(dev.disk, offset), offset);
      var vol := new Volume(dev, out.bpb, out.layout);
      fs := new F.Fat16(vol);
    }
  }
}
