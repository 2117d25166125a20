/** The disk as the FAT driver sees it: a flat sequence of bytes, read in sectors. */
module FatDisk {
  import opened Bytes
  import opened MemOps

  const SECTOR_SIZE: nat := 512
  const FIRST_SECTOR: nat := 100

  /** A constant disk, byte by byte. */
  type Disk = nat -> byte

  function DiskBytes(disk: Disk, a: nat, n: nat): (s: seq<byte>)
    ensures |s| == n
  {
    seq(n, i requires 0 <= i < n => disk(a + i))
  }

  lemma DiskConcat(disk: Disk, a: nat, n: nat, k: nat)
    ensures DiskBytes(disk, a, n) + DiskBytes(disk, a + n, k) == DiskBytes(disk, a, n + k)
  {
  }

  lemma DiskSlice(disk: Disk, a: nat, n: nat, from: nat, k: nat)
    requires from + k <= n
    ensures DiskBytes(disk, a, n)[from..from + k] == DiskBytes(disk, a + from, k)
  {
  }

  /** The bytes of the device: the disk from its first sector on. */
  function DeviceBytes(disk: Disk, p: nat, n: nat): (s: seq<byte>)
    ensures |s| == n
  {
    DiskBytes(disk, FIRST_SECTOR * SECTOR_SIZE + p, n)
  }

  /** The device starts with sector 100. */
  lemma DeviceByte(disk: Disk, p: nat, n: nat, k: nat)
    requires k < n
    ensures DeviceBytes(disk, p, n)[k] == disk(51200 + p + k)
  {
  }

  lemma PlaceAppend(m: Memory, at: nat, a: seq<byte>, b: seq<byte>)
    requires at + |a| + |b| <= |m|
    ensures Place(Place(m, at, a), at + |a|, b) == Place(m, at, a + b)
  {
  }

  class Device {
    const disk: Disk
    var pointer: nat

    ghost predicate Valid()
      reads this
    {
      pointer < WORD
    }

    constructor (disk: Disk)
      ensures Valid() && this.disk == disk && pointer == 0
    {
      this.disk := disk;
      pointer := 0;
    }

    /** `_seek`. */
    method Seek(offset: nat)
      requires offset < WORD
      modifies this
      ensures Valid() && pointer == offset
    {
      pointer := offset;
    }

    /** One sector of the disk, as the drive delivers it. */
    method Read28(sector: nat, buffer: array<byte>, at: nat)
      requires at + SECTOR_SIZE <= buffer.Length
      modifies buffer
      ensures buffer[..] == Place(old(buffer[..]), at, DiskBytes(disk, sector * SECTOR_SIZE, SECTOR_SIZE))
    {
      for i := 0 to SECTOR_SIZE
        invariant forall k :: at <= k < at + i ==> buffer[k] == disk(sector * SECTOR_SIZE + (k - at))
        invariant forall k :: 0 <= k < buffer.Length && !(at <= k < at + i) ==> buffer[k] == old(buffer[k])
      {
        buffer[at + i] := disk(sector * SECTOR_SIZE + i);
      }
    }

    /** Part of one sector, by way of a sector buffer: the first and the last phase of `_read`. */
    method ReadPart(sector: nat, offset: nat, buffer: array<byte>, at: nat, n: nat)
      requires offset + n <= SECTOR_SIZE && at + n <= buffer.Length
      modifies buffer
      ensures buffer[..] == Place(old(buffer[..]), at, DiskBytes(disk, sector * SECTOR_SIZE + offset, n))
    {
      var sectorBuffer := new byte[SECTOR_SIZE](_ => 0);
      Read28(sector, sectorBuffer, 0);
      assert sectorBuffer[..] == DiskBytes(disk, sector * SECTOR_SIZE, SECTOR_SIZE);
      DiskSlice(disk, sector * SECTOR_SIZE, SECTOR_SIZE, offset, n);
      assert sectorBuffer[offset..offset + n] == sectorBuffer[..][offset..offset + n];
      MemcpyBetween(buffer, at, sectorBuffer, offset, n);
    }

    /** `_read`: a partial first sector, full sectors, a partial last one. */
    method Read(buffer: array<byte>, at: nat, length: nat)
      requires Valid() && length < WORD && at + length <= buffer.Length
      modifies this, buffer
      ensures Valid() && pointer == U32(old(pointer) + length)
      ensures buffer[..] == Place(old(buffer[..]), at, DeviceBytes(disk, old(pointer), length))
    {
      hide DiskBytes, Place, U32;
      ghost var m, p, start := buffer[..], FIRST_SECTOR * SECTOR_SIZE + pointer, pointer;
      var sector := pointer / SECTOR_SIZE;
      sector := sector + FIRST_SECTOR;
      var offset := pointer % SECTOR_SIZE;
      var remaining, buf := length, at;
      NothingRead(m, at, disk, p);
      if offset != 0 {
        var toCopy := if remaining < SECTOR_SIZE - offset then remaining else SECTOR_SIZE - offset;
        ReadPart(sector, offset, buffer, buf, toCopy);
        buf, remaining, sector := buf + toCopy, remaining - toCopy, sector + 1;
        pointer := U32(pointer + toCopy);
      }
      while remaining >= SECTOR_SIZE
        invariant 0 <= remaining <= length && buf == at + (length - remaining)
        invariant remaining > 0 ==> sector * SECTOR_SIZE == p + (length - remaining)
        invariant pointer == U32(start + (length - remaining))
        invariant buffer[..] == Place(m, at, DiskBytes(disk, p, length - remaining))
      {
        Read28(sector, buffer, buf);
        ReadMore(m, at, disk, p, length - remaining, SECTOR_SIZE);
        U32Sum(start + (length - remaining), SECTOR_SIZE);
        buf, remaining, sector := buf + SECTOR_SIZE, remaining - SECTOR_SIZE, sector + 1;
        pointer := U32(pointer + SECTOR_SIZE);
      }
      if remaining > 0 {
        ReadPart(sector, 0, buffer, buf, remaining);
        ReadMore(m, at, disk, p, length - remaining, remaining);
        U32Sum(start + (length - remaining), remaining);
        pointer := U32(pointer + remaining);
      }
    }
  }

  /** Reading `n` and then `m` bytes leaves the same pointer as reading `n + m` at once. It leaves the same
      bytes in memory if the pointer does not wrap in between, and otherwise exactly when the start of the
      device holds the bytes that lie behind its end. */
  method DeviceReadsAgree(dev: Device, split: array<byte>, whole: array<byte>, at: nat, n: nat, m: nat)
    requires dev.Valid() && n + m < WORD
    requires split != whole && split[..] == whole[..] && at + n + m <= split.Length
    modifies dev, split, whole
    ensures dev.pointer == U32(old(dev.pointer) + n + m)
    ensures split[..] == whole[..] <==>
            DeviceBytes(dev.disk, U32(old(dev.pointer) + n), m) == DeviceBytes(dev.disk, old(dev.pointer) + n, m)
    ensures old(dev.pointer) + n < WORD ==> split[..] == whole[..]
  {
    hide DiskBytes, Place, U32;
    ghost var before := split[..];
    var p := dev.pointer;
    dev.Read(split, at, n);
    dev.Read(split, at + n, m);
    dev.Seek(p);
    dev.Read(whole, at, n + m);
    ReadMore(before, at, dev.disk, FIRST_SECTOR * SECTOR_SIZE + p, n, m);
    PlaceSame(Place(before, at, DeviceBytes(dev.disk, p, n)), at + n, DeviceBytes(dev.disk, U32(p + n), m),
              DeviceBytes(dev.disk, p + n, m));
  }

  lemma PlaceSame(m: Memory, at: nat, a: seq<byte>, b: seq<byte>)
    requires at + |a| <= |m| && |a| == |b|
    ensures Place(m, at, a) == Place(m, at, b) <==> a == b
  {
    assert Place(m, at, a)[at..at + |a|] == a && Place(m, at, b)[at..at + |b|] == b;
  }

  lemma NothingRead(m: Memory, at: nat, disk: Disk, p: nat)
    requires at <= |m|
    ensures Place(m, at, DiskBytes(disk, p, 0)) == m
  {
  }

  lemma ReadMore(m: Memory, at: nat, disk: Disk, p: nat, n: nat, k: nat)
    requires at + n + k <= |m|
    ensures Place(Place(m, at, DiskBytes(disk, p, n)), at + n, DiskBytes(disk, p + n, k)) ==
            Place(m, at, DiskBytes(disk, p, n + k))
  {
    PlaceAppend(m, at, DiskBytes(disk, p, n), DiskBytes(disk, p + n, k));
    DiskConcat(disk, p, n, k);
  }
}
