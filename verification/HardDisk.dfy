/** The disk: a sequence of bytes, read and written by 512-byte sectors (boot/hd.c) or, by the host
    tool, from any sector boundary on.  One transfer is atomic. */
module HardDisk {
  import opened Bytes

  const SECTOR_SIZE := 512

  function Sector(d: seq<byte>, lba: nat): (s: seq<byte>)
    requires SECTOR_SIZE * (lba + 1) <= |d|
    ensures |s| == SECTOR_SIZE
  {
    d[SECTOR_SIZE * lba..SECTOR_SIZE * lba + SECTOR_SIZE]
  }

  class Disk {
    var bytes: seq<byte>
    var pos: nat  // the host tool's file position

    constructor (bytes: seq<byte>)
      ensures this.bytes == bytes && pos == 0
    {
      this.bytes := bytes;
      pos := 0;
    }

    /** hd_read of one sector */
    method Read(lba: nat) returns (buf: seq<byte>)
      requires SECTOR_SIZE * (lba + 1) <= |bytes|
      ensures buf == Sector(bytes, lba)
    {
      buf := Sector(bytes, lba);
    }

    /** hd_write of one sector */
    method Write(lba: nat, buf: seq<byte>)
      requires |buf| == SECTOR_SIZE && SECTOR_SIZE * (lba + 1) <= |bytes|
      modifies this`bytes
      ensures bytes == Put(old(bytes), SECTOR_SIZE * lba, buf)
    {
      bytes := Put(bytes, SECTOR_SIZE * lba, buf);
    }

    /** hd.read(n) of the host tool */
    method ReadNext(n: nat) returns (buf: seq<byte>)
      requires pos + n <= |bytes|
      modifies this`pos
      ensures buf == bytes[old(pos)..old(pos) + n] && pos == old(pos) + n
    {
      buf := bytes[pos..pos + n];
      pos := pos + n;
    }

    /** hd.write(data) of the host tool */
    method WriteNext(data: seq<byte>)
      requires pos + |data| <= |bytes|
      modifies this
      ensures bytes == Put(old(bytes), old(pos), data) && pos == old(pos) + |data|
    {
      bytes := Put(bytes, pos, data);
      pos := pos + |data|;
    }
  }
}
