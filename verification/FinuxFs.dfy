/** The file system as the loader formats it (boot/fs.c: make_fs, get_super_block). */
module FinuxFs {
  import opened Common
  import opened Bytes
  import opened HardDisk
  import opened PartitionTable

  const MAX_INODE_CNT := 100
  const MAX_INODE_SECTORS := 4
  const FINUX_MAGIC := 563855
  const READ_WRITE := 2

  datatype SuperBlock = SuperBlock(
    magic: word, inode_cnt: word, sector_cnt: word, inode_map_sectors: word, inode_map_start: word,
    sector_map_sectors: word, sector_map_start: word, inode_array_start: word, first_data_sector: word,
    inode_sectors: word, root_start: word, root_inode: word, root_sectors: word, inode_size: word, dir_ent_size: word)

  function SuperWords(s: SuperBlock): (r: seq<word>)
    ensures |r| == 15
  {
    [s.magic, s.inode_cnt, s.sector_cnt, s.inode_map_sectors, s.inode_map_start, s.sector_map_sectors,
     s.sector_map_start, s.inode_array_start, s.first_data_sector, s.inode_sectors, s.root_start,
     s.root_inode, s.root_sectors, s.inode_size, s.dir_ent_size]
  }

  function SuperOf(w: seq<word>): SuperBlock
    requires |w| == 15
  {
    SuperBlock(w[0], w[1], w[2], w[3], w[4], w[5], w[6], w[7], w[8], w[9], w[10], w[11], w[12], w[13], w[14])
  }

  /** The super block in the sector after the partition's first. */
  function SuperAt(d: seq<byte>, base: nat): SuperBlock
    requires SECTOR_SIZE * (base + 2) <= |d|
  {
    SuperOf(Decode(Sector(d, base + 1)[..60]))
  }

  datatype Inode = Inode(mode: word, file_size: word, file_start_sect: word, file_sector_cnt: word)

  function InodeBytes(i: Inode): (r: seq<byte>)
    ensures |r| == 16
  {
    Encode([i.mode, i.file_size, i.file_start_sect, i.file_sector_cnt])
  }

  function InodeAt(d: seq<byte>, off: nat): Inode
    requires off + 16 <= |d|
  {
    var w := Decode(d[off..off + 16]);
    Inode(w[0], w[1], w[2], w[3])
  }

  /** The word at byte `off`. */
  function WordAt(d: seq<byte>, off: nat): word
    requires off + 4 <= |d|
  {
    DecodeWord(d[off..off + 4])
  }

  lemma DecodedWord(d: seq<byte>, o: nat, n: nat, k: nat)
    requires o + 4 * n <= |d| && k < n
    ensures |Decode(d[o..o + 4 * n])| == n && Decode(d[o..o + 4 * n])[k] == WordAt(d, o + 4 * k)
  {
    DecodedAt(d[o..o + 4 * n], k);
    SliceOfSlice(d, o, o + 4 * n, 4 * k, 4 * k + 4);
  }

  lemma DecodedWords(d: seq<byte>, o: nat, n: nat)
    requires o + 4 * n <= |d|
    ensures var w := Decode(d[o..o + 4 * n]); |w| == n && forall k | 0 <= k < n :: w[k] == WordAt(d, o + 4 * k)
  {
    hide WordAt, Decode;
    forall k | 0 <= k < n ensures Decode(d[o..o + 4 * n])[k] == WordAt(d, o + 4 * k) {
      DecodedWord(d, o, n, k);
    }
  }

  /** The words of an inode in the order of `struct inode`. */
  lemma InodeLayout(d: seq<byte>, off: nat)
    requires off + 16 <= |d|
    ensures InodeAt(d, off).mode == WordAt(d, off)
    ensures InodeAt(d, off).file_size == WordAt(d, off + 4)
    ensures InodeAt(d, off).file_start_sect == WordAt(d, off + 8)
    ensures InodeAt(d, off).file_sector_cnt == WordAt(d, off + 12)
  {
    hide WordAt;
    DecodedWord(d, off, 4, 0);
    DecodedWord(d, off, 4, 1);
    DecodedWord(d, off, 4, 2);
    DecodedWord(d, off, 4, 3);
  }

  /** The words of the super block in the order of `struct super_block`. */
  lemma SuperLayout(d: seq<byte>, base: nat)
    requires SECTOR_SIZE * (base + 2) <= |d|
    ensures var o, s := 512 * (base + 1), SuperAt(d, base);
      && s.magic == WordAt(d, o) && s.inode_cnt == WordAt(d, o + 4) && s.sector_cnt == WordAt(d, o + 8)
      && s.inode_map_sectors == WordAt(d, o + 12) && s.inode_map_start == WordAt(d, o + 16)
      && s.sector_map_sectors == WordAt(d, o + 20) && s.sector_map_start == WordAt(d, o + 24)
      && s.inode_array_start == WordAt(d, o + 28) && s.first_data_sector == WordAt(d, o + 32)
      && s.inode_sectors == WordAt(d, o + 36) && s.root_start == WordAt(d, o + 40)
      && s.root_inode == WordAt(d, o + 44) && s.root_sectors == WordAt(d, o + 48)
      && s.inode_size == WordAt(d, o + 52) && s.dir_ent_size == WordAt(d, o + 56)
  {
    hide WordAt, Decode;
    var o := 512 * (base + 1);
    SliceOfSlice(d, o, o + 512, 0, 60);
    assert Sector(d, base + 1)[..60] == d[o..o + 60];
    var w := Decode(d[o..o + 60]);
    DecodedWords(d, o, 15);
    assert w[0] == WordAt(d, o + 4 * 0) && w[1] == WordAt(d, o + 4 * 1) && w[2] == WordAt(d, o + 4 * 2);
    assert w[3] == WordAt(d, o + 4 * 3) && w[4] == WordAt(d, o + 4 * 4) && w[5] == WordAt(d, o + 4 * 5);
    assert w[6] == WordAt(d, o + 4 * 6) && w[7] == WordAt(d, o + 4 * 7) && w[8] == WordAt(d, o + 4 * 8);
    assert w[9] == WordAt(d, o + 4 * 9) && w[10] == WordAt(d, o + 4 * 10) && w[11] == WordAt(d, o + 4 * 11);
    assert w[12] == WordAt(d, o + 4 * 12) && w[13] == WordAt(d, o + 4 * 13) && w[14] == WordAt(d, o + 4 * 14);
  }

  lemma InodeRoundTrip(d: seq<byte>, off: nat, i: Inode)
    requires off + 16 <= |d| && d[off..off + 16] == InodeBytes(i)
    ensures InodeAt(d, off) == i
  {
    DecodeEncodeWords([i.mode, i.file_size, i.file_start_sect, i.file_sector_cnt]);
  }

  // ----- make_fs -----

  /** Sectors after the partition's first: super block, inode map, sector map, inode array, root. */
  function SectorMapSectors(cnt: word): nat {
    (cnt as int) / 512 / 8
  }

  function FirstData(base: nat, cnt: word): nat {
    base + 3 + SectorMapSectors(cnt) + 4 + 4
  }

  /** The partition lies on the disk, whose sector numbers have 28 bits. */
  predicate Fits(d: seq<byte>, base: nat, cnt: word) {
    SECTOR_SIZE * FirstData(base, cnt) <= |d| <= SECTOR_SIZE * 0x1000_0000
  }

  function Geometry(base: nat, cnt: word): SuperBlock
    requires FirstData(base, cnt) < U32
  {
    var maps := SectorMapSectors(cnt);
    SuperBlock(FINUX_MAGIC, MAX_INODE_CNT, cnt, 1, base + 2, maps, base + 3, base + 3 + maps,
               base + 3 + maps + 4 + 4, 4, base + 3 + maps + 4, 0, 4, 16, 16)
  }

  function RootInode(base: nat, cnt: word): Inode
    requires FirstData(base, cnt) < U32
  {
    Inode(READ_WRITE, 4 * 512, Geometry(base, cnt).root_start, 4)
  }

  /** What make_fs leaves from sector base+1 on; `junk` is the stack behind the local super block,
      which the write of a whole sector takes along. */
  function FormatImage(base: nat, cnt: word, junk: seq<byte>): (r: seq<byte>)
    requires FirstData(base, cnt) < U32 && |junk| == 452
    ensures |r| == SECTOR_SIZE * (FirstData(base, cnt) - (base + 1))
  {
    Encode(SuperWords(Geometry(base, cnt))) + junk
    + ([1] + Zeros(511))
    + Zeros(SECTOR_SIZE * SectorMapSectors(cnt))
    + (InodeBytes(RootInode(base, cnt)) + Zeros(SECTOR_SIZE * 4 - 16))
    + Zeros(SECTOR_SIZE * 4)
  }

  /** The writes in program order: the inode array is cleared before the root inode goes over its
      first sector, and the maps between them and the super block come last but one. */
  function FormatWrites(d: seq<byte>, base: nat, cnt: word, junk: seq<byte>): (r: seq<byte>)
    requires Fits(d, base, cnt) && |junk| == 452
    ensures |r| == |d|
  {
    var s := Geometry(base, cnt);
    var d1 := Put(d, SECTOR_SIZE * (base + 1), Encode(SuperWords(s)) + junk);
    var d2 := Put(d1, SECTOR_SIZE * s.inode_array_start, Zeros(SECTOR_SIZE * 4));
    var d3 := Put(d2, SECTOR_SIZE * s.inode_array_start, InodeBytes(RootInode(base, cnt)) + Zeros(496));
    var d4 := Put(d3, SECTOR_SIZE * s.inode_map_start, [1] + Zeros(511));
    var d5 := Put(d4, SECTOR_SIZE * s.sector_map_start, Zeros(SECTOR_SIZE * s.sector_map_sectors));
    Put(d5, SECTOR_SIZE * s.root_start, Zeros(SECTOR_SIZE * 4))
  }

  /** Five neighbouring regions written in the order first, fourth, second, third, fifth. */
  lemma InAnyOrder(d: seq<byte>, o: nat, a: seq<byte>, b: seq<byte>, c: seq<byte>, e: seq<byte>, f: seq<byte>)
    requires o + |a| + |b| + |c| + |e| + |f| <= |d|
    ensures Put(Put(Put(Put(Put(d, o, a), o + |a| + |b| + |c|, e), o + |a|, b), o + |a| + |b|, c),
          o + |a| + |b| + |c| + |e|, f)
         == Put(d, o, a + b + c + e + f)
  {
    hide Put;
    var oe := o + |a| + |b| + |c|;
    calc {
      Put(Put(Put(Put(Put(d, o, a), oe, e), o + |a|, b), o + |a| + |b|, c), oe + |e|, f);
      { PutSwap(Put(d, o, a), oe, e, o + |a|, b); PutPut(d, o, a, b); }
      Put(Put(Put(Put(d, o, a + b), oe, e), o + |a| + |b|, c), oe + |e|, f);
      { PutSwap(Put(d, o, a + b), oe, e, o + |a| + |b|, c); PutPut(d, o, a + b, c); }
      Put(Put(Put(d, o, a + b + c), oe, e), oe + |e|, f);
      { PutPut(d, o, a + b + c, e); }
      Put(Put(d, o, a + b + c + e), oe + |e|, f);
      { PutPut(d, o, a + b + c + e, f); }
      Put(d, o, a + b + c + e + f);
    }
  }

  lemma InodeArrayWrites(d: seq<byte>, off: nat, inode: seq<byte>)
    requires |inode| == 16 && off + SECTOR_SIZE * 4 <= |d|
    ensures Put(Put(d, off, Zeros(SECTOR_SIZE * 4)), off, inode + Zeros(496))
       == Put(d, off, inode + Zeros(SECTOR_SIZE * 4 - 16))
  {
    assert Zeros(SECTOR_SIZE * 4)[512..] == Zeros(SECTOR_SIZE * 3);
    PutOver(d, off, Zeros(SECTOR_SIZE * 4), inode + Zeros(496), Zeros(SECTOR_SIZE * 3));
    assert inode + Zeros(496) + Zeros(SECTOR_SIZE * 3) == inode + Zeros(SECTOR_SIZE * 4 - 16);
  }

  /** All phases together are one contiguous write of the image: nothing outside the sectors from
      base+1 up to the first data sector changes, and the regions do not overlap. */
  lemma FormatIsImage(d: seq<byte>, base: nat, cnt: word, junk: seq<byte>)
    requires Fits(d, base, cnt) && |junk| == 452
    ensures FormatWrites(d, base, cnt, junk) == Put(d, SECTOR_SIZE * (base + 1), FormatImage(base, cnt, junk))
  {
    hide Put, Zeros, Encode, InodeBytes;
    var s, o := Geometry(base, cnt), SECTOR_SIZE * (base + 1);
    var inode0 := InodeBytes(RootInode(base, cnt));
    var d1 := Put(d, o, Encode(SuperWords(s)) + junk);
    InodeArrayWrites(d1, SECTOR_SIZE * s.inode_array_start, inode0);
    InAnyOrder(d, o, Encode(SuperWords(s)) + junk, [1] + Zeros(511), Zeros(SECTOR_SIZE * s.sector_map_sectors),
               inode0 + Zeros(SECTOR_SIZE * 4 - 16), Zeros(SECTOR_SIZE * 4));
  }

  /** The loops that write `n` zero sectors. */
  method ClearSectors(hd: Disk, start: nat, n: nat, buf: seq<byte>)
    requires buf == Zeros(SECTOR_SIZE) && SECTOR_SIZE * (start + n) <= |hd.bytes|
    modifies hd
    ensures hd.bytes == Put(old(hd.bytes), SECTOR_SIZE * start, Zeros(SECTOR_SIZE * n))
  {
    PutNothing(hd.bytes, SECTOR_SIZE * start);
    assert Zeros(0) == [];
    for i := 0 to n
      invariant |hd.bytes| == |old(hd.bytes)|
      invariant hd.bytes == Put(old(hd.bytes), SECTOR_SIZE * start, Zeros(SECTOR_SIZE * i))
    {
      PutPut(old(hd.bytes), SECTOR_SIZE * start, Zeros(SECTOR_SIZE * i), buf);
      assert Zeros(SECTOR_SIZE * i) + buf == Zeros(SECTOR_SIZE * (i + 1));
      hd.Write(start + i, buf);
    }
  }

  predicate HasMagic(d: seq<byte>, base: nat)
    requires SECTOR_SIZE * (base + 2) <= |d|
  {
    SuperAt(d, base).magic == FINUX_MAGIC
  }

  /** make_fs from line 154 on: a partition that already has the magic number is left alone. */
  method Format(hd: Disk, base_sector: nat, part: Part, junk: seq<byte>) returns (made: bool)
    requires Fits(hd.bytes, base_sector, part.cnt) && |junk| == 452
    modifies hd
    ensures made <==> !HasMagic(old(hd.bytes), base_sector)
    ensures hd.bytes ==
      if made then
        Put(old(hd.bytes), SECTOR_SIZE * (base_sector + 1), FormatImage(base_sector, part.cnt, junk))
                        else old(hd.bytes)
  {
    var buf := hd.Read(base_sector + 1);
    var tmp := SuperOf(Decode(buf[..60]));
    if tmp.magic == FINUX_MAGIC {
      return false;
    }
    ghost var d := hd.bytes;
    var superblock := Geometry(base_sector, part.cnt);
    hd.Write(base_sector + 1, Encode(SuperWords(superblock)) + junk);
    buf := Zeros(SECTOR_SIZE);
    ClearSectors(hd, superblock.inode_array_start, MAX_INODE_SECTORS, buf);
    var root_inode := RootInode(base_sector, part.cnt);
    buf := InodeBytes(root_inode) + buf[16..];
    assert buf == InodeBytes(root_inode) + Zeros(496);
    hd.Write(superblock.inode_array_start, buf);
    buf := Zeros(SECTOR_SIZE);
    buf := buf[superblock.root_inode as int := 1];
    assert buf == [1] + Zeros(511);
    hd.Write(superblock.inode_map_start, buf);
    buf := buf[superblock.root_inode as int := 0];
    assert buf == Zeros(SECTOR_SIZE);
    ClearSectors(hd, superblock.sector_map_start, superblock.sector_map_sectors, buf);
    ClearSectors(hd, superblock.root_start, superblock.root_sectors, buf);
    assert hd.bytes == FormatWrites(d, base_sector, part.cnt, junk);
    FormatIsImage(d, base_sector, part.cnt, junk);
    return true;
  }

  /** get_super_block */
  method GetSuperBlock(hd: Disk, base_sector: nat) returns (super_block: SuperBlock)
    requires SECTOR_SIZE * (base_sector + 2) <= |hd.bytes|
    ensures super_block == SuperAt(hd.bytes, base_sector)
  {
    var tmp_buf := hd.Read(base_sector + 1);
    super_block := SuperOf(Decode(tmp_buf[..60]));
  }

  /** The formatted partition is recognised, so that a second make_fs writes nothing, and its super
      block reads back as it was computed. */
  lemma FormatReadsBack(d: seq<byte>, base: nat, cnt: word, junk: seq<byte>)
    requires Fits(d, base, cnt) && |junk| == 452
    ensures var d' := Put(d, SECTOR_SIZE * (base + 1), FormatImage(base, cnt, junk));
      HasMagic(d', base) && SuperAt(d', base) == Geometry(base, cnt)
  {
    var o, image := SECTOR_SIZE * (base + 1), FormatImage(base, cnt, junk);
    var d' := Put(d, o, image);
    var s := SuperWords(Geometry(base, cnt));
    DecodeEncodeWords(s);
    assert image[..60] == Encode(s);
    assert d'[o..o + |image|] == image;
    assert Sector(d', base + 1)[..60] == d'[o..o + |image|][..60];
  }

  /** What the super block of a formatted partition says, in numbers: the tables lie one behind the other
      from the partition's third sector on, and each is just long enough for what it has to hold. */
  lemma FormattedGeometry(d: seq<byte>, base: nat, cnt: word, junk: seq<byte>)
    requires Fits(d, base, cnt) && |junk| == 452
    ensures var s := SuperAt(Put(d, SECTOR_SIZE * (base + 1), FormatImage(base, cnt, junk)), base);
      && s.magic == 563855 && s.sector_cnt == cnt && s.inode_cnt == 100 && s.inode_size == 16 && s.dir_ent_size == 16
      && s.inode_map_start == base + 2
      && s.sector_map_start == s.inode_map_start + s.inode_map_sectors
      && s.inode_array_start == s.sector_map_start + s.sector_map_sectors
      && s.root_start == s.inode_array_start + s.inode_sectors
      && s.first_data_sector == s.root_start + s.root_sectors
      && s.inode_map_sectors == 1 && s.root_inode == 0
      && 512 * (s.inode_sectors - 1) < s.inode_cnt * s.inode_size <= 512 * s.inode_sectors
      && 512 * (s.root_sectors - 1) < s.inode_cnt * s.dir_ent_size <= 512 * s.root_sectors
      && 4096 * s.sector_map_sectors <= cnt < 4096 * (s.sector_map_sectors + 1)
  {
    hide FormatImage, Put, SuperAt;
    FormatReadsBack(d, base, cnt, junk);
    MapSectors(cnt);
  }

  lemma MapSectors(cnt: word)
    ensures 4096 * SectorMapSectors(cnt) <= cnt < 4096 * (SectorMapSectors(cnt) + 1)
  {
    var a := cnt / 512;
    assert 512 * a <= cnt < 512 * (a + 1);
    assert 8 * (a / 8) <= a < 8 * (a / 8 + 1);
  }

  /** The sector map the host tool reads, one bit per sector rounded up to bytes, lies in the
      sectors make_fs reserved for it exactly when the partition is a multiple of 4096 sectors. */
  lemma SectorMapFits(cnt: word)
    ensures (cnt + 7) / 8 <= SECTOR_SIZE * SectorMapSectors(cnt) <==> cnt % 4096 == 0
  {
    assert SectorMapSectors(cnt) == cnt / 4096;
    var q, r := cnt / 4096, cnt % 4096;
    assert (cnt + 7) / 8 == 512 * q + (r + 7) / 8;
  }
}
